/** When a builder keeps older ones out for good. */
module CsvOrder {
  import opened CsvBuilder
  import opened CsvSolo

  /**
   If `b` has committed after `first`, a later turn of builder `i` with rows left ends it with code
   1 and changes nothing.
   */
  ghost predicate ShutsOut(jobs: seq<Job>, b: nat, i: nat, first: seq<Act>, rest: seq<Act>)
    requires b < |jobs| && i < |jobs|
  {
    var s := Run(jobs, first + rest);
    |Run(jobs, first).phases| == |jobs| && Committed(Run(jobs, first).phases[b]) ==>
      |s.phases| == |jobs|
      && (s.phases[i].Filling? && s.phases[i].pos < |jobs[i].csv| ==>
            Step(jobs, s, Go(i)) == State(s.table, s.phases[i := Exited(1)]))
  }

  lemma OlderBuilderIsShutOut(jobs: seq<Job>, b: nat, i: nat, first: seq<Act>, rest: seq<Act>)
    requires b < |jobs| && i < |jobs| && jobs[i].mtime < jobs[b].mtime && jobs[b].csv != []
    requires NoEmptyAbove(jobs, jobs[b].mtime)
    ensures ShutsOut(jobs, b, i, first, rest)
  {
    var m := jobs[b].mtime;
    RunIsInv(jobs, first, m);
    RunIsInv(jobs, first + rest, m);
    if Committed(Run(jobs, first).phases[b]) {
      SettledIsPast(Run(jobs, first).table, m);
      var k :| Past(Run(jobs, first).table, k, m);
      RunKeepsPast(jobs, first, rest, k, m);
      var t := Run(jobs, first + rest).table;
      var w :| w in t && t[w].mtime >= m;
      assert HasNewer(t, jobs[i].mtime);
    }
  }

  /** An empty builder, forced or not, that counts before anyone has committed deletes whatever older ones commit. */
  lemma EmptyBuilderClears(jobs: seq<Job>, e: nat, turns: seq<Act>)
    requires e < |jobs| && jobs[e].csv == [] && forall act <- turns :: act.builder != e
    requires var t := Run(jobs, [Go(e)] + turns).table; forall k :: k in t ==> t[k].mtime < jobs[e].mtime
    ensures var s, after := Run(jobs, [Go(e)] + turns), Run(jobs, ([Go(e)] + turns) + [Go(e), Go(e)]);
            |s.phases| == |jobs| == |after.phases| && after.table == map[]
            && forall i | 0 <= i < |jobs| && i != e :: after.phases[i] == s.phases[i]
  {
    hide Step;
    var s := Run(jobs, [Go(e)] + turns);
    OneMore(jobs, [], Go(e));
    assert [] + [Go(e)] == [Go(e)];
    FirstCount(jobs, e);
    OthersKeepPhase(jobs, Run(jobs, [Go(e)]), turns, e);
    ExecAppend(jobs, Start(jobs), [Go(e)], turns);
    ExecAppend(jobs, Start(jobs), [Go(e)] + turns, [Go(e), Go(e)]);
    TwoTurns(jobs, s, e);
    CountAndDelete(jobs, s, e);
  }

  lemma FirstCount(jobs: seq<Job>, e: nat)
    requires e < |jobs| && jobs[e].csv == []
    ensures Step(jobs, Start(jobs), Go(e)) == State(map[], Start(jobs).phases[e := Counted(0)])
  {
  }

  lemma CountAndDelete(jobs: seq<Job>, s: State, e: nat)
    requires e < |jobs| == |s.phases| && s.phases[e] == Counted(0)
    requires forall k :: k in s.table ==> s.table[k].mtime < jobs[e].mtime
    ensures Step(jobs, Step(jobs, s, Go(e)), Go(e)) == State(map[], s.phases[e := Exited(0)])
  {
    hide Fill, HasNewer, Same;
    assert WithoutOlder(s.table, jobs[e].mtime) == map[];
    assert s.phases[e := Decided(true)][e := Exited(0)] == s.phases[e := Exited(0)];
  }

  lemma {:induction false} OthersKeepPhase(jobs: seq<Job>, s: State, turns: seq<Act>, i: nat)
    requires i < |s.phases| && forall act <- turns :: act.builder != i
    ensures |Exec(jobs, s, turns).phases| == |s.phases| && Exec(jobs, s, turns).phases[i] == s.phases[i]
  {
    if turns != [] {
      var n := |turns| - 1;
      assert turns[n] in turns;
      OthersKeepPhase(jobs, s, turns[..n], i);
    }
  }

  /** What builder `b` has written when it is done and an empty builder `e` has counted before. */
  lemma WrittenAfterCount(jobs: seq<Job>, e: nat, b: nat)
    requires e < |jobs| && b < |jobs| && e != b && jobs[e].csv == []
    ensures var s := Run(jobs, [Go(e)] + Turns(b, Batches(jobs[b].csv)));
            s == State(Fill(map[], jobs[b].csv, jobs[b].mtime),
                Start(jobs).phases[e := Counted(0)][b := Filling(|jobs[b].csv|)])
  {
    hide Step, Fill;
    OneMore(jobs, [], Go(e));
    assert [] + [Go(e)] == [Go(e)];
    FirstCount(jobs, e);
    var s := Run(jobs, [Go(e)]);
    ExecAppend(jobs, Start(jobs), [Go(e)], Turns(b, Batches(jobs[b].csv)));
    FillsAlone(jobs, s, b);
  }

  /** The table that `b` alone has written, row by row. */
  lemma FilledByOne(csv: CsvRows, m: nat, k: string)
    ensures var t := Fill(map[], csv, m); (k in t <==> Names(csv, k)) && (k in t ==> t[k].mtime == m)
  {
    FillIs(map[], csv, m);
    LastWinsNames(csv, k);
  }

  lemma AllOlder(csv: CsvRows, m: nat, newer: nat)
    requires m < newer
    ensures var t := Fill(map[], csv, m); forall k :: k in t ==> t[k].mtime < newer
  {
    var t := Fill(map[], csv, m);
    forall k | k in t ensures t[k].mtime < newer {
      FilledByOne(csv, m, k);
    }
  }

  /** Builder `e` counts, `b` writes its file, and `e` deletes it again. */
  function Written(jobs: seq<Job>, b: nat, e: nat): seq<Act>
    requires b < |jobs|
  {
    [Go(e)] + Turns(b, Batches(jobs[b].csv))
  }

  lemma ClearedByEmpty(jobs: seq<Job>, b: nat, e: nat)
    requires b < |jobs| && e < |jobs| && jobs[e].csv == [] && jobs[b].mtime < jobs[e].mtime
    ensures var s, after := Run(jobs, Written(jobs, b, e)), Run(jobs, Written(jobs, b, e) + [Go(e), Go(e)]);
            |s.phases| == |jobs| == |after.phases| && s.phases[b] == Filling(|jobs[b].csv|)
            && s.table == Fill(map[], jobs[b].csv, jobs[b].mtime) && after.table == map[]
            && forall i | 0 <= i < |jobs| && i != e && i != b :: after.phases[i] == Filling(0)
  {
    hide Step, Fill, Exec;
    WrittenAfterCount(jobs, e, b);
    AllOlder(jobs[b].csv, jobs[b].mtime, jobs[e].mtime);
    EmptyBuilderClears(jobs, e, Turns(b, Batches(jobs[b].csv)));
  }

  /**
   A builder that has committed shuts an older one with rows out in every run if and only if no
   file newer than its own is empty. Forced or not makes no difference.
   */
  lemma OlderBuilderIsShutOutIff(jobs: seq<Job>, b: nat, i: nat)
    requires b < |jobs| && i < |jobs| && jobs[i].mtime < jobs[b].mtime && jobs[b].csv != [] && jobs[i].csv != []
    ensures (forall first, rest :: ShutsOut(jobs, b, i, first, rest)) <==> NoEmptyAbove(jobs, jobs[b].mtime)
  {
    if NoEmptyAbove(jobs, jobs[b].mtime) {
      forall first: seq<Act>, rest: seq<Act> ensures ShutsOut(jobs, b, i, first, rest) {
        OlderBuilderIsShutOut(jobs, b, i, first, rest);
      }
    } else {
      var job :| job in jobs && job.mtime > jobs[b].mtime && job.csv == [];
      var e :| 0 <= e < |jobs| && jobs[e] == job;
      ClearedByEmpty(jobs, b, e);
      NextTurnCommits(jobs, Run(jobs, Written(jobs, b, e) + [Go(e), Go(e)]), i);
      hide Run, Fill, Step;
      assert !ShutsOut(jobs, b, i, Written(jobs, b, e), [Go(e), Go(e)]);
    }
  }

  lemma NextTurnCommits(jobs: seq<Job>, s: State, i: nat)
    requires i < |jobs| == |s.phases| && s.table == map[] && s.phases[i] == Filling(0) && jobs[i].csv != []
    ensures Step(jobs, s, Go(i)).phases[i].Filling? && Step(jobs, s, Go(i)) != State(s.table, s.phases[i := Exited(1)])
  {
    hide Fill;
    assert s.phases[i := Exited(1)][i] == Exited(1);
  }

  // ---- Rows ---------------------------------------------------------------------------------------

  /** A row for `k` from the file of `b` after `first` is not one from an older file after `rest`. */
  ghost predicate StaysNew(jobs: seq<Job>, b: nat, k: string, first: seq<Act>, rest: seq<Act>)
    requires b < |jobs|
  {
    var before, after := Run(jobs, first).table, Run(jobs, first + rest).table;
    k in before && before[k].mtime == jobs[b].mtime && k in after ==> after[k].mtime >= jobs[b].mtime
  }

  /**
   For an id that both name: a row from the newer file never makes way for one from the older
   file, in any run, if and only if no file newer than both is empty.
   */
  lemma RowStaysNewIff(jobs: seq<Job>, b: nat, i: nat, k: string)
    requires b < |jobs| && i < |jobs| && jobs[i].mtime < jobs[b].mtime && Names(jobs[b].csv, k) && Names(jobs[i].csv, k)
    ensures (forall first, rest :: StaysNew(jobs, b, k, first, rest)) <==> NoEmptyAbove(jobs, jobs[b].mtime)
  {
    hide Run, Names;
    if NoEmptyAbove(jobs, jobs[b].mtime) {
      forall first: seq<Act>, rest: seq<Act> ensures StaysNew(jobs, b, k, first, rest) {
        if k in Run(jobs, first).table && Run(jobs, first).table[k].mtime == jobs[b].mtime {
          NoRowGetsOlder(jobs, first, rest, k);
        }
      }
    } else {
      var job :| job in jobs && job.mtime > jobs[b].mtime && job.csv == [];
      var e :| 0 <= e < |jobs| && jobs[e] == job;
      var first, rest := Written(jobs, b, e), [Go(e), Go(e)] + Turns(i, Batches(jobs[i].csv));
      ClearedByEmpty(jobs, b, e);
      FilledByOne(jobs[b].csv, jobs[b].mtime, k);
      WrittenAgain(jobs, b, e, i);
      FilledByOne(jobs[i].csv, jobs[i].mtime, k);
      assert !StaysNew(jobs, b, k, first, rest);
    }
  }

  lemma WrittenAgain(jobs: seq<Job>, b: nat, e: nat, i: nat)
    requires b < |jobs| && e < |jobs| && i < |jobs| && i != b && i != e
    requires jobs[e].csv == [] && jobs[b].mtime < jobs[e].mtime
    ensures Run(jobs, Written(jobs, b, e) + ([Go(e), Go(e)] + Turns(i, Batches(jobs[i].csv)))).table
         == Fill(map[], jobs[i].csv, jobs[i].mtime)
  {
    hide Step, Fill;
    var first, clear, again := Written(jobs, b, e), [Go(e), Go(e)], Turns(i, Batches(jobs[i].csv));
    ClearedByEmpty(jobs, b, e);
    assert first + (clear + again) == (first + clear) + again;
    ExecAppend(jobs, Start(jobs), first + clear, again);
    FillsAlone(jobs, Run(jobs, first + clear), i);
  }

  // ---- The shortest such run -------------------------------------------------------------------------

  const OLD := Job(1, [("x", ("", ""))], false)
  const MINE := Job(2, [("a", ("", ""))], false)
  const EMPTY_FILE := Job(3, [], false)

  /** An unforced builder with an empty file is enough to let the older one in. */
  lemma EmptyFileLetsAnOlderOneIn()
    ensures exists first, rest :: !ShutsOut([OLD, MINE, EMPTY_FILE], 1, 0, first, rest)
  {
    var jobs := [OLD, MINE, EMPTY_FILE];
    assert jobs[2] in jobs && !NoEmptyAbove(jobs, 2);
    OlderBuilderIsShutOutIff(jobs, 1, 0);
  }
}
