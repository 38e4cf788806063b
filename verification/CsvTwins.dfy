/** Exactly which equally new files let a builder delete more than 30% of the table. */
module CsvTwins {
  import opened CsvBuilder
  import opened CsvSolo
  import opened CsvLimit
  import opened CsvOrder

  // ---- Ids that nobody names ------------------------------------------------------------------------

  lemma {:induction false} Longest(ids: set<string>) returns (n: nat)
    ensures forall k <- ids :: |k| <= n
    decreases ids
  {
    if ids == {} {
      n := 0;
    } else {
      var k :| k in ids;
      var rest := Longest(ids - {k});
      n := if |k| > rest then |k| else rest;
      forall j <- ids ensures |j| <= n {
        assert j == k || j in ids - {k};
      }
    }
  }

  /** `count` rows with ids longer than `n`, no two of them alike. */
  function FreshRows(n: nat, count: nat): (rows: CsvRows)
    ensures |rows| == count
  {
    if count == 0 then [] else FreshRows(n, count - 1) + [(seq(n + count, _ => 'x'), ("", ""))]
  }

  lemma {:induction false} FreshIds(n: nat, count: nat)
    ensures |Ids(FreshRows(n, count))| == count
    ensures forall k <- Ids(FreshRows(n, count)) :: n < |k| <= n + count
  {
    if count > 0 {
      FreshIds(n, count - 1);
      var id := seq(n + count, _ => 'x');
      var rows := FreshRows(n, count);
      assert rows[..count - 1] == FreshRows(n, count - 1) && rows[count - 1].0 == id;
      assert Ids(rows) == Ids(FreshRows(n, count - 1)) + {id};
    }
  }

  // ---- Three files in one table ------------------------------------------------------------------------

  lemma FillSets(t: Table, rows: CsvRows, m: nat, newer: nat)
    requires m <= newer
    ensures var after := Fill(t, rows, m);
            && after.Keys == t.Keys + Ids(rows)
            && (m < newer ==> Older(after, newer) == Older(t, newer) + Ids(rows))
            && (m == newer ==> Older(after, newer) == Older(t, newer) - Ids(rows))
  {
    FillIs(t, rows, m);
  }

  lemma Sizes(a: set<string>, n: set<string>, w: set<string>)
    requires a !! n && a !! w
    ensures |a + n| == |a| + |n| && |n + w| == |n| + |w - n| && |a + n + w| == |a| + |n| + |w - n|
    ensures (a - n) - w == a
  {
    assert n + w == n + (w - n) && a + n + w == a + (n + (w - n));
  }

  /** Rows of an older file, of a file `mine` and of its twin: how many stand where. */
  lemma ThreeFiles(theirs: CsvRows, mine: CsvRows, twin: CsvRows, older: nat, m: nat)
    requires older < m && Ids(theirs) !! Ids(mine) && Ids(theirs) !! Ids(twin)
    ensures var t2 := Fill(Fill(map[], theirs, older), mine, m);
            var t3 := Fill(t2, twin, m);
            && |t2| == |Ids(theirs)| + |Ids(mine)|
            && |Older(t3, m)| == |Ids(theirs)| && |Same(t3, m)| == |Ids(mine)| + |Ids(twin) - Ids(mine)|
            && |t3| == |Ids(theirs)| + |Ids(mine)| + |Ids(twin) - Ids(mine)|
  {
    hide Ids, Fill, Older, Same;
    var t1 := Fill(map[], theirs, older);
    var t2 := Fill(t1, mine, m);
    var t3 := Fill(t2, twin, m);
    var a, n, w := Ids(theirs), Ids(mine), Ids(twin);
    NothingYet(m);
    FillSets(map[], theirs, older, m);
    FillSets(t1, mine, m, m);
    FillSets(t2, twin, m, m);
    assert Older(t1, m) == a && t1.Keys == a;
    assert t3.Keys == a + n + w;
    FillSame(map[], theirs, older, m);
    FillSame(t1, mine, m, m);
    FillSame(t2, twin, m, m);
    assert Same(t1, m) == {} && Same(t3, m) == n + w;
    Sizes(a, n, w);
  }

  lemma NothingYet(m: nat)
    ensures Older(map[], m) == {} && Same(map[], m) == {}
  {
  }

  // ---- The run that breaks the limit ----------------------------------------------------------------------

  /** The older builder `o` and then `b` write their files, `b` counts, its twin `i` writes, and `b` counts again. */
  function Crowded(jobs: seq<Job>, b: nat, i: nat, o: nat): seq<Act>
    requires b < |jobs| && i < |jobs| && o < |jobs|
  {
    (((Turns(o, Batches(jobs[o].csv)) + Turns(b, Batches(jobs[b].csv))) + [Go(b)]) + Turns(i, Batches(jobs[i].csv)))
        + [Go(b)]
  }

  lemma CrowdedRun(jobs: seq<Job>, b: nat, i: nat, o: nat)
    requires b < |jobs| && i < |jobs| && o < |jobs| && b != i && b != o && i != o
    requires jobs[o].mtime < jobs[b].mtime == jobs[i].mtime && !jobs[b].force
    ensures var m := jobs[b].mtime;
            var t2 := Fill(Fill(map[], jobs[o].csv, jobs[o].mtime), jobs[b].csv, m);
            var t3 := Fill(t2, jobs[i].csv, m);
            var s := Run(jobs, Crowded(jobs, b, i, o));
            |s.phases| == |jobs| && s.table == t3 && s.phases[b] == Decided(MayDelete(|Same(t3, m)|, |t2|, false))
  {
    hide Step, Fill, HasNewer, Exec, Same, MayDelete;
    var m := jobs[b].mtime;
    var first := Turns(o, Batches(jobs[o].csv));
    var second := first + Turns(b, Batches(jobs[b].csv));
    var third := second + [Go(b)];
    var fourth := third + Turns(i, Batches(jobs[i].csv));
    NothingNewerYet(m);
    NothingNewerYet(jobs[o].mtime);
    NotNewer(map[], jobs[o].csv, jobs[o].mtime, m);
    FillsAlone(jobs, Start(jobs), o);
    var t1 := Fill(map[], jobs[o].csv, jobs[o].mtime);
    ExecAppend(jobs, Start(jobs), first, Turns(b, Batches(jobs[b].csv)));
    FillsAlone(jobs, Run(jobs, first), b);
    var t2 := Fill(t1, jobs[b].csv, m);
    NotNewer(t1, jobs[b].csv, m, m);
    OneMore(jobs, second, Go(b));
    FirstAndSecondCount(jobs, Run(jobs, second), b);
    ExecAppend(jobs, Start(jobs), third, Turns(i, Batches(jobs[i].csv)));
    FillsAlone(jobs, Run(jobs, third), i);
    OneMore(jobs, fourth, Go(b));
    FirstAndSecondCount(jobs, Run(jobs, fourth), b);
  }

  lemma NotNewer(t: Table, rows: CsvRows, m: nat, newer: nat)
    requires m <= newer && !HasNewer(t, newer)
    ensures !HasNewer(Fill(t, rows, m), newer)
  {
    FillSame(t, rows, m, newer);
  }

  lemma NothingNewerYet(m: nat)
    ensures !HasNewer(map[], m)
  {
  }

  lemma FirstAndSecondCount(jobs: seq<Job>, s: State, b: nat)
    requires b < |jobs| == |s.phases|
    ensures s.phases[b] == Filling(|jobs[b].csv|) ==>
        Step(jobs, s, Go(b)) == s.(phases := s.phases[b := Counted(|s.table|)])
    ensures s.phases[b].Counted? ==>
              var may := MayDelete(|Same(s.table, jobs[b].mtime)|, s.phases[b].total, jobs[b].force);
              Step(jobs, s, Go(b)) == s.(phases := s.phases[b := Decided(may)])
  {
    hide Fill, HasNewer, Same, MayDelete, WithoutOlder;
  }

  lemma CrowdedBreaksTheLimit(jobs: seq<Job>, b: nat, i: nat, o: nat)
    requires b < |jobs| && i < |jobs| && o < |jobs| && b != i && b != o && i != o
    requires jobs[o].mtime < jobs[b].mtime == jobs[i].mtime && !jobs[b].force
    requires Ids(jobs[o].csv) !! Ids(jobs[b].csv) && Ids(jobs[o].csv) !! Ids(jobs[i].csv)
    requires var n, t := |Ids(jobs[b].csv)|, |Ids(jobs[i].csv) - Ids(jobs[b].csv)|;
             3 * n + 3 * t < 7 * |Ids(jobs[o].csv)| <= 3 * n + 10 * t
    ensures !WithinLimit(jobs, b, Crowded(jobs, b, i, o))
  {
    hide Ids, Fill, Older, Same, Run;
    CrowdedRun(jobs, b, i, o);
    ThreeFiles(jobs[o].csv, jobs[b].csv, jobs[i].csv, jobs[o].mtime, jobs[b].mtime);
    DeletedRows(jobs, b, Run(jobs, Crowded(jobs, b, i, o)));
  }

  /** An older file that makes the run possible, whatever the other two name. */
  lemma CrowdingFile(mine: CsvRows, twin: CsvRows) returns (rows: CsvRows)
    requires !(Ids(twin) <= Ids(mine))
    ensures rows != [] && Ids(rows) !! Ids(mine) && Ids(rows) !! Ids(twin)
    ensures var n, t := |Ids(mine)|, |Ids(twin) - Ids(mine)|; 3 * n + 3 * t < 7 * |Ids(rows)| <= 3 * n + 10 * t
  {
    var n, t := |Ids(mine)|, |Ids(twin) - Ids(mine)|;
    var k :| k in Ids(twin) && k !in Ids(mine);
    assert k in Ids(twin) - Ids(mine);
    var longest := Longest(Ids(mine) + Ids(twin));
    rows := FreshRows(longest, (3 * n + 10 * t) / 7);
    FreshIds(longest, (3 * n + 10 * t) / 7);
    hide Ids, FreshRows;
  }

  // ---- Empty files ---------------------------------------------------------------------------------------

  /** Builder `b` is about to delete, and takes all there is. */
  ghost predicate DeletesEverything(jobs: seq<Job>, b: nat, schedule: seq<Act>)
    requires b < |jobs|
  {
    var s := Run(jobs, schedule);
    |s.phases| == |jobs| && s.phases[b] == Decided(true) && s.table != map[] && AtLeast(s.table, jobs[b].mtime) == {}
  }

  lemma EverythingIsTooMuch(jobs: seq<Job>, b: nat, schedule: seq<Act>)
    requires b < |jobs| && DeletesEverything(jobs, b, schedule)
    ensures !WithinLimit(jobs, b, schedule) && !LeavesSevenForTen(jobs, b, schedule)
  {
    hide Run;
    var s := Run(jobs, schedule);
    DeletedRows(jobs, b, s);
    Partition(s.table, jobs[b].mtime);
    var k :| k in s.table;
    assert k in s.table.Keys;
  }

  lemma OneOldFile(csv: CsvRows, m: nat, newer: nat)
    requires csv != [] && m < newer
    ensures var t := Fill(map[], csv, m); t != map[] && AtLeast(t, newer) == {}
  {
    AllOlder(csv, m, newer);
    assert csv[|csv| - 1].0 in Fill(map[], csv, m);
  }

  /** A builder with an empty file counts nothing and deletes whatever has come in between. */
  lemma EmptyBreaksTheLimit(jobs: seq<Job>, b: nat, o: nat)
    requires b < |jobs| && o < |jobs| && b != o && jobs[b].csv == [] && jobs[o].csv != []
    requires jobs[o].mtime < jobs[b].mtime
    ensures DeletesEverything(jobs, b, ([Go(b)] + Turns(o, Batches(jobs[o].csv))) + [Go(b)])
  {
    hide Step, Fill, Exec, Same, AtLeast;
    var before := [Go(b)] + Turns(o, Batches(jobs[o].csv));
    WrittenAfterCount(jobs, b, o);
    OneMore(jobs, before, Go(b));
    FirstAndSecondCount(jobs, Run(jobs, before), b);
    OneOldFile(jobs[o].csv, jobs[o].mtime, jobs[b].mtime);
  }

  /**
   The empty builder `e` counts first, `b` writes and counts its rows twice, `e` deletes them, and
   the older builder `o`, which nothing keeps out any more, writes its file.
   */
  function Emptied(jobs: seq<Job>, b: nat, e: nat, o: nat): seq<Act>
    requires b < |jobs| && o < |jobs|
  {
    ((([Go(e)] + Turns(b, Batches(jobs[b].csv))) + [Go(b), Go(b)]) + [Go(e), Go(e)]) + Turns(o, Batches(jobs[o].csv))
  }

  lemma EmptyNewerBreaksTheLimit(jobs: seq<Job>, b: nat, e: nat, o: nat)
    requires b < |jobs| && e < |jobs| && o < |jobs| && b != e && b != o && e != o
    requires jobs[e].csv == [] && jobs[o].csv != [] && jobs[o].mtime < jobs[b].mtime < jobs[e].mtime
    ensures DeletesEverything(jobs, b, Emptied(jobs, b, e, o))
  {
    hide Step, Fill, Exec, Same, AtLeast, HasNewer;
    var first := [Go(e)] + Turns(b, Batches(jobs[b].csv));
    var second := first + [Go(b), Go(b)];
    var third := second + [Go(e), Go(e)];
    WrittenAfterCount(jobs, e, b);
    ExecAppend(jobs, Start(jobs), first, [Go(b), Go(b)]);
    TwoTurns(jobs, Run(jobs, first), b);
    CountsItsOwn(jobs, Run(jobs, first), b);
    ExecAppend(jobs, Start(jobs), second, [Go(e), Go(e)]);
    TwoTurns(jobs, Run(jobs, second), e);
    AllOlder(jobs[b].csv, jobs[b].mtime, jobs[e].mtime);
    CountAndDelete(jobs, Run(jobs, second), e);
    ExecAppend(jobs, Start(jobs), third, Turns(o, Batches(jobs[o].csv)));
    NothingNewerYet(jobs[o].mtime);
    FillsAlone(jobs, Run(jobs, third), o);
    OneOldFile(jobs[o].csv, jobs[o].mtime, jobs[b].mtime);
  }

  /** A builder that finds nothing but its own rows decides to delete. */
  lemma CountsItsOwn(jobs: seq<Job>, s: State, b: nat)
    requires b < |jobs| == |s.phases| && s.phases[b] == Filling(|jobs[b].csv|)
    requires s.table == Fill(map[], jobs[b].csv, jobs[b].mtime)
    ensures Step(jobs, Step(jobs, s, Go(b)), Go(b)) == s.(phases := s.phases[b := Decided(true)])
  {
    hide Step, Fill, HasNewer;
    FirstAndSecondCount(jobs, s, b);
    FirstAndSecondCount(jobs, Step(jobs, s, Go(b)), b);
    forall k | k in s.table ensures s.table[k].mtime == jobs[b].mtime {
      FilledByOne(jobs[b].csv, jobs[b].mtime, k);
    }
    assert Same(s.table, jobs[b].mtime) == s.table.Keys;
    assert s.phases[b := Counted(|s.table|)][b := Decided(true)] == s.phases[b := Decided(true)];
  }

  // ---- Exactly ------------------------------------------------------------------------------------------------

  /** An unforced builder, the first of `group`, and others that are at least as new. */
  ghost predicate AtLeastAsNew(group: seq<Job>) {
    group != [] && !group[0].force && forall job <- group :: job.mtime >= group[0].mtime
  }

  ghost predicate AllOlderThan(mine: Job, others: seq<Job>) {
    forall job <- others :: job.mtime < mine.mtime
  }

  /** Its file has rows, and no newer one is empty. */
  ghost predicate NobodyClears(group: seq<Job>)
    requires group != []
  {
    group[0].csv != [] && NoEmptyAbove(group, group[0].mtime)
  }

  lemma BesideOlder(group: seq<Job>, others: seq<Job>)
    requires AtLeastAsNew(group) && AllOlderThan(group[0], others)
    ensures NoEmptyAbove(group, group[0].mtime) ==> NoEmptyAbove(group + others, group[0].mtime)
    ensures TwinsWithin(group, 0) ==> TwinsWithin(group + others, 0)
  {
    hide Ids;
    assert forall job <- group + others :: job in group || job in others;
  }

  /** At time 0 nothing is older, so nothing is deleted. */
  lemma NothingToDelete(jobs: seq<Job>, b: nat, schedule: seq<Act>)
    requires b < |jobs| && jobs[b].mtime == 0
    ensures WithinLimit(jobs, b, schedule) && LeavesSevenForTen(jobs, b, schedule)
  {
    hide Run;
    var s := Run(jobs, schedule);
    if |s.phases| == |jobs| && s.phases[b].Decided? {
      DeletedRows(jobs, b, s);
      assert Older(s.table, 0) == {};
    }
  }

  /** If its own file or a newer one is empty, some run beside an older builder deletes everything. */
  lemma SomebodyClears(group: seq<Job>) returns (others: seq<Job>, schedule: seq<Act>)
    requires AtLeastAsNew(group) && group[0].mtime > 0 && !NobodyClears(group)
    ensures AllOlderThan(group[0], others) && DeletesEverything(group + others, 0, schedule)
  {
    hide Run, DeletesEverything;
    others := [Job(group[0].mtime - 1, [("x", ("", ""))], false)];
    var jobs, o := group + others, |group|;
    if group[0].csv == [] {
      schedule := ([Go(0)] + Turns(o, Batches(jobs[o].csv))) + [Go(0)];
      EmptyBreaksTheLimit(jobs, 0, o);
    } else {
      var job :| job in group && job.mtime > group[0].mtime && job.csv == [];
      var e :| 0 <= e < |group| && group[e] == job;
      schedule := Emptied(jobs, 0, e, o);
      EmptyNewerBreaksTheLimit(jobs, 0, e, o);
    }
  }

  lemma TwinCrowds(group: seq<Job>) returns (others: seq<Job>, schedule: seq<Act>)
    requires AtLeastAsNew(group) && group[0].mtime > 0 && !TwinsWithin(group, 0)
    ensures AllOlderThan(group[0], others) && !WithinLimit(group + others, 0, schedule)
  {
    hide Run, Ids, WithinLimit;
    var twin :| twin in group && twin.mtime == group[0].mtime && !(Ids(twin.csv) <= Ids(group[0].csv));
    var i :| 0 <= i < |group| && group[i] == twin;
    var rows := CrowdingFile(group[0].csv, twin.csv);
    others := [Job(group[0].mtime - 1, rows, false)];
    schedule := Crowded(group + others, 0, i, |group|);
    CrowdedBreaksTheLimit(group + others, 0, i, |group|);
  }

  /**
   For an unforced builder (the first of `group`) and all that are at least as new: beside any
   older builders at most 30% of the rows go in every run, if and only if its file has rows, no
   newer file is empty, and no equally new one names an id that it does not name. (Nothing is
   older than time 0.)
   */
  lemma LimitHoldsIff(group: seq<Job>)
    requires AtLeastAsNew(group)
    ensures (forall others, schedule | AllOlderThan(group[0], others) :: WithinLimit(group + others, 0, schedule))
            <==> group[0].mtime == 0 || (NobodyClears(group) && TwinsWithin(group, 0))
  {
    hide WithinLimit, TwinsWithin, NoEmptyAbove;
    if group[0].mtime == 0 || (NobodyClears(group) && TwinsWithin(group, 0)) {
      forall others: seq<Job>, schedule: seq<Act> | AllOlderThan(group[0], others)
        ensures WithinLimit(group + others, 0, schedule)
      {
        if group[0].mtime == 0 {
          NothingToDelete(group + others, 0, schedule);
        } else {
          BesideOlder(group, others);
          DeletesAtMostThirtyPercent(group + others, 0, schedule);
        }
      }
    } else if !NobodyClears(group) {
      var others, schedule := SomebodyClears(group);
      EverythingIsTooMuch(group + others, 0, schedule);
    } else {
      var others, schedule := TwinCrowds(group);
    }
  }

  /**
   The weaker bound, 7 rows left for every 10 deleted, holds in every run if and only if its file
   has rows and no newer file is empty, whatever equally new files name.
   */
  lemma SevenForTenHoldsIff(group: seq<Job>)
    requires AtLeastAsNew(group)
    ensures (forall others, schedule | AllOlderThan(group[0], others) :: LeavesSevenForTen(group + others, 0, schedule))
            <==> group[0].mtime == 0 || NobodyClears(group)
  {
    hide LeavesSevenForTen, NoEmptyAbove;
    if group[0].mtime == 0 || NobodyClears(group) {
      forall others: seq<Job>, schedule: seq<Act> | AllOlderThan(group[0], others)
        ensures LeavesSevenForTen(group + others, 0, schedule)
      {
        if group[0].mtime == 0 {
          NothingToDelete(group + others, 0, schedule);
        } else {
          BesideOlder(group, others);
          DeletesLeaveSevenForTen(group + others, 0, schedule);
        }
      }
    } else {
      var others, schedule := SomebodyClears(group);
      EverythingIsTooMuch(group + others, 0, schedule);
    }
  }

  const TWIN := Job(2, [("b", ("", ""))], false)

  /** The smallest case: an equally new file with one id of its own. */
  lemma TwinsBreakTheLimit()
    ensures exists others, schedule :: AllOlderThan(MINE, others) && !WithinLimit([MINE, TWIN] + others, 0, schedule)
  {
    var group := [MINE, TWIN];
    LastWinsNames(MINE.csv, "b");
    LastWinsNames(TWIN.csv, "b");
    assert TWIN.csv[0].0 == "b" && TWIN in group;
    assert "b" in Ids(TWIN.csv) && "b" !in Ids(MINE.csv);
    var others, schedule := TwinCrowds(group);
  }
}
