/** How much an unforced builder may delete, and when that stays within 30% of the table. */
module CsvLimit {
  import opened Collections
  import opened CsvBuilder
  import opened CsvSolo

  // ---- Counting rows ------------------------------------------------------------------------------

  lemma Partition(t: Table, m: nat)
    ensures |t| == |Older(t, m)| + |AtLeast(t, m)|
    ensures |Same(t, m)| <= |AtLeast(t, m)|
  {
    assert Older(t, m) + AtLeast(t, m) == t.Keys;
    SubsetIsNotLarger(Same(t, m), AtLeast(t, m));
  }

  /** The ids of a file. */
  function Ids(csv: CsvRows): set<string> { LastWins(csv).Keys }

  /** A batch of file `m` seen from a builder with file `mine`. */
  lemma BatchMoves(t: Table, rows: CsvRows, m: nat, mine: nat)
    requires m >= mine
    ensures var after := Fill(t, rows, m);
            |Older(after, mine)| <= |Older(t, mine)| && |AtLeast(after, mine)| >= |AtLeast(t, mine)|
            && (m != mine ==> |Same(after, mine)| <= |Same(t, mine)|)
  {
    FillIs(t, rows, m);
    hide Fill, LastWins;
    var after := Fill(t, rows, m);
    SubsetIsNotLarger(Older(after, mine), Older(t, mine));
    if m != mine {
      SubsetIsNotLarger(Same(after, mine), Same(t, mine));
    }
    SubsetIsNotLarger(AtLeast(t, mine), AtLeast(after, mine));
  }

  lemma DeleteMoves(t: Table, m: nat, mine: nat)
    ensures var after := WithoutOlder(t, m);
            |Older(after, mine)| <= |Older(t, mine)| && |Same(after, mine)| <= |Same(t, mine)|
            && (|AtLeast(after, mine)| >= |AtLeast(t, mine)| || |Older(after, mine)| == 0)
  {
    var after := WithoutOlder(t, m);
    SubsetIsNotLarger(Older(after, mine), Older(t, mine));
    SubsetIsNotLarger(Same(after, mine), Same(t, mine));
    if m <= mine {
      assert AtLeast(after, mine) == AtLeast(t, mine);
    } else {
      assert Older(after, mine) == {};
    }
  }

  // ---- What a builder's counts still say later --------------------------------------------------------

  /** No file as new as that of `b` names an id that the file of `b` does not name. */
  ghost predicate TwinsWithin(jobs: seq<Job>, b: nat)
    requires b < |jobs|
  {
    forall job <- jobs :: job.mtime == jobs[b].mtime ==> Ids(job.csv) <= Ids(jobs[b].csv)
  }

  /** The rows a builder has committed so far. */
  function Done(job: Job, phase: Phase): CsvRows {
    if phase.Exited? then []
    else if phase.Filling? && phase.pos <= |job.csv| then job.csv[..phase.pos]
    else job.csv
  }

  /**
   Rows from files as new as its own have ids of its own, and all ids it has committed stand unless
   a newer file came.
   */
  ghost predicate Standing(t: Table, job: Job, phase: Phase) {
    Same(t, job.mtime) <= Ids(job.csv) && (HasNewer(t, job.mtime) || Ids(Done(job, phase)) <= Same(t, job.mtime))
  }

  /** What the counts say about the table when other builders have moved on. */
  ghost predicate Bounded(t: Table, job: Job, phase: Phase) {
    match phase
    case Counted(total) => total >= |Older(t, job.mtime)| + |Same(t, job.mtime)|
    case Decided(true) => !job.force ==> 7 * |Older(t, job.mtime)| <= 3 * |AtLeast(t, job.mtime)|
    case _ => true
  }

  lemma FillSame(t: Table, rows: CsvRows, m: nat, mine: nat)
    ensures m == mine ==> Same(Fill(t, rows, m), mine) == Same(t, mine) + Ids(rows)
    ensures m != mine ==> Same(Fill(t, rows, m), mine) == Same(t, mine) - Ids(rows)
    ensures m > mine && rows != [] ==> HasNewer(Fill(t, rows, m), mine)
    ensures !HasNewer(t, mine) && m <= mine ==> !HasNewer(Fill(t, rows, m), mine)
  {
    FillIs(t, rows, m);
    if rows != [] {
      assert Fill(t, rows, m)[rows[|rows| - 1].0].mtime == m;
    }
  }

  /** The ids of a part of a file, and of two parts. */
  lemma IdsOfParts(csv: CsvRows, pos: nat, end: nat)
    requires pos <= end <= |csv|
    ensures Ids(csv[..end]) == Ids(csv[..pos]) + Ids(csv[pos..end]) && Ids(csv[..end]) <= Ids(csv)
  {
    assert csv[..end] == csv[..pos] + csv[pos..end] && csv == csv[..end] + csv[end..];
    forall k: string
      ensures k in Ids(csv[..end]) <==> k in Ids(csv[..pos]) + Ids(csv[pos..end])
      ensures k in Ids(csv[..end]) ==> k in Ids(csv)
    {
      LastWinsConcat(csv[..pos], csv[pos..end], k);
      LastWinsConcat(csv[..end], csv[end..], k);
    }
  }

  lemma DeleteStands(t: Table, job: Job, phase: Phase, m: nat)
    requires Standing(t, job, phase) && (m > job.mtime ==> Settled(t, m))
    ensures Standing(WithoutOlder(t, m), job, phase)
  {
    var after := WithoutOlder(t, m);
    if m > job.mtime {
      var w :| w in t && t[w].mtime >= m;
      assert w in after;
    } else {
      assert Same(after, job.mtime) == Same(t, job.mtime);
      if HasNewer(t, job.mtime) {
        var w :| w in t && t[w].mtime > job.mtime;
        assert w in after;
      }
    }
  }

  lemma OwnBatchStands(job: Job, t: Table, pos: nat)
    requires pos < |job.csv| && Standing(t, job, Filling(pos)) && !HasNewer(t, job.mtime)
    ensures Standing(Fill(t, Batch(pos, job.csv), job.mtime), job, Filling(BatchEnd(pos, job.csv)))
  {
    BatchEndBounds(pos, job.csv);
    FillSame(t, Batch(pos, job.csv), job.mtime, job.mtime);
    IdsOfParts(job.csv, pos, BatchEnd(pos, job.csv));
    hide Fill, Ids, BatchEnd, HasNewer, Same;
  }

  lemma ReadAll(job: Job)
    ensures Done(job, Filling(|job.csv|)) == job.csv
  {
  }

  lemma OwnStepStands(job: Job, t: Table, phase: Phase)
    requires Standing(t, job, phase) && (phase.Filling? ==> phase.pos <= |job.csv|)
    ensures Standing(Next(job, t, phase).0, job, Next(job, t, phase).1)
  {
    hide Fill, Ids, BatchEnd, Same, HasNewer, WithoutOlder;
    NoIds();
    ReadAll(job);
    if phase.Filling? && phase.pos < |job.csv| && !HasNewer(t, job.mtime) {
      OwnBatchStands(job, t, phase.pos);
    } else if phase.Decided? {
      DeleteStands(t, job, phase, job.mtime);
    }
  }

  lemma NoIds()
    ensures Ids([]) == {}
  {
  }

  lemma OwnStepIsBounded(job: Job, t: Table, phase: Phase)
    requires Bounded(t, job, phase)
    ensures Bounded(Next(job, t, phase).0, job, Next(job, t, phase).1)
  {
    hide Older, Same, AtLeast, Fill, WithoutOlder, HasNewer;
    Partition(t, job.mtime);
  }

  /** What is known of another builder: a twin names no new ids, and a newer one that deletes has rows of its own. */
  ghost predicate Behaves(job: Job, t: Table, other: Job, theirs: Phase) {
    && (other.mtime == job.mtime ==> Ids(other.csv) <= Ids(job.csv))
    && (other.mtime > job.mtime && theirs.Decided? ==> Settled(t, other.mtime))
    && (theirs.Filling? ==> theirs.pos <= |other.csv|)
  }

  lemma OtherBatchStands(job: Job, t: Table, other: Job, theirs: Phase, phase: Phase)
    requires Standing(t, job, phase) && Behaves(job, t, other, theirs)
    requires theirs.Filling? && theirs.pos < |other.csv| && !HasNewer(t, other.mtime)
    requires Committed(phase) ==> Settled(t, job.mtime)
    ensures Standing(Next(other, t, theirs).0, job, phase)
    ensures Committed(phase) ==> other.mtime >= job.mtime
  {
    var rows := Batch(theirs.pos, other.csv);
    BatchEndBounds(theirs.pos, other.csv);
    FillSame(t, rows, other.mtime, job.mtime);
    IdsOfParts(other.csv, theirs.pos, BatchEnd(theirs.pos, other.csv));
    if !Committed(phase) {
      assert Done(job, phase) == [];
      NoIds();
    }
    hide Fill, LastWins;
  }

  lemma OtherStepStands(job: Job, t: Table, other: Job, theirs: Phase, phase: Phase)
    requires Standing(t, job, phase) && Behaves(job, t, other, theirs)
    requires Committed(phase) ==> Settled(t, job.mtime)
    ensures Standing(Next(other, t, theirs).0, job, phase)
  {
    hide Fill, LastWins, Standing, Settled, HasNewer;
    if theirs.Filling? && theirs.pos < |other.csv| && !HasNewer(t, other.mtime) {
      OtherBatchStands(job, t, other, theirs, phase);
    } else if theirs.Decided? {
      DeleteStands(t, job, phase, other.mtime);
    }
  }

  /** Other builders only take older rows away, and turn rows into newer ones. */
  lemma OtherStepIsBounded(job: Job, t: Table, other: Job, theirs: Phase, phase: Phase)
    requires Bounded(t, job, phase) && Standing(t, job, phase) && Behaves(job, t, other, theirs)
    requires Committed(phase) ==> Settled(t, job.mtime)
    ensures Bounded(Next(other, t, theirs).0, job, phase)
  {
    if phase.Counted? || phase.Decided? {
      if theirs.Filling? && theirs.pos < |other.csv| && !HasNewer(t, other.mtime) {
        OtherBatchStands(job, t, other, theirs, phase);
        BatchMoves(t, Batch(theirs.pos, other.csv), other.mtime, job.mtime);
        if other.mtime == job.mtime {
          SubsetIsNotLarger(Same(Next(other, t, theirs).0, job.mtime), Same(t, job.mtime));
        }
      } else if theirs.Decided? && theirs.deletes {
        DeleteMoves(t, other.mtime, job.mtime);
      }
    }
  }

  lemma OthersBehave(jobs: seq<Job>, b: nat, s: State, i: nat)
    requires b < |jobs| && i < |jobs| && TwinsWithin(jobs, b)
    requires NoEmptyAbove(jobs, jobs[b].mtime) && Inv(jobs, s, jobs[b].mtime)
    ensures Behaves(jobs[b], s.table, jobs[i], s.phases[i])
  {
    hide LastWins, Settled;
    assert jobs[i] in jobs;
  }

  lemma {:induction false} RunIsBounded(jobs: seq<Job>, b: nat, schedule: seq<Act>)
    requires b < |jobs| && jobs[b].csv != [] && NoEmptyAbove(jobs, jobs[b].mtime) && TwinsWithin(jobs, b)
    ensures var s := Run(jobs, schedule);
            |s.phases| == |jobs| && Standing(s.table, jobs[b], s.phases[b]) && Bounded(s.table, jobs[b], s.phases[b])
  {
    if schedule == [] {
      NoIds();
      assert jobs[b].csv[..0] == [];
    } else {
      var n := |schedule| - 1;
      RunIsBounded(jobs, b, schedule[..n]);
      RunIsInv(jobs, schedule[..n], jobs[b].mtime);
      NextIsBounded(jobs, b, Run(jobs, schedule[..n]), schedule[n]);
    }
  }

  lemma NextIsBounded(jobs: seq<Job>, b: nat, s: State, act: Act)
    requires b < |jobs| && jobs[b].csv != [] && NoEmptyAbove(jobs, jobs[b].mtime) && TwinsWithin(jobs, b)
    requires Inv(jobs, s, jobs[b].mtime)
    requires Standing(s.table, jobs[b], s.phases[b]) && Bounded(s.table, jobs[b], s.phases[b])
    ensures var after := Step(jobs, s, act);
            |after.phases| == |jobs| && Standing(after.table, jobs[b], after.phases[b])
                && Bounded(after.table, jobs[b], after.phases[b])
  {
    var i := act.builder;
    if i < |jobs| {
      OthersBehave(jobs, b, s, i);
      FailureIsBounded(s.table, jobs[b], s.phases[b]);
    }
    hide Standing, Bounded, Next, Behaves, NoEmptyAbove, TwinsWithin, Settled;
    if act == Go(b) {
      OwnStepStands(jobs[b], s.table, s.phases[b]);
      OwnStepIsBounded(jobs[b], s.table, s.phases[b]);
    } else if act.Go? && i < |jobs| {
      OtherStepStands(jobs[b], s.table, jobs[i], s.phases[i], s.phases[b]);
      OtherStepIsBounded(jobs[b], s.table, jobs[i], s.phases[i], s.phases[b]);
    }
  }

  lemma FailureIsBounded(t: Table, job: Job, phase: Phase)
    requires Standing(t, job, phase)
    ensures Standing(t, job, Exited(1)) && Bounded(t, job, Exited(1))
  {
    NoIds();
  }

  // ---- The limit ----------------------------------------------------------------------------------------

  /** When builder `b` is about to delete, at most 30% of the rows go. */
  ghost predicate WithinLimit(jobs: seq<Job>, b: nat, schedule: seq<Act>)
    requires b < |jobs|
  {
    var s := Run(jobs, schedule);
    |s.phases| == |jobs| && s.phases[b].Decided? ==>
      var after := Step(jobs, s, Go(b)).table;
      |after| <= |s.table| && 10 * (|s.table| - |after|) <= 3 * |s.table|
  }

  lemma DeletedRows(jobs: seq<Job>, b: nat, s: State)
    requires b < |jobs| == |s.phases| && s.phases[b].Decided?
    ensures var after, m := Step(jobs, s, Go(b)).table, jobs[b].mtime;
            && |after| <= |s.table| && (s.phases[b] == Decided(false) ==> |after| == |s.table|)
            && (s.phases[b] == Decided(true) ==>
                 |s.table| - |after| == |Older(s.table, m)| && |after| == |AtLeast(s.table, m)|)
  {
    Partition(s.table, jobs[b].mtime);
    assert WithoutOlder(s.table, jobs[b].mtime).Keys == AtLeast(s.table, jobs[b].mtime);
  }

  /**
   Without force at most 30% of the rows go, in every run, whatever others do between the counts
   and the delete, if no equally new file names an id that this one does not.
   */
  lemma DeletesAtMostThirtyPercent(jobs: seq<Job>, b: nat, schedule: seq<Act>)
    requires b < |jobs| && !jobs[b].force && jobs[b].csv != []
    requires NoEmptyAbove(jobs, jobs[b].mtime) && TwinsWithin(jobs, b)
    ensures WithinLimit(jobs, b, schedule)
  {
    RunIsBounded(jobs, b, schedule);
    var s := Run(jobs, schedule);
    if s.phases[b].Decided? {
      DeletedRows(jobs, b, s);
    }
  }

  // ---- With any twins -------------------------------------------------------------------------------------

  /** What is left of the bound when an equally new file may have added rows between the two counts. */
  ghost predicate BoundedAnyway(t: Table, job: Job, phase: Phase) {
    match phase
    case Counted(total) => total >= |Older(t, job.mtime)|
    case Decided(true) => !job.force ==> 7 * |Older(t, job.mtime)| <= 10 * |AtLeast(t, job.mtime)|
    case _ => true
  }

  lemma NextIsBoundedAnyway(job: Job, own: bool, other: Job, t: Table, theirs: Phase, phase: Phase)
    requires BoundedAnyway(t, job, phase) && (own ==> other == job && theirs == phase)
    requires Committed(phase) ==> Settled(t, job.mtime)
    ensures BoundedAnyway(Next(other, t, theirs).0, job, if own then Next(job, t, phase).1 else phase)
  {
    Partition(t, job.mtime);
    if !own && (phase.Counted? || phase.Decided?) {
      if theirs.Filling? && theirs.pos < |other.csv| && !HasNewer(t, other.mtime) {
        assert other.mtime >= job.mtime;
        BatchMoves(t, Batch(theirs.pos, other.csv), other.mtime, job.mtime);
      } else if theirs.Decided? && theirs.deletes {
        DeleteMoves(t, other.mtime, job.mtime);
      }
    }
    hide Older, Same, AtLeast, Fill, WithoutOlder, HasNewer, Settled;
  }

  lemma {:induction false} RunIsBoundedAnyway(jobs: seq<Job>, b: nat, schedule: seq<Act>)
    requires b < |jobs| && jobs[b].csv != [] && NoEmptyAbove(jobs, jobs[b].mtime)
    ensures var s := Run(jobs, schedule); |s.phases| == |jobs| && BoundedAnyway(s.table, jobs[b], s.phases[b])
  {
    if schedule != [] {
      var n := |schedule| - 1;
      var act := schedule[n];
      RunIsBoundedAnyway(jobs, b, schedule[..n]);
      var s := Run(jobs, schedule[..n]);
      RunIsInv(jobs, schedule[..n], jobs[b].mtime);
      assert BoundedAnyway(s.table, jobs[b], Exited(1));
      hide BoundedAnyway, Next, Committed, Settled;
      if act.Go? && act.builder < |jobs| {
        NextIsBoundedAnyway(jobs[b], act.builder == b, jobs[act.builder], s.table, s.phases[act.builder], s.phases[b]);
      }
    }
  }

  /** When builder `b` is about to delete, at least 7 rows stay for every 10 that go. */
  ghost predicate LeavesSevenForTen(jobs: seq<Job>, b: nat, schedule: seq<Act>)
    requires b < |jobs|
  {
    var s := Run(jobs, schedule);
    |s.phases| == |jobs| && s.phases[b].Decided? ==>
      var after := Step(jobs, s, Go(b)).table;
      7 * (|s.table| - |after|) <= 10 * |after|
  }

  /**
   If no newer file is empty then, whatever equally new files name, an unforced builder leaves at
   least 7 rows for every 10 it deletes.
   */
  lemma DeletesLeaveSevenForTen(jobs: seq<Job>, b: nat, schedule: seq<Act>)
    requires b < |jobs| && !jobs[b].force && jobs[b].csv != [] && NoEmptyAbove(jobs, jobs[b].mtime)
    ensures |Run(jobs, schedule).phases| == |jobs| && LeavesSevenForTen(jobs, b, schedule)
  {
    RunIsBoundedAnyway(jobs, b, schedule);
    var s := Run(jobs, schedule);
    if s.phases[b].Decided? {
      DeletedRows(jobs, b, s);
    }
  }
}
