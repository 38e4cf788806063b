/** The builder as it is written: a loop over rows with a batch counter, in a world of other builders. */
module CsvLoop {
  import opened CsvBuilder

  /** The database file and the builders that use it; `turns` is the schedule so far. */
  class World {
    const jobs: seq<Job>
    var state: State
    ghost var turns: seq<Act>

    ghost predicate Valid()
      reads this
    {
      state == Run(jobs, turns) && |state.phases| == |jobs|
    }

    constructor (jobs: seq<Job>)
      ensures Valid() && this.jobs == jobs && turns == [] && state == Start(jobs)
    {
      this.jobs := jobs;
      state := Start(jobs);
      turns := [];
    }

    /** A transaction of builder `act.builder`. */
    method Commit(next: State, ghost act: Act)
      requires Valid() && next == Step(jobs, state, act)
      modifies this
      ensures Valid() && state == next && turns == old(turns) + [act]
    {
      state := next;
      turns := turns + [act];
      assert turns[..|turns| - 1] == old(turns);
      StepKeepsPhases(jobs, old(state), act);
    }

    /** Other processes run while builder `i` holds no lock. */
    method Others(gap: seq<Act>, ghost i: nat)
      requires Valid() && NotMine(gap, i) && i < |jobs|
      modifies this
      ensures Valid() && turns == old(turns) + gap && state.phases[i] == old(state.phases[i])
    {
      for n := 0 to |gap|
        invariant Valid() && turns == old(turns) + gap[..n] && state.phases[i] == old(state.phases[i])
      {
        assert gap[n].builder != i;
        Commit(Step(jobs, state, gap[n]), gap[n]);
      }
    }
  }

  function Gap(gaps: seq<seq<Act>>, n: nat): seq<Act> { if n < |gaps| then gaps[n] else [] }

  predicate NotMine(gap: seq<Act>, i: nat) { forall act <- gap :: act.builder != i }

  ghost predicate Foreign(gaps: seq<seq<Act>>, i: nat) { forall gap <- gaps :: NotMine(gap, i) }

  /** The turns `more` are builder `i`'s, failing only if it may, and those of the gaps. */
  ghost predicate Turns(more: seq<Act>, i: nat, gaps: seq<seq<Act>>, mayFail: bool) {
    forall act <- more :: act == Go(i) || (mayFail && act == Fail(i)) || exists gap <- gaps :: act in gap
  }

  lemma TurnsGrow(was: seq<Act>, more: seq<Act>, i: nat, gaps: seq<seq<Act>>, n: nat, mayFail: bool)
    requires was <= more && Turns(more[|was|..], i, gaps, mayFail)
    ensures was <= more + [Go(i)] && Turns((more + [Go(i)])[|was|..], i, gaps, mayFail)
    ensures mayFail ==> was <= more + [Fail(i)] && Turns((more + [Fail(i)])[|was|..], i, gaps, mayFail)
    ensures was <= more + Gap(gaps, n) && Turns((more + Gap(gaps, n))[|was|..], i, gaps, mayFail)
  {
    assert (more + [Go(i)])[|was|..] == more[|was|..] + [Go(i)];
    assert (more + [Fail(i)])[|was|..] == more[|was|..] + [Fail(i)];
    assert (more + Gap(gaps, n))[|was|..] == more[|was|..] + Gap(gaps, n);
  }

  lemma GapIsForeign(gaps: seq<seq<Act>>, n: nat, i: nat)
    requires Foreign(gaps, i)
    ensures NotMine(Gap(gaps, n), i)
  {
    if n < |gaps| {
      assert gaps[n] in gaps;
    }
  }

  lemma StepKeepsPhases(jobs: seq<Job>, s: State, act: Act)
    ensures |Step(jobs, s, act).phases| == |s.phases|
  {
  }

  lemma OneMoreRow(t: Table, csv: CsvRows, start: nat, pos: nat, m: nat)
    requires start <= pos < |csv|
    ensures Fill(t, csv[start..pos + 1], m) == Fill(t, csv[start..pos], m)[csv[pos].0 := Row(csv[pos].1, m)]
  {
    assert csv[start..pos + 1][..pos - start] == csv[start..pos];
  }

  lemma BatchIsAStep(jobs: seq<Job>, s: State, i: nat, start: nat, pos: nat)
    requires i < |jobs| == |s.phases| && s.phases[i] == Filling(start) && start < pos <= |jobs[i].csv|
    requires pos == start + BATCH || (pos == |jobs[i].csv| && pos - start < BATCH)
    ensures Step(jobs, s, Go(i))
         == if HasNewer(s.table, jobs[i].mtime) then State(s.table, s.phases[i := Exited(1)])
            else State(Fill(s.table, jobs[i].csv[start..pos], jobs[i].mtime), s.phases[i := Filling(pos)])
  {
    hide Fill, HasNewer;
  }

  lemma AbortIsAStep(jobs: seq<Job>, s: State, i: nat, start: nat)
    requires i < |jobs| == |s.phases| && s.phases[i] == Filling(start) && start < |jobs[i].csv|
    requires HasNewer(s.table, jobs[i].mtime)
    ensures Step(jobs, s, Go(i)) == State(s.table, s.phases[i := Exited(1)])
  {
    hide Fill, HasNewer;
  }

  lemma FailIsAStep(jobs: seq<Job>, s: State, i: nat)
    requires i < |jobs| == |s.phases| && s.phases[i].Filling?
    ensures Step(jobs, s, Fail(i)) == State(s.table, s.phases[i := Exited(1)])
  {
  }

  /** What one builder sees of its world between two of its rows. */
  ghost predicate Filled(world: World, i: nat, pos: nat, executed: nat, working: Table)
    reads world
    requires i < |world.jobs|
  {
    var job := world.jobs[i];
    world.Valid() && executed <= pos <= |job.csv| && executed < BATCH
    && world.state.phases[i] == Filling(pos - executed)
    && (executed > 0 ==>
          !HasNewer(world.state.table, job.mtime)
          && working == Fill(world.state.table, job.csv[pos - executed..pos], job.mtime))
  }

  /**
   The batch loop. `gaps` is what other processes do each time this one lets go of the lock, and
   `failsAt` the row whose reading raises `ValueError`. The outcome is a schedule of builders'
   steps, and the builder has either given up or committed every row.
   */
  method FillTable(world: World, i: nat, gaps: seq<seq<Act>>, failsAt: nat) returns (aborted: bool, used: nat)
    requires world.Valid() && i < |world.jobs| && world.state.phases[i] == Filling(0) && Foreign(gaps, i)
    modifies world
    ensures world.Valid() && old(world.turns) <= world.turns
    ensures Turns(world.turns[|old(world.turns)|..], i, gaps, failsAt < |world.jobs[i].csv|)
    ensures world.state.phases[i] == if aborted then Exited(1) else Filling(|world.jobs[i].csv|)
  {
    hide Fill, HasNewer, Step, Run, Turns, Foreign, NotMine;
    var job := world.jobs[i];
    ghost var was, mayFail := world.turns, failsAt < |world.jobs[i].csv|;
    NoTurns(was, i, gaps, mayFail);
    var executed := 0;
    var working := world.state.table;
    used := 0;
    for pos := 0 to |job.csv|
      invariant Filled(world, i, pos, executed, working)
      invariant was <= world.turns && Turns(world.turns[|was|..], i, gaps, mayFail)
    {
      if pos == failsAt {
        FailIsAStep(world.jobs, world.state, i);
        TurnsGrow(was, world.turns, i, gaps, 0, mayFail);
        world.Commit(State(world.state.table, world.state.phases[i := Exited(1)]), Fail(i));
        return true, used;
      }
      if executed == 0 {
        working := world.state.table;
        if HasNewer(working, job.mtime) {
          AbortIsAStep(world.jobs, world.state, i, pos);
          TurnsGrow(was, world.turns, i, gaps, 0, mayFail);
          world.Commit(State(working, world.state.phases[i := Exited(1)]), Go(i));
          return true, used;
        }
        FillNothing(working, job.csv, pos, job.mtime);
      }
      OneMoreRow(world.state.table, job.csv, pos - executed, pos, job.mtime);
      working := working[job.csv[pos].0 := Row(job.csv[pos].1, job.mtime)];
      executed := executed + 1;
      if executed >= BATCH {
        BatchIsAStep(world.jobs, world.state, i, pos + 1 - executed, pos + 1);
        TurnsGrow(was, world.turns, i, gaps, used, mayFail);
        world.Commit(State(working, world.state.phases[i := Filling(pos + 1)]), Go(i));
        TurnsGrow(was, world.turns, i, gaps, used, mayFail);
        GapIsForeign(gaps, used, i);
        world.Others(Gap(gaps, used), i);
        used := used + 1;
        executed := 0;
      }
    }
    if executed > 0 {
      BatchIsAStep(world.jobs, world.state, i, |job.csv| - executed, |job.csv|);
      TurnsGrow(was, world.turns, i, gaps, used, mayFail);
      world.Commit(State(working, world.state.phases[i := Filling(|job.csv|)]), Go(i));
    }
    aborted := false;
  }

  lemma NoTurns(was: seq<Act>, i: nat, gaps: seq<seq<Act>>, mayFail: bool)
    ensures was <= was && Turns(was[|was|..], i, gaps, mayFail)
  {
  }

  lemma FillNothing(t: Table, csv: CsvRows, pos: nat, m: nat)
    requires pos <= |csv|
    ensures Fill(t, csv[pos..pos], m) == t
  {
  }

  /** The steps after the last batch. */
  lemma LastSteps(jobs: seq<Job>, s: State, i: nat)
    requires i < |jobs| == |s.phases|
    ensures s.phases[i] == Filling(|jobs[i].csv|) ==>
        Step(jobs, s, Go(i)) == s.(phases := s.phases[i := Counted(|s.table|)])
    ensures s.phases[i].Counted? ==>
              var may := MayDelete(|Same(s.table, jobs[i].mtime)|, s.phases[i].total, jobs[i].force);
              Step(jobs, s, Go(i)) == s.(phases := s.phases[i := Decided(may)])
    ensures s.phases[i] == Decided(true) ==>
              Step(jobs, s, Go(i)) == State(WithoutOlder(s.table, jobs[i].mtime), s.phases[i := Exited(0)])
    ensures s.phases[i] == Decided(false) ==> Step(jobs, s, Go(i)) == s.(phases := s.phases[i := Exited(2)])
  {
    hide WithoutOlder, Same, Fill, HasNewer, MayDelete;
  }

  /**
   `build_sqlite` from the batch loop on, with anything at all happening between its transactions:
   what it does to the table is a schedule of the builders' steps, and its exit code is the one
   those steps lead to.
   */
  method BuildSqlite(world: World, i: nat, gaps: seq<seq<Act>>, failsAt: nat) returns (code: nat)
    requires world.Valid() && i < |world.jobs| && world.state.phases[i] == Filling(0) && Foreign(gaps, i)
    modifies world
    ensures world.Valid() && old(world.turns) <= world.turns
    ensures Turns(world.turns[|old(world.turns)|..], i, gaps, failsAt < |world.jobs[i].csv|)
    ensures world.state.phases[i] == Exited(code)
  {
    hide Step, Run, Turns, Foreign, NotMine, Same, WithoutOlder, MayDelete;
    ghost var was, mayFail := world.turns, failsAt < |world.jobs[i].csv|;
    var job := world.jobs[i];
    var aborted, used := FillTable(world, i, gaps, failsAt);
    if aborted {
      return 1;
    }
    LastSteps(world.jobs, world.state, i);
    var totalCount := |world.state.table|;
    Turn(world, i, gaps, used, Counted(totalCount), was, mayFail);
    var updatedCount := |Same(world.state.table, job.mtime)|;
    var doDelete := true;
    if 10 * updatedCount < 7 * totalCount && !job.force {
      doDelete := false;
    }
    LastSteps(world.jobs, world.state, i);
    MayDeleteIs(updatedCount, totalCount, job.force);
    Turn(world, i, gaps, used + 1, Decided(doDelete), was, mayFail);
    LastSteps(world.jobs, world.state, i);
    TurnsGrow(was, world.turns, i, gaps, used, mayFail);
    code := if doDelete then 0 else 2;
    var table := if doDelete then WithoutOlder(world.state.table, job.mtime) else world.state.table;
    world.Commit(State(table, world.state.phases[i := Exited(code)]), Go(i));
  }

  lemma MayDeleteIs(updated: nat, total: nat, force: bool)
    ensures MayDelete(updated, total, force) <==> !(10 * updated < 7 * total && !force)
  {
  }

  /** A step of builder `i` that only reads, and then a gap. */
  method Turn(world: World, i: nat, gaps: seq<seq<Act>>, used: nat, phase: Phase, ghost was: seq<Act>,
      ghost mayFail: bool)
    requires world.Valid() && i < |world.jobs| && Foreign(gaps, i)
    requires Step(world.jobs, world.state, Go(i)) == world.state.(phases := world.state.phases[i := phase])
    requires was <= world.turns && Turns(world.turns[|was|..], i, gaps, mayFail)
    modifies world
    ensures world.Valid() && was <= world.turns && Turns(world.turns[|was|..], i, gaps, mayFail)
    ensures world.state.phases[i] == phase
  {
    hide Step, Run, Turns, Foreign, NotMine;
    TurnsGrow(was, world.turns, i, gaps, used, mayFail);
    world.Commit(world.state.(phases := world.state.phases[i := phase]), Go(i));
    TurnsGrow(was, world.turns, i, gaps, used, mayFail);
    GapIsForeign(gaps, used, i);
    world.Others(Gap(gaps, used), i);
  }
}
