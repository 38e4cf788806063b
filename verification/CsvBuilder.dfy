/**
 Competing builders fill one table of static assignments from their CSV files. A builder commits
 batches of 50 rows, counts, and then deletes what is older than its file. Every transaction is
 one step; a schedule says whose step is next, so "every schedule" means every interleaving.
 */
module CsvBuilder {
  type Assignment = (string, string)
  type CsvRows = seq<(string, Assignment)>

  datatype Row = Row(value: Assignment, mtime: nat)
  type Table = map<string, Row>

  const BATCH := 50

  datatype Job = Job(mtime: nat, csv: CsvRows, force: bool)

  /** Where a builder is: filling from row `pos` on, after its first count, after its second, gone. */
  datatype Phase = Filling(pos: nat) | Counted(total: nat) | Decided(deletes: bool) | Exited(code: nat)

  datatype State = State(table: Table, phases: seq<Phase>)

  /** The next step of a builder, or its failure: a `ValueError` while reading, which commits nothing. */
  datatype Act = Go(builder: nat) | Fail(builder: nat)

  // ---- One builder's steps ------------------------------------------------------------------------

  predicate HasNewer(t: Table, m: nat) { exists k :: k in t && t[k].mtime > m }

  /** INSERT OR REPLACE of every row in turn. */
  function Fill(t: Table, rows: CsvRows, m: nat): Table {
    if rows == [] then t
    else
      var n := |rows| - 1;
      Fill(t, rows[..n], m)[rows[n].0 := Row(rows[n].1, m)]
  }

  function Older(t: Table, m: nat): set<string> { set k | k in t && t[k].mtime < m }
  function Same(t: Table, m: nat): set<string> { set k | k in t && t[k].mtime == m }
  function AtLeast(t: Table, m: nat): set<string> { set k | k in t && t[k].mtime >= m }

  function WithoutOlder(t: Table, m: nat): Table { map k | k in t && t[k].mtime >= m :: t[k] }

  function BatchEnd(pos: nat, csv: CsvRows): nat { if pos + BATCH <= |csv| then pos + BATCH else |csv| }

  function Batch(pos: nat, csv: CsvRows): CsvRows
    requires pos <= |csv|
  {
    csv[pos..BatchEnd(pos, csv)]
  }

  /** `updated_count < total_count * 0.7` forbids the delete unless it is forced. */
  predicate MayDelete(updated: nat, total: nat, force: bool) { !(10 * updated < 7 * total) || force }

  function Next(job: Job, t: Table, phase: Phase): (Table, Phase) {
    match phase
    case Filling(pos) =>
      if pos >= |job.csv| then (t, Counted(|t|))
      else if HasNewer(t, job.mtime) then (t, Exited(1))
      else (Fill(t, Batch(pos, job.csv), job.mtime), Filling(BatchEnd(pos, job.csv)))
    case Counted(total) => (t, Decided(MayDelete(|Same(t, job.mtime)|, total, job.force)))
    case Decided(deletes) => if deletes then (WithoutOlder(t, job.mtime), Exited(0)) else (t, Exited(2))
    case Exited(_) => (t, phase)
  }

  function Step(jobs: seq<Job>, s: State, act: Act): State {
    var i := act.builder;
    if i >= |jobs| || i >= |s.phases| then s
    else
      match act
      case Go(_) => var (t, phase) := Next(jobs[i], s.table, s.phases[i]); State(t, s.phases[i := phase])
      case Fail(_) => if s.phases[i].Exited? then s else s.(phases := s.phases[i := Exited(1)])
  }

  function Exec(jobs: seq<Job>, s: State, schedule: seq<Act>): State {
    if schedule == [] then s
    else
      var n := |schedule| - 1;
      Step(jobs, Exec(jobs, s, schedule[..n]), schedule[n])
  }

  function Start(jobs: seq<Job>): State { State(map[], seq(|jobs|, _ => Filling(0))) }

  function Run(jobs: seq<Job>, schedule: seq<Act>): State { Exec(jobs, Start(jobs), schedule) }

  lemma {:induction false} ExecAppend(jobs: seq<Job>, s: State, first: seq<Act>, rest: seq<Act>)
    ensures Exec(jobs, s, first + rest) == Exec(jobs, Exec(jobs, s, first), rest)
    decreases |rest|
  {
    hide Step;
    if rest == [] {
      assert first + rest == first;
    } else {
      var n := |rest| - 1;
      ExecAppend(jobs, s, first, rest[..n]);
      assert (first + rest)[..|first| + n] == first + rest[..n];
    }
  }

  // ---- The mapping a file stands for ----------------------------------------------------------------

  /** The assignments of a file; of two rows with the same id the last one wins. */
  function LastWins(rows: CsvRows): map<string, Assignment> {
    if rows == [] then map[]
    else
      var n := |rows| - 1;
      LastWins(rows[..n])[rows[n].0 := rows[n].1]
  }

  predicate Names(rows: CsvRows, k: string) { exists j :: 0 <= j < |rows| && rows[j].0 == k }

  lemma {:induction false} LastWinsNames(rows: CsvRows, k: string)
    ensures k in LastWins(rows) <==> Names(rows, k)
  {
    if rows != [] {
      var n := |rows| - 1;
      LastWinsNames(rows[..n], k);
      if Names(rows, k) && rows[n].0 != k {
        var j :| 0 <= j < |rows| && rows[j].0 == k;
        assert rows[..n][j].0 == k;
      }
    }
  }

  /** The rows of one batch end as the last-wins mapping of that batch; the others stay. */
  lemma {:induction false} FillIs(t: Table, rows: CsvRows, m: nat)
    ensures var after := Fill(t, rows, m);
            forall k :: if k in LastWins(rows) then k in after && after[k] == Row(LastWins(rows)[k], m)
                        else if k in t then k in after && after[k] == t[k] else k !in after
  {
    if rows != [] {
      FillIs(t, rows[..|rows| - 1], m);
    }
  }

  /** The last row of a file for an id is what it says about it. */
  lemma {:induction false} LastRowWins(rows: CsvRows, i: nat)
    requires i < |rows| && forall j | i < j < |rows| :: rows[j].0 != rows[i].0
    ensures rows[i].0 in LastWins(rows) && LastWins(rows)[rows[i].0] == rows[i].1
  {
    if i < |rows| - 1 {
      LastRowWins(rows[..|rows| - 1], i);
    }
  }

  /** One step while filling: 50 rows at a time, or the end with code 1 at the sight of a newer row. */
  lemma FillingIsExact(job: Job, t: Table, pos: nat)
    requires pos < |job.csv|
    ensures var (after, phase) := Next(job, t, Filling(pos));
            if exists k <- t :: t[k].mtime > job.mtime then after == t && phase == Exited(1)
            else
              var end := if pos + 50 < |job.csv| then pos + 50 else |job.csv|;
              var batch := LastWins(job.csv[pos..end]);
              phase == Filling(end) && forall k ::
                if k in batch then k in after && after[k] == Row(batch[k], job.mtime)
                else if k in t then k in after && after[k] == t[k] else k !in after
  {
    hide Fill;
    FillIs(t, Batch(pos, job.csv), job.mtime);
  }

  /**
   The steps after the last batch: count everything; count the rows of this file and let the delete pass
   with 70% of them or with force; delete exactly what is older and exit with 0, or exit with 2.
   */
  lemma EndingIsExact(job: Job, t: Table, total: nat)
    ensures Next(job, t, Filling(|job.csv|)) == (t, Counted(|t|))
    ensures var updated := |set k <- t | t[k].mtime == job.mtime|;
            Next(job, t, Counted(total)) == (t, Decided(job.force || 10 * updated >= 7 * total))
    ensures var (after, phase) := Next(job, t, Decided(true));
            && phase == Exited(0)
            && (forall k :: k in after <==> k in t && t[k].mtime >= job.mtime)
            && forall k <- after :: after[k] == t[k]
    ensures Next(job, t, Decided(false)) == (t, Exited(2))
  {
    assert Same(t, job.mtime) == set k <- t | t[k].mtime == job.mtime;
  }

  /** A later row wins over an earlier one. */
  lemma {:induction false} LastWinsConcat(first: CsvRows, rest: CsvRows, k: string)
    ensures k in LastWins(first + rest) <==> k in LastWins(first) || k in LastWins(rest)
    ensures k in LastWins(rest) ==> LastWins(first + rest)[k] == LastWins(rest)[k]
    ensures k !in LastWins(rest) && k in LastWins(first) ==> LastWins(first + rest)[k] == LastWins(first)[k]
    decreases |rest|
  {
    if rest == [] {
      assert first + rest == first;
    } else {
      var n := |rest| - 1;
      LastWinsConcat(first, rest[..n], k);
      assert (first + rest)[..|first| + n] == first + rest[..n];
    }
  }

  // ---- What every run keeps -------------------------------------------------------------------------

  /** No builder whose file is newer than `m` has an empty file. */
  ghost predicate NoEmptyAbove(jobs: seq<Job>, m: nat) { forall job <- jobs :: job.mtime > m ==> job.csv != [] }

  /** A row at least as new as `m` is in the table. */
  predicate Settled(t: Table, m: nat) { exists k :: k in t && t[k].mtime >= m }

  /** Some batch of this builder is committed, or it has none. */
  predicate Committed(phase: Phase) { phase.Counted? || phase.Decided? || (phase.Filling? && phase.pos > 0) }

  /** What a builder that has committed rows of a file from `m` or later leaves in the table. */
  ghost predicate Inv(jobs: seq<Job>, s: State, m: nat) {
    |s.phases| == |jobs|
    && forall i | 0 <= i < |jobs| ::
         (s.phases[i].Filling? ==> s.phases[i].pos <= |jobs[i].csv|)
         && (jobs[i].csv != [] && jobs[i].mtime >= m && Committed(s.phases[i]) ==> Settled(s.table, jobs[i].mtime))
  }

  /** A batch puts its own modification time in the table. */
  lemma FillSettles(t: Table, rows: CsvRows, m: nat)
    requires rows != []
    ensures Settled(Fill(t, rows, m), m)
  {
    var k := rows[|rows| - 1].0;
    assert Fill(t, rows, m)[k].mtime == m;
  }

  /** What a row with modification time `r` once at `k` leaves for ever: nothing older replaces it. */
  ghost predicate Past(t: Table, k: string, r: nat) {
    Settled(t, r) && (k in t ==> t[k].mtime >= r)
  }

  lemma FillKeepsPast(t: Table, rows: CsvRows, m: nat, k: string, r: nat)
    requires Past(t, k, r) && !HasNewer(t, m)
    ensures Past(Fill(t, rows, m), k, r)
  {
    FillIs(t, rows, m);
    var j :| j in t && t[j].mtime >= r;
    assert m >= r;
    assert j in Fill(t, rows, m) && Fill(t, rows, m)[j].mtime >= r;
  }

  lemma DeleteKeepsPast(t: Table, m: nat, k: string, r: nat)
    requires Past(t, k, r) && (m <= r || Settled(t, m))
    ensures Past(WithoutOlder(t, m), k, r)
  {
    var j :| j in t && t[j].mtime >= r;
    if t[j].mtime >= m {
      assert j in WithoutOlder(t, m);
    } else {
      var w :| w in t && t[w].mtime >= m;
      assert w in WithoutOlder(t, m);
    }
  }

  lemma StepKeepsPast(jobs: seq<Job>, s: State, act: Act, m: nat, k: string, r: nat)
    requires NoEmptyAbove(jobs, m) && Inv(jobs, s, m) && m <= r && Past(s.table, k, r)
    ensures Past(Step(jobs, s, act).table, k, r)
  {
    hide Past, Settled, Fill, WithoutOlder;
    var i := act.builder;
    if i < |jobs| && act.Go? {
      var job, phase := jobs[i], s.phases[i];
      assert job in jobs;
      if phase.Filling? && phase.pos < |job.csv| && !HasNewer(s.table, job.mtime) {
        FillKeepsPast(s.table, Batch(phase.pos, job.csv), job.mtime, k, r);
      } else if phase.Decided? {
        DeleteKeepsPast(s.table, job.mtime, k, r);
      }
    }
  }

  lemma SettledIsPast(t: Table, m: nat)
    requires Settled(t, m)
    ensures exists k :: Past(t, k, m)
  {
    var k :| k in t && t[k].mtime >= m;
    assert Past(t, k, m);
  }

  /** The newest modification time in the table never goes back. */
  lemma StepKeepsSettled(jobs: seq<Job>, s: State, act: Act, m: nat, r: nat)
    requires NoEmptyAbove(jobs, m) && Inv(jobs, s, m) && m <= r && Settled(s.table, r)
    ensures Settled(Step(jobs, s, act).table, r)
  {
    hide Inv, Step, Settled, NoEmptyAbove;
    SettledIsPast(s.table, r);
    var k :| Past(s.table, k, r);
    StepKeepsPast(jobs, s, act, m, k, r);
  }

  lemma StepKeepsInv(jobs: seq<Job>, s: State, act: Act, m: nat)
    requires NoEmptyAbove(jobs, m) && Inv(jobs, s, m)
    ensures Inv(jobs, Step(jobs, s, act), m)
  {
    var after := Step(jobs, s, act);
    var i := act.builder;
    forall j | 0 <= j < |jobs| && jobs[j].csv != [] && jobs[j].mtime >= m && Committed(after.phases[j])
      ensures Settled(after.table, jobs[j].mtime)
    {
      if Committed(s.phases[j]) {
        StepKeepsSettled(jobs, s, act, m, jobs[j].mtime);
      } else {
        assert i == j && s.phases[i] == Filling(0);
        FillSettles(s.table, Batch(0, jobs[i].csv), jobs[i].mtime);
      }
    }
  }

  lemma StartIsInv(jobs: seq<Job>, m: nat)
    ensures Inv(jobs, Start(jobs), m)
  {
  }

  lemma {:induction false} ExecKeepsInv(jobs: seq<Job>, s: State, schedule: seq<Act>, m: nat)
    requires NoEmptyAbove(jobs, m) && Inv(jobs, s, m)
    ensures Inv(jobs, Exec(jobs, s, schedule), m)
  {
    hide Inv, Step, NoEmptyAbove;
    if schedule != [] {
      var n := |schedule| - 1;
      ExecKeepsInv(jobs, s, schedule[..n], m);
      StepKeepsInv(jobs, Exec(jobs, s, schedule[..n]), schedule[n], m);
    }
  }

  lemma RunIsInv(jobs: seq<Job>, schedule: seq<Act>, m: nat)
    requires NoEmptyAbove(jobs, m)
    ensures Inv(jobs, Run(jobs, schedule), m)
  {
    StartIsInv(jobs, m);
    ExecKeepsInv(jobs, Start(jobs), schedule, m);
  }

  lemma {:induction false} ExecKeepsPast(jobs: seq<Job>, s: State, schedule: seq<Act>, m: nat, k: string, r: nat)
    requires NoEmptyAbove(jobs, m) && Inv(jobs, s, m) && m <= r && Past(s.table, k, r)
    ensures Past(Exec(jobs, s, schedule).table, k, r)
  {
    hide Inv, Step, NoEmptyAbove, Past;
    if schedule != [] {
      var n := |schedule| - 1;
      ExecKeepsPast(jobs, s, schedule[..n], m, k, r);
      ExecKeepsInv(jobs, s, schedule[..n], m);
      StepKeepsPast(jobs, Exec(jobs, s, schedule[..n]), schedule[n], m, k, r);
    }
  }

  /** Along a run, what is as new as `r` once stays so, if no file newer than that is empty. */
  lemma RunKeepsPast(jobs: seq<Job>, first: seq<Act>, rest: seq<Act>, k: string, r: nat)
    requires NoEmptyAbove(jobs, r) && Past(Run(jobs, first).table, k, r)
    ensures Past(Run(jobs, first + rest).table, k, r)
  {
    hide Inv, Exec, NoEmptyAbove, Past;
    RunIsInv(jobs, first, r);
    ExecAppend(jobs, Start(jobs), first, rest);
    ExecKeepsPast(jobs, Run(jobs, first), rest, r, k, r);
  }

  /**
   Along every run no id goes back to an older file, even if it was deleted and inserted again in
   between, as long as no file newer than the one it has its row from is empty.
   */
  lemma NoRowGetsOlder(jobs: seq<Job>, first: seq<Act>, rest: seq<Act>, k: string)
    requires k in Run(jobs, first).table ==> NoEmptyAbove(jobs, Run(jobs, first).table[k].mtime)
    ensures var before, after := Run(jobs, first).table, Run(jobs, first + rest).table;
            k in before && k in after ==> before[k].mtime <= after[k].mtime
  {
    hide Run, NoEmptyAbove;
    var s := Run(jobs, first);
    if k in s.table {
      assert Past(s.table, k, s.table[k].mtime);
      RunKeepsPast(jobs, first, rest, k, s.table[k].mtime);
    }
  }
}
