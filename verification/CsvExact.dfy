/** What the table is when the newest builder is done, and how much a builder may delete. */
module CsvExact {
  import opened CsvBuilder
  import opened CsvSolo

  /** The table is exactly the last-wins mapping of this builder's file. */
  ghost predicate Exact(t: Table, job: Job) {
    forall k :: if k in LastWins(job.csv) then k in t && t[k] == Row(LastWins(job.csv)[k], job.mtime) else k !in t
  }

  predicate BatchStart(pos: nat, csv: CsvRows) { pos < |csv| && pos % BATCH == 0 }

  predicate WholeBatches(phase: Phase, csv: CsvRows) {
    phase.Filling? ==> phase.pos == |csv| || BatchStart(phase.pos, csv)
  }

  /** Each batch of `rows` writes only what the mapping of `csv` says. */
  ghost predicate Agrees(rows: CsvRows, csv: CsvRows) {
    forall pos: nat | BatchStart(pos, rows) :: Within(LastWins(Batch(pos, rows)), LastWins(csv))
  }

  ghost predicate Within(small: map<string, Assignment>, big: map<string, Assignment>) {
    forall k :: k in small ==> k in big && small[k] == big[k]
  }

  ghost predicate Newest(jobs: seq<Job>, b: nat) {
    b < |jobs| && forall job <- jobs :: job.mtime <= jobs[b].mtime
  }

  /** Builders whose file is as new as that of `b` agree with it. */
  ghost predicate TwinsAgree(jobs: seq<Job>, b: nat)
    requires b < |jobs|
  {
    forall i | 0 <= i < |jobs| && i != b && jobs[i].mtime == jobs[b].mtime :: Agrees(jobs[i].csv, jobs[b].csv)
  }

  // ---- Why agreeing twins suffice -----------------------------------------------------------------------

  /** The rows the newest builder has committed are final unless it writes them again. */
  ghost predicate Progress(t: Table, job: Job, pos: nat)
    requires pos <= |job.csv|
  {
    var mapping := LastWins(job.csv);
    (forall k :: k in mapping && !Names(job.csv[pos..], k) ==> k in t && t[k] == Row(mapping[k], job.mtime))
    && (forall k :: k in t && t[k].mtime == job.mtime ==> k in mapping)
    && (forall k :: k in t ==> t[k].mtime <= job.mtime)
  }

  ghost predicate Exactly(jobs: seq<Job>, b: nat, s: State)
    requires b < |jobs|
  {
    |s.phases| == |jobs|
    && (forall i | 0 <= i < |jobs| :: WholeBatches(s.phases[i], jobs[i].csv))
    && match s.phases[b]
       case Filling(pos) => Progress(s.table, jobs[b], pos)
       case Exited(code) => code == 0 ==> Exact(s.table, jobs[b])
       case _ => Progress(s.table, jobs[b], |jobs[b].csv|)
  }

  lemma NamesSplit(csv: CsvRows, pos: nat, end: nat, k: string)
    requires pos <= end <= |csv|
    ensures Names(csv[pos..], k) <==> Names(csv[pos..end], k) || Names(csv[end..], k)
  {
    if Names(csv[pos..], k) {
      var j :| 0 <= j < |csv[pos..]| && csv[pos..][j].0 == k;
      if pos + j < end {
        assert csv[pos..end][j].0 == k;
      } else {
        assert csv[end..][pos + j - end].0 == k;
      }
    }
    if Names(csv[pos..end], k) {
      var j :| 0 <= j < |csv[pos..end]| && csv[pos..end][j].0 == k;
      assert csv[pos..][j].0 == k;
    }
    if Names(csv[end..], k) {
      var j :| 0 <= j < |csv[end..]| && csv[end..][j].0 == k;
      assert csv[pos..][end - pos + j].0 == k;
    }
  }

  /** A row of a batch that no later batch names is the last of its id. */
  lemma BatchIsFinal(csv: CsvRows, pos: nat, end: nat, k: string)
    requires pos <= end <= |csv|
    ensures k in LastWins(csv[pos..end]) ==> k in LastWins(csv)
    ensures k in LastWins(csv[pos..end]) && !Names(csv[end..], k) ==> LastWins(csv)[k] == LastWins(csv[pos..end])[k]
  {
    assert csv == csv[..end] + csv[end..];
    assert csv[..end] == csv[..pos] + csv[pos..end];
    LastWinsConcat(csv[..end], csv[end..], k);
    LastWinsConcat(csv[..pos], csv[pos..end], k);
    LastWinsNames(csv[end..], k);
  }

  lemma OwnBatchProgresses(t: Table, job: Job, pos: nat)
    requires pos < |job.csv| && Progress(t, job, pos)
    ensures Progress(Fill(t, Batch(pos, job.csv), job.mtime), job, BatchEnd(pos, job.csv))
  {
    hide Fill, LastWins, Names, BatchEnd;
    var end := BatchEnd(pos, job.csv);
    assert pos <= end <= |job.csv| by { BatchEndBounds(pos, job.csv); }
    var rows := job.csv[pos..end];
    FillIs(t, rows, job.mtime);
    forall k: string
      ensures k in LastWins(rows) ==> k in LastWins(job.csv)
      ensures k in LastWins(rows) && !Names(job.csv[end..], k) ==> LastWins(job.csv)[k] == LastWins(rows)[k]
      ensures k !in LastWins(rows) ==> (Names(job.csv[pos..], k) <==> Names(job.csv[end..], k))
    {
      BatchIsFinal(job.csv, pos, end, k);
      NamesSplit(job.csv, pos, end, k);
      LastWinsNames(rows, k);
    }
  }

  lemma NextBatchStart(pos: nat, csv: CsvRows)
    requires BatchStart(pos, csv)
    ensures BatchEnd(pos, csv) == |csv| || BatchStart(BatchEnd(pos, csv), csv)
  {
  }

  lemma BatchStartIsWhole(pos: nat, csv: CsvRows)
    ensures BatchStart(pos, csv) <==> pos < |csv| && pos % BATCH == 0
  {
  }

  /** A twin's batch writes what the mapping says, and an older builder's batch only comes before all rows. */
  lemma OtherBatchKeepsProgress(t: Table, job: Job, pos: nat, rows: CsvRows, m: nat)
    requires pos <= |job.csv| && Progress(t, job, pos)
    requires !HasNewer(t, m) && m <= job.mtime
    requires m == job.mtime ==> Within(LastWins(rows), LastWins(job.csv))
    ensures Progress(Fill(t, rows, m), job, pos)
  {
    hide Fill, LastWins, Names;
    FillIs(t, rows, m);
  }

  lemma DeleteKeepsProgress(t: Table, job: Job, pos: nat, m: nat)
    requires pos <= |job.csv| && Progress(t, job, pos) && m <= job.mtime
    ensures Progress(WithoutOlder(t, m), job, pos)
  {
    hide LastWins, Names;
  }

  lemma OwnDeleteIsExact(t: Table, job: Job)
    requires Progress(t, job, |job.csv|)
    ensures Exact(WithoutOlder(t, job.mtime), job)
  {
    hide LastWins;
    assert job.csv[|job.csv|..] == [];
  }

  lemma StartIsExactly(jobs: seq<Job>, b: nat)
    requires b < |jobs|
    ensures Exactly(jobs, b, Start(jobs))
  {
    forall k | k in LastWins(jobs[b].csv) ensures Names(jobs[b].csv[0..], k) {
      LastWinsNames(jobs[b].csv, k);
      assert jobs[b].csv[0..] == jobs[b].csv;
    }
  }

  lemma OwnStepKeepsExactly(jobs: seq<Job>, b: nat, s: State)
    requires b < |jobs| && Exactly(jobs, b, s)
    ensures Exactly(jobs, b, Step(jobs, s, Go(b)))
  {
    hide Progress, Exact, Fill, WithoutOlder, BatchEnd, HasNewer, BatchStart;
    var job, phase := jobs[b], s.phases[b];
    if phase.Filling? {
      BatchStartIsWhole(phase.pos, job.csv);
      if phase.pos < |job.csv| {
        BatchEndBounds(phase.pos, job.csv);
        NextBatchStart(phase.pos, job.csv);
        OwnBatchProgresses(s.table, job, phase.pos);
      }
    } else if phase.Decided? {
      OwnDeleteIsExact(s.table, job);
    }
  }

  lemma NextKeepsWholeBatches(job: Job, t: Table, phase: Phase)
    requires WholeBatches(phase, job.csv)
    ensures WholeBatches(Next(job, t, phase).1, job.csv)
  {
    hide Fill, WithoutOlder, BatchEnd;
    if phase.Filling? && phase.pos < |job.csv| {
      BatchEndBounds(phase.pos, job.csv);
      NextBatchStart(phase.pos, job.csv);
    }
  }

  /** What another builder does to the table of the newest one: `job` is the newest, `other` acts. */
  lemma OtherKeepsProgress(job: Job, pos: nat, other: Job, t: Table, phase: Phase)
    requires pos <= |job.csv| && Progress(t, job, pos)
    requires other.mtime <= job.mtime && (other.mtime == job.mtime ==> Agrees(other.csv, job.csv))
    requires WholeBatches(phase, other.csv)
    ensures Progress(Next(other, t, phase).0, job, pos)
    ensures AllAt(t, job.mtime) && t != map[] ==> AllAt(Next(other, t, phase).0, job.mtime)
  {
    hide Progress, Fill, WithoutOlder, HasNewer, LastWins, AllAt;
    if phase.Filling? && phase.pos < |other.csv| && !HasNewer(t, other.mtime) {
      var rows := Batch(phase.pos, other.csv);
      OtherBatchKeepsProgress(t, job, pos, rows, other.mtime);
      OtherBatchKeepsAllAt(t, rows, other.mtime, job.mtime);
    } else if phase.Decided? && phase.deletes {
      DeleteKeepsProgress(t, job, pos, other.mtime);
      DeleteKeepsAllAt(t, other.mtime, job.mtime);
    }
  }

  lemma OtherBatchKeepsAllAt(t: Table, rows: CsvRows, m: nat, newest: nat)
    requires !HasNewer(t, m) && m <= newest
    ensures AllAt(t, newest) && t != map[] ==> AllAt(Fill(t, rows, m), newest)
  {
    FillIs(t, rows, m);
    if AllAt(t, newest) && t != map[] {
      var k :| k in t;
      assert m == newest;
    }
  }

  lemma DeleteKeepsAllAt(t: Table, m: nat, newest: nat)
    ensures AllAt(t, newest) ==> AllAt(WithoutOlder(t, m), newest)
  {
  }

  /** A step of another builder, when `b` is the newest and all its twins agree. */
  lemma OtherStepKeepsExactly(jobs: seq<Job>, b: nat, s: State, i: nat)
    requires Newest(jobs, b) && TwinsAgree(jobs, b) && jobs[b].csv != []
    requires i != b && i < |jobs| && Exactly(jobs, b, s)
    ensures Exactly(jobs, b, Step(jobs, s, Go(i)))
  {
    hide Progress, Exact, Next, BatchStart, LastWins, AllAt;
    assert jobs[i] in jobs;
    assert WholeBatches(s.phases[i], jobs[i].csv);
    NextKeepsWholeBatches(jobs[i], s.table, s.phases[i]);
    assert WholeBatches(Step(jobs, s, Go(i)).phases[i], jobs[i].csv);
    var pos := match s.phases[b] case Filling(p) => p case _ => |jobs[b].csv|;
    ExactTable(s.table, jobs[b]);
    BatchStartIsWhole(pos, jobs[b].csv);
    assert WholeBatches(s.phases[b], jobs[b].csv);
    if s.phases[b].Filling? || s.phases[b].Counted? || s.phases[b].Decided? || s.phases[b] == Exited(0) {
      OtherKeepsProgress(jobs[b], pos, jobs[i], s.table, s.phases[i]);
    }
    ExactTable(Next(jobs[i], s.table, s.phases[i]).0, jobs[b]);
  }

  lemma ExactTable(t: Table, job: Job)
    requires job.csv != []
    ensures Exact(t, job) <==> Progress(t, job, |job.csv|) && AllAt(t, job.mtime)
    ensures Exact(t, job) ==> t != map[]
  {
    var row := job.csv[|job.csv| - 1];
    assert row.0 in LastWins(job.csv);
    hide LastWins;
    assert job.csv[|job.csv|..] == [];
  }

  lemma {:induction false} RunIsExactly(jobs: seq<Job>, b: nat, schedule: seq<Act>)
    requires Newest(jobs, b) && TwinsAgree(jobs, b) && jobs[b].csv != []
    ensures Exactly(jobs, b, Run(jobs, schedule))
  {
    if schedule == [] {
      StartIsExactly(jobs, b);
    } else {
      hide Exactly, Newest, TwinsAgree;
      var n := |schedule| - 1;
      RunIsExactly(jobs, b, schedule[..n]);
      var s := Run(jobs, schedule[..n]);
      StepKeepsExactly(jobs, b, s, schedule[n]);
    }
  }

  lemma StepKeepsExactly(jobs: seq<Job>, b: nat, s: State, act: Act)
    requires Newest(jobs, b) && TwinsAgree(jobs, b) && jobs[b].csv != []
    requires Exactly(jobs, b, s)
    ensures Exactly(jobs, b, Step(jobs, s, act))
  {
    assert b < |jobs|;
    hide Newest, TwinsAgree, Next, Progress, Exact, BatchStart;
    if act == Go(b) {
      hide Exactly;
      OwnStepKeepsExactly(jobs, b, s);
    } else if act.Go? && act.builder < |jobs| {
      hide Exactly;
      OtherStepKeepsExactly(jobs, b, s, act.builder);
    }
  }

  // ---- Why they must agree ----------------------------------------------------------------------------

  /** Builder `b` fills and counts, its twin `i` commits `n` batches, and then `b` deletes. */
  function Overtaken(jobs: seq<Job>, b: nat, i: nat, n: nat): seq<Act>
    requires b < |jobs|
  {
    (Turns(b, Batches(jobs[b].csv)) + [Go(b), Go(b)]) + (Turns(i, n) + [Go(b)])
  }

  /** Alone with an empty table, the builder fills it, counts, and decides to delete. */
  lemma DecidesAlone(jobs: seq<Job>, b: nat)
    requires b < |jobs|
    ensures var s := Run(jobs, Turns(b, Batches(jobs[b].csv)) + [Go(b), Go(b)]);
            s.phases == Start(jobs).phases[b := Decided(true)] && AllAt(s.table, jobs[b].mtime)
  {
    var n := Batches(jobs[b].csv);
    FillsAlone(jobs, Start(jobs), b);
    FillStaysNotNewer(map[], jobs[b].csv, jobs[b].mtime);
    hide HasNewer, Fill, LastWins, Exec;
    ExecAppend(jobs, Start(jobs), Turns(b, n), [Go(b), Go(b)]);
    var filled := Run(jobs, Turns(b, n));
    TwoTurns(jobs, filled, b);
    assert filled.phases[b] == Filling(|jobs[b].csv|);
    assert Same(filled.table, jobs[b].mtime) == filled.table.Keys;
  }

  /** After its batch at `pos` the table says what that batch says. */
  lemma BatchIsThere(jobs: seq<Job>, s: State, i: nat, pos: nat, k: string)
    requires i < |jobs| && |s.phases| == |jobs| && s.phases[i] == Filling(0) && !HasNewer(s.table, jobs[i].mtime)
    requires BatchStart(pos, jobs[i].csv) && k in LastWins(Batch(pos, jobs[i].csv))
    ensures var after, csv := Exec(jobs, s, Turns(i, pos / BATCH + 1)), jobs[i].csv;
            && after.phases == s.phases[i := Filling(BatchEnd(pos, csv))]
            && k in after.table && after.table[k] == Row(LastWins(Batch(pos, csv))[k], jobs[i].mtime)
  {
    hide HasNewer, Fill, Batch, BatchEnd, After, Exec, LastWins;
    var csv, n := jobs[i].csv, pos / BATCH;
    assert n * BATCH == pos;
    FillAlone(jobs, s, i, n + 1);
    AfterNext(n, csv);
    FillConcat(s.table, csv[..pos], Batch(pos, csv), jobs[i].mtime);
    FillIs(Fill(s.table, csv[..pos], jobs[i].mtime), Batch(pos, csv), jobs[i].mtime);
  }

  /** A twin with a differing batch can spoil the table just before the newest builder exits with 0. */
  lemma TwinSpoils(jobs: seq<Job>, b: nat, i: nat, pos: nat, k: string)
    requires b < |jobs| && i < |jobs| && i != b && jobs[i].mtime == jobs[b].mtime && BatchStart(pos, jobs[i].csv)
    requires var batch := LastWins(Batch(pos, jobs[i].csv));
             k in batch && !(k in LastWins(jobs[b].csv) && batch[k] == LastWins(jobs[b].csv)[k])
    ensures var s := Run(jobs, Overtaken(jobs, b, i, pos / BATCH + 1));
            |s.phases| == |jobs| && s.phases[b] == Exited(0) && !Exact(s.table, jobs[b])
  {
    hide LastWins, Fill, HasNewer, Batch, Exec;
    var n := pos / BATCH + 1;
    var first := Turns(b, Batches(jobs[b].csv)) + [Go(b), Go(b)];
    DecidesAlone(jobs, b);
    var s := Run(jobs, first);
    ExecAppend(jobs, Start(jobs), first, Turns(i, n) + [Go(b)]);
    ExecAppend(jobs, s, Turns(i, n), [Go(b)]);
    AllAtHasNoNewer(s.table, jobs[b].mtime);
    BatchIsThere(jobs, s, i, pos, k);
    OneTurn(jobs, Exec(jobs, s, Turns(i, n)), b);
  }

  /**
   Whenever the newest builder has exited with 0 the table is exactly its file's last-wins
   mapping, in every run, if and only if no other builder whose file is equally new has a batch
   that writes anything else.
   */
  lemma NewestBuilderIsExactIffTwinsAgree(jobs: seq<Job>, b: nat)
    requires Newest(jobs, b) && jobs[b].csv != []
    ensures (forall schedule :: RunEndsExact(jobs, b, Run(jobs, schedule))) <==> TwinsAgree(jobs, b)
  {
    hide Run, Exact, LastWins, Batch;
    if TwinsAgree(jobs, b) {
      forall schedule: seq<Act> ensures RunEndsExact(jobs, b, Run(jobs, schedule)) {
        RunIsExactly(jobs, b, schedule);
      }
    } else {
      var i :| 0 <= i < |jobs| && i != b && jobs[i].mtime == jobs[b].mtime && !Agrees(jobs[i].csv, jobs[b].csv);
      var pos: nat :| BatchStart(pos, jobs[i].csv) && !Within(LastWins(Batch(pos, jobs[i].csv)), LastWins(jobs[b].csv));
      var k :| k in LastWins(Batch(pos, jobs[i].csv))
               && !(k in LastWins(jobs[b].csv) && LastWins(Batch(pos, jobs[i].csv))[k] == LastWins(jobs[b].csv)[k]);
      TwinSpoils(jobs, b, i, pos, k);
      assert !RunEndsExact(jobs, b, Run(jobs, Overtaken(jobs, b, i, pos / BATCH + 1)));
    }
  }

  ghost predicate RunEndsExact(jobs: seq<Job>, b: nat, s: State)
    requires b < |jobs|
  {
    |s.phases| == |jobs| && (s.phases[b] == Exited(0) ==> Exact(s.table, jobs[b]))
  }
}
