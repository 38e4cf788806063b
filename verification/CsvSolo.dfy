/** What one builder does to the table while the others wait. */
module CsvSolo {
  import opened CsvBuilder

  predicate AllAt(t: Table, m: nat) { forall k :: k in t ==> t[k].mtime == m }

  lemma AllAtHasNoNewer(t: Table, m: nat)
    requires AllAt(t, m)
    ensures !HasNewer(t, m)
  {
  }

  /** `n` turns of builder `i` in a row. */
  function Turns(i: nat, n: nat): seq<Act> { seq(n, _ => Go(i)) }

  lemma OneMoreTurn(jobs: seq<Job>, s: State, i: nat, n: nat)
    ensures Exec(jobs, s, Turns(i, n + 1)) == Step(jobs, Exec(jobs, s, Turns(i, n)), Go(i))
  {
    hide Step;
    assert Turns(i, n + 1)[..n] == Turns(i, n);
  }

  lemma TwoTurns(jobs: seq<Job>, s: State, b: nat)
    ensures Exec(jobs, s, [Go(b), Go(b)]) == Step(jobs, Step(jobs, s, Go(b)), Go(b))
  {
    assert [Go(b), Go(b)][..1] == [Go(b)] && [Go(b)][..0] == [];
    assert Exec(jobs, s, [Go(b)]) == Step(jobs, Exec(jobs, s, []), Go(b));
  }

  lemma OneTurn(jobs: seq<Job>, s: State, b: nat)
    ensures Exec(jobs, s, [Go(b)]) == Step(jobs, s, Go(b))
  {
    assert [Go(b)][..0] == [];
  }

  lemma OneMore(jobs: seq<Job>, schedule: seq<Act>, act: Act)
    ensures Run(jobs, schedule + [act]) == Step(jobs, Run(jobs, schedule), act)
  {
    assert (schedule + [act])[..|schedule|] == schedule;
  }

  // ---- Batch after batch ------------------------------------------------------------------------

  lemma {:induction false} FillConcat(t: Table, first: CsvRows, rest: CsvRows, m: nat)
    ensures Fill(t, first + rest, m) == Fill(Fill(t, first, m), rest, m)
    decreases |rest|
  {
    if rest == [] {
      assert first + rest == first;
    } else {
      var n := |rest| - 1;
      FillConcat(t, first, rest[..n], m);
      assert (first + rest)[..|first| + n] == first + rest[..n];
    }
  }

  lemma BatchEndBounds(pos: nat, csv: CsvRows)
    requires pos < |csv|
    ensures pos < BatchEnd(pos, csv) <= |csv|
  {
  }

  /** How many batches a file needs. */
  function Batches(csv: CsvRows): nat { (|csv| + BATCH - 1) / BATCH }

  /** Where a builder is after `n` batches. */
  function After(n: nat, csv: CsvRows): nat { if n * BATCH <= |csv| then n * BATCH else |csv| }

  lemma AfterNext(n: nat, csv: CsvRows)
    requires n * BATCH < |csv|
    ensures After(n, csv) == n * BATCH && After(n + 1, csv) == BatchEnd(n * BATCH, csv)
    ensures csv[..After(n + 1, csv)] == csv[..n * BATCH] + Batch(n * BATCH, csv)
  {
  }

  lemma FillStaysNotNewer(t: Table, rows: CsvRows, m: nat)
    requires !HasNewer(t, m)
    ensures !HasNewer(Fill(t, rows, m), m)
    ensures AllAt(t, m) ==> AllAt(Fill(t, rows, m), m)
  {
    FillIs(t, rows, m);
  }

  /** A builder alone with a table that holds nothing newer writes its rows in order. */
  lemma {:induction false} FillAlone(jobs: seq<Job>, s: State, i: nat, n: nat)
    requires i < |jobs| && |s.phases| == |jobs| && s.phases[i] == Filling(0) && !HasNewer(s.table, jobs[i].mtime)
    requires n == 0 || (n - 1) * BATCH < |jobs[i].csv|
    ensures var pos := After(n, jobs[i].csv);
            Exec(jobs, s, Turns(i, n))
                == State(Fill(s.table, jobs[i].csv[..pos], jobs[i].mtime), s.phases[i := Filling(pos)])
  {
    hide HasNewer, Fill, Batch, BatchEnd, After, Exec, Step;
    var csv := jobs[i].csv;
    if n == 0 {
      NoTurns(jobs, s, i, csv);
    } else {
      var pos := (n - 1) * BATCH;
      FillAlone(jobs, s, i, n - 1);
      OneMoreTurn(jobs, s, i, n - 1);
      AfterNext(n - 1, csv);
      FillStaysNotNewer(s.table, csv[..pos], jobs[i].mtime);
      FillConcat(s.table, csv[..pos], Batch(pos, csv), jobs[i].mtime);
      BatchStep(jobs, State(Fill(s.table, csv[..pos], jobs[i].mtime), s.phases[i := Filling(pos)]), i, pos);
      assert s.phases[i := Filling(pos)][i := Filling(After(n, csv))] == s.phases[i := Filling(After(n, csv))];
    }
  }

  lemma NoTurns(jobs: seq<Job>, s: State, i: nat, csv: CsvRows)
    requires i < |s.phases| && s.phases[i] == Filling(0)
    ensures After(0, csv) == 0 && Exec(jobs, s, Turns(i, 0)) == s
    ensures forall m :: State(Fill(s.table, csv[..0], m), s.phases[i := Filling(0)]) == s
  {
    assert s.phases[i := Filling(0)] == s.phases && csv[..0] == [];
  }

  lemma BatchStep(jobs: seq<Job>, s: State, i: nat, pos: nat)
    requires i < |jobs| == |s.phases| && s.phases[i] == Filling(pos) && pos < |jobs[i].csv|
    requires !HasNewer(s.table, jobs[i].mtime)
    ensures Step(jobs, s, Go(i))
         == State(Fill(s.table, Batch(pos, jobs[i].csv), jobs[i].mtime),
             s.phases[i := Filling(BatchEnd(pos, jobs[i].csv))])
  {
    hide HasNewer, Fill, Batch, BatchEnd;
  }

  /** All of its batches. */
  lemma FillsAlone(jobs: seq<Job>, s: State, i: nat)
    requires i < |jobs| && |s.phases| == |jobs| && s.phases[i] == Filling(0) && !HasNewer(s.table, jobs[i].mtime)
    ensures var csv := jobs[i].csv;
            Exec(jobs, s, Turns(i, Batches(csv)))
                == State(Fill(s.table, csv, jobs[i].mtime), s.phases[i := Filling(|csv|)])
  {
    var csv := jobs[i].csv;
    FillAlone(jobs, s, i, Batches(csv));
    assert csv[..|csv|] == csv;
  }
}
