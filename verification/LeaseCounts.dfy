/** When the count that `find_leases` reports is what its generator yields, over whole runs. */
module LeaseCounts {
  import opened Bytes
  import opened Collections
  import opened LeaseTables
  import opened LeaseRuns
  import opened LeaseGrants
  import opened LeaseQuery

  // ---- Which client rows survive a run -----------------------------------------------------------

  /** At every clean-up in `more` the client still has a lease that has not run out. */
  ghost predicate OutlivesCleanUps(events: seq<Event>, more: seq<Event>, c: RowId) {
    forall i | 0 <= i < |more| && more[i].CleanUp? ::
        HasLeaseLeft(Run(events + more[..i]).db, c, more[i].now)
  }

  lemma NextIsStable(world: World, e: Event)
    ensures RowsStable(world.db, Next(world, e).db)
  {
    hide WorkerStep, Cleaned, RowsStable;
    match e {
      case Step(w, now) => WorkerStepStable(world.db, WorkerAt(world, w), now);
      case CleanUp(now) => CleanedStable(world.db, now);
      case _ => SameIsStable(world.db);
    }
  }

  /** A clean-up keeps a client exactly when it has a lease left; nothing else removes one. */
  lemma NextKeepsRowIff(world: World, e: Event, c: RowId)
    requires c in world.db.clients
    ensures c in Next(world, e).db.clients <==> (e.CleanUp? ==> HasLeaseLeft(world.db, c, e.now))
  {
    hide WorkerStep;
    if e.CleanUp? {
      CleaningUp(world.db, e.now);
    } else {
      RowOutlivesWorkers(world, e, c);
    }
  }

  lemma SnocOf(events: seq<Event>, more: seq<Event>)
    requires more != []
    ensures var n, all := |more| - 1, events + more;
            all != [] && all[..|all| - 1] == events + more[..n] && all[|all| - 1] == more[n]
  {
  }

  lemma RunLast(all: seq<Event>)
    requires all != []
    ensures Run(all) == Next(Run(all[..|all| - 1]), all[|all| - 1])
  {
    hide Next;
  }

  lemma RunSnoc(events: seq<Event>, more: seq<Event>)
    requires more != []
    ensures Run(events + more) == Next(Run(events + more[..|more| - 1]), more[|more| - 1])
    ensures Possible(events + more) ==> Possible(events + more[..|more| - 1]) && Possible(events)
  {
    hide Next, Run, Possible;
    SnocOf(events, more);
    RunLast(events + more);
    PossiblePart(events + more, |events|);
    PossiblePart(events + more, |events + more| - 1);
    assert (events + more)[..|events|] == events;
  }

  lemma PossiblePart(all: seq<Event>, n: nat)
    requires n <= |all|
    ensures Possible(all) ==> Possible(all[..n])
  {
    hide WellOrdered;
    assert forall e <- all[..n] :: e in all;
  }

  /** In every run a client row survives if and only if at each clean-up it has a lease left. */
  lemma {:induction false} RowSurvivesIff(events: seq<Event>, more: seq<Event>, c: RowId)
    requires Possible(events + more) && c in Run(events).db.clients
    ensures c in Run(events + more).db.clients <==> OutlivesCleanUps(events, more, c)
    ensures c < Run(events + more).db.nextId
    decreases |more|
  {
    hide Run, Next, Possible, HasLeaseLeft;
    if more == [] {
      assert events + more == events;
      EveryRunIsSound(events);
      RowIsHandedOut(Run(events).db, c);
    } else {
      var n := |more| - 1;
      var before := Run(events + more[..n]);
      RunSnoc(events, more);
      RowSurvivesIff(events, more[..n], c);
      NextIsStable(before, more[n]);
      if c in before.db.clients {
        NextKeepsRowIff(before, more[n], c);
      }
      OutlivesSnoc(events, more, c);
    }
  }

  lemma OutlivesSnoc(events: seq<Event>, more: seq<Event>, c: RowId)
    requires more != []
    ensures var n := |more| - 1;
            OutlivesCleanUps(events, more, c) <==>
              OutlivesCleanUps(events, more[..n], c)
              && (more[n].CleanUp? ==> HasLeaseLeft(Run(events + more[..n]).db, c, more[n].now))
  {
    hide Run, HasLeaseLeft;
    var n := |more| - 1;
    assert forall i | 0 <= i < n :: more[..n][..i] == more[..i] && more[..n][i] == more[i];
  }

  // ---- The count ---------------------------------------------------------------------------------------

  /** What the generator yields when it starts after `more`: the matched clients that are still there. */
  ghost function Yielded(events: seq<Event>, more: seq<Event>, q: Query): set<RowId>
    requires FindClients(Run(events).db, q).Rows?
  {
    FindClients(Run(events).db, q).rows * Run(events + more).db.clients.Keys
  }

  /**
   In every run the generator yields as many clients as were counted if and only if every matched
   client has a lease left at each clean-up in between.
   */
  lemma CountIsExactIff(events: seq<Event>, more: seq<Event>, q: Query)
    requires Possible(events + more) && FindClients(Run(events).db, q).Rows?
    ensures |Yielded(events, more, q)| == |FindClients(Run(events).db, q).rows| <==>
              forall c <- FindClients(Run(events).db, q).rows :: OutlivesCleanUps(events, more, c)
  {
    hide Run, FindClients, OutlivesCleanUps, Possible, Consistent;
    PossibleBefore(events, more);
    EveryRunIsSound(events);
    FoundRowsExist(Run(events).db, q);
    var rows := FindClients(Run(events).db, q).rows;
    forall c <- rows ensures c in Yielded(events, more, q) <==> OutlivesCleanUps(events, more, c) {
      RowSurvivesIff(events, more, c);
    }
    SubsetIsNotLarger(Yielded(events, more, q), rows);
    if forall c <- rows :: OutlivesCleanUps(events, more, c) {
      assert Yielded(events, more, q) == rows;
    } else {
      var c :| c in rows && !OutlivesCleanUps(events, more, c);
      assert c !in Yielded(events, more, q);
    }
  }

  lemma PossibleBefore(events: seq<Event>, more: seq<Event>)
    requires Possible(events + more)
    ensures Possible(events)
  {
    if more == [] {
      assert events + more == events;
    } else {
      RunSnoc(events, more);
    }
  }

  /** Without a clean-up in between it is exact, whatever workers do. */
  lemma CountIsExactAmongWorkers(events: seq<Event>, more: seq<Event>, q: Query)
    requires Possible(events + more) && FindClients(Run(events).db, q).Rows? && forall e <- more :: !e.CleanUp?
    ensures Yielded(events, more, q) == FindClients(Run(events).db, q).rows
  {
    hide Run, FindClients;
    CountIsExactIff(events, more, q);
    SubsetIsNotLarger(Yielded(events, more, q), FindClients(Run(events).db, q).rows);
  }

  /** With one clean-up it is exact if and only if every matched client has a lease that has not run out by then. */
  lemma CountIsExactAcrossACleanUp(events: seq<Event>, q: Query, now: int)
    requires Possible(events) && FindClients(Run(events).db, q).Rows?
    ensures |Yielded(events, [CleanUp(now)], q)| == |FindClients(Run(events).db, q).rows| <==>
              forall c <- FindClients(Run(events).db, q).rows :: HasLeaseLeft(Run(events).db, c, now)
  {
    hide Run, FindClients, HasLeaseLeft;
    var more := [CleanUp(now)];
    CountIsExactIff(events, more, q);
    assert more[0].CleanUp? && events + more[..0] == events;
  }

  // ---- A run in which it is not ------------------------------------------------------------------------

  const CALL := Request("00030001aabbccddeeff", 0, [AddressLease(1, 100, 200, [])], [], [], [], [], [])
  const BY_ADDRESS := Query(QUERY_BY_ADDRESS, None, Some(1), None, None, None)

  /** A call of worker 0 with `n` of its transactions done at time 0. */
  function CallEvents(r: Request, n: nat): seq<Event> { [Begin(0, r)] + seq(n, _ => Step(0, 0)) }

  lemma {:induction false} StepsSnoc(db: Db, w: Worker, now: int, n: nat)
    ensures var (d, v) := Steps(db, w, now, n); Steps(db, w, now, n + 1) == WorkerStep(d, v, now)
    decreases n
  {
    hide WorkerStep;
    if n > 0 {
      var (after, worker) := WorkerStep(db, w, now);
      StepsSnoc(after, worker, now, n - 1);
    } else {
      assert Steps(db, w, now, 1) == WorkerStep(db, w, now);
    }
  }

  lemma {:induction false} RunOfCall(r: Request, n: nat)
    requires WellOrdered(r.prefixLeases)
    ensures var world := Run(CallEvents(r, n));
            Possible(CallEvents(r, n)) && (world.db, WorkerAt(world, 0)) == Steps(EMPTY, AtClientRow(r), 0, n)
  {
    hide WorkerStep;
    if n == 0 {
      assert CallEvents(r, 0) == [Begin(0, r)];
      assert [Begin(0, r)][..0] == [];
      assert Run([]) == START;
    } else {
      RunOfCall(r, n - 1);
      assert CallEvents(r, n)[..n] == CallEvents(r, n - 1);
      StepsSnoc(EMPTY, AtClientRow(r), 0, n - 1);
    }
  }

  /** After the call every row in the lease tables is its one lease, and belongs to its client. */
  lemma OnlyTheLease(c: RowId, h: Holding)
    requires Records(Run(CallEvents(CALL, 5)).db, c, h)
    ensures var db := Run(CallEvents(CALL, 5)).db;
            && h == AddressText(E.Text(1)) && db.addresses[(c, h.text)] == LeaseRow(100, 200, [])
            && HasRow(db, CALL.clientId, E.Text(0)) && c == RowOf(db, CALL.clientId, E.Text(0))
  {
    hide Run, Steps, E.Text, Consistent;
    var events := CallEvents(CALL, 5);
    var db := Run(events).db;
    RunOfCall(CALL, 5);
    EveryLeaseWasGranted(events);
    EmptyIsConsistent();
    UndisturbedCall(EMPTY, CALL, 0);
    assert forall e <- events :: e.Begin? ==> e.request == CALL;
    assert h == AddressText(E.Text(1));
    OneRow(db, c, RowOf(db, CALL.clientId, E.Text(0)));
    LastLeaseWins(CALL.addressLeases, 0, 0);
  }

  lemma TheLeaseRunsOut(c: RowId)
    ensures !HasLeaseLeft(Run(CallEvents(CALL, 5)).db, c, 201)
  {
    hide Run;
    var db := Run(CallEvents(CALL, 5)).db;
    forall k <- db.addresses ensures db.addresses[k].preferredEnd < 201 && db.addresses[k].validEnd < 201 {
      assert Records(db, k.0, AddressText(k.1));
      OnlyTheLease(k.0, AddressText(k.1));
    }
    forall k <- db.prefixes ensures false {
      assert Records(db, k.0, PrefixRange(k.1));
      OnlyTheLease(k.0, PrefixRange(k.1));
    }
  }

  lemma TheLeaseIsFound()
    ensures var db := Run(CallEvents(CALL, 5)).db;
            && FindClients(db, BY_ADDRESS).Rows? && HasRow(db, CALL.clientId, E.Text(0))
            && FindClients(db, BY_ADDRESS).rows == {RowOf(db, CALL.clientId, E.Text(0))}
  {
    hide Run, Steps, E.Text, Consistent, FindClients;
    var db := Run(CallEvents(CALL, 5)).db;
    RunOfCall(CALL, 5);
    EmptyIsConsistent();
    UndisturbedCall(EMPTY, CALL, 0);
    LastLeaseWins(CALL.addressLeases, 0, 0);
    AddressQueryIsExact(db, BY_ADDRESS);
    var row := RowOf(db, CALL.clientId, E.Text(0));
    assert Holds(db, row, 1);
    forall c | Holds(db, c, 1) ensures c == row {
      OnlyHolder(db, c, 1);
    }
  }

  lemma OnlyHolder(db: Db, c: RowId, a: E.Address)
    requires Holds(db, c, a) && db == Run(CallEvents(CALL, 5)).db
    ensures HasRow(db, CALL.clientId, E.Text(0)) && c == RowOf(db, CALL.clientId, E.Text(0))
  {
    hide Run, E.Text;
    if (c, E.Text(a)) in db.addresses {
      OnlyTheLease(c, AddressText(E.Text(a)));
    } else {
      var first: E.Address, last: E.Address :| first <= a <= last && (c, (E.Text(first), E.Text(last))) in db.prefixes;
      OnlyTheLease(c, PrefixRange((E.Text(first), E.Text(last))));
    }
  }

  /** One call, and a clean-up after its lease has run out: the client was counted and is not yielded. */
  lemma CountCanBeWrong()
    ensures var events := CallEvents(CALL, 5);
            && Possible(events + [CleanUp(201)]) && FindClients(Run(events).db, BY_ADDRESS).Rows?
            && |FindClients(Run(events).db, BY_ADDRESS).rows| == 1 && |Yielded(events, [CleanUp(201)], BY_ADDRESS)| != 1
  {
    hide Run, Steps, E.Text, Consistent, FindClients, HasLeaseLeft;
    var events := CallEvents(CALL, 5);
    TheLeaseIsFound();
    RunOfCall(CALL, 5);
    var row := RowOf(Run(events).db, CALL.clientId, E.Text(0));
    TheLeaseRunsOut(row);
    CountIsExactAcrossACleanUp(events, BY_ADDRESS, 201);
  }

  // ---- The answer to a bulk query ------------------------------------------------------------------------

  /**
   `LeasequeryHandler.handle` in a run: it finds its rows after `events` and the generator reads
   the store after `more`. It sends one message more than it counted if and only if every matched
   client has a lease left at each clean-up in between, so always when there is none.
   */
  method HandleBulkInRun(ghost events: seq<Event>, ghost more: seq<Event>, db: Db, later: Db, seen: Reads, q: Query,
      transactionId: bytes, now: int)
    returns (answer: Answer, ghost order: seq<RowId>, ghost leases: seq<ClientData>)
    requires Possible(events + more) && db == Run(events).db && later == Run(events + more).db
    requires FindClients(db, q).Rows? && FindClients(db, q).rows != {}
    ensures (answer.Messages? && |answer.messages| == |FindClients(db, q).rows| + 1) <==>
              forall c <- FindClients(db, q).rows :: OutlivesCleanUps(events, more, c)
    ensures (forall e <- more :: !e.CleanUp?) ==>
              answer.Messages? && IsBulkAnswer(answer.messages, transactionId, leases)
              && ListsOnce(order, FindClients(db, q).rows) && Reports(leases, order, later, seen, now)
              && |answer.messages| == |FindClients(db, q).rows| + 1
  {
    hide Run, FindClients, OutlivesCleanUps, Consistent, Possible;
    PossibleBefore(events, more);
    EveryRunIsSound(events);
    CountIsExactIff(events, more, q);
    if forall e <- more :: !e.CleanUp? {
      CountIsExactAmongWorkers(events, more, q);
    }
    OtherQueriesFindNothing(db, q);
    answer, order, leases := HandleBulk(db, later, seen, q, transactionId, now);
  }
}
