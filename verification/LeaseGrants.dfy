/** Nothing is recorded in the lease store that was not granted. */
module LeaseGrants {
  import opened LeaseTables
  import opened LeaseRuns

  /** What a client can hold: an address, or a prefix by its first and last address. */
  datatype Holding = AddressText(text: string) | PrefixRange(range: Range)

  predicate Records(db: Db, row: RowId, h: Holding) {
    match h
    case AddressText(a) => (row, a) in db.addresses
    case PrefixRange(p) => (row, p) in db.prefixes
  }

  /** The request was given a lease of just this. */
  ghost predicate Leases(r: Request, h: Holding) {
    match h
    case AddressText(a) => exists l <- r.addressLeases :: E.Text(l.address) == a
    case PrefixRange(p) => exists l <- r.prefixLeases :: (E.Text(l.first), E.Text(l.last)) == p
  }

  /** Some call of `remember_lease` was given a lease of `h` for the client of `row`, on that link. */
  ghost predicate Granted(events: seq<Event>, row: ClientRow, h: Holding) {
    exists e <- events ::
        e.Begin? && SameClient(row, e.request.clientId, E.Text(e.request.link)) && Leases(e.request, h)
  }

  ghost predicate AllGranted(events: seq<Event>, db: Db) {
    forall c, h | Records(db, c, h) :: c in db.clients && Granted(events, db.clients[c], h)
  }

  /** The requests workers are busy with were begun. */
  ghost predicate Begun(events: seq<Event>, w: Worker) {
    w.Idle? || exists e <- events :: e.Begin? && e.request == w.request
  }

  ghost predicate AllBegun(events: seq<Event>, workers: map<nat, Worker>) {
    forall w <- workers :: Begun(events, workers[w])
  }

  // ---- What a transaction adds ------------------------------------------------------------------

  /** What a transaction of a worker adds are leases of its own request, to the row it holds. */
  lemma WorkerStepAdds(db: Db, w: Worker, now: int, c: RowId, h: Holding)
    requires Consistent(db) && Records(WorkerStep(db, w, now).0, c, h) && !Records(db, c, h)
    ensures (w.AtAddresses? || w.AtPrefixes?) && c == w.row && c in db.clients && Leases(w.request, h)
  {
    hide E.Text, LeasedAddresses, LeasedPrefixes, NewPrefixRows, Replaced, NewAddressRows, ClientsUnique, Exploded;
    match w {
      case AtAddresses(r, row) =>
        LeasedAddressesKeep(db.addresses, row, NewAddressRows(r.addressLeases, now), now);
        LeasedIff(r.addressLeases, now, h.text);
        AddedRowExists(db, w, now);
      case AtPrefixes(r, row) =>
        LeasedPrefixesKeep(db.prefixes, row, NewPrefixRows(r.prefixLeases, now), now);
        PrefixLeasedIff(r.prefixLeases, now, h.range);
        AddedRowExists(db, w, now);
      case _ =>
    }
  }

  lemma AddedRowExists(db: Db, w: Worker, now: int)
    requires w.AtAddresses? || w.AtPrefixes?
    ensures w.row in db.clients || (w.AtAddresses? && w.request.addressLeases == [])
        || (w.AtPrefixes? && w.request.prefixLeases == [])
            || WorkerStep(db, w, now).0 == db
  {
    hide E.Text, LeasedAddresses, LeasedPrefixes, NewPrefixRows, NewAddressRows;
  }

  // ---- Runs -----------------------------------------------------------------------------------------

  lemma GrantedLater(events: seq<Event>, e: Event, before: ClientRow, after: ClientRow, h: Holding)
    requires Granted(events, before, h) && SameClient(after, before.clientId, before.link)
    ensures Granted(events + [e], after, h)
  {
    hide Leases, E.Text;
    var g :| g in events && g.Begin? && SameClient(before, g.request.clientId, E.Text(g.request.link))
        && Leases(g.request, h);
    assert g in events + [e];
  }

  lemma GrantedNow(events: seq<Event>, e: Event, w: Worker, row: ClientRow, h: Holding)
    requires !w.Idle? && Begun(events, w) && SameClient(row, w.request.clientId, E.Text(w.request.link))
    requires Leases(w.request, h)
    ensures Granted(events + [e], row, h)
  {
    hide Leases, E.Text;
    var b :| b in events && b.Begin? && b.request == w.request;
    assert b in events + [e];
  }

  lemma OwnRow(db: Db, w: Worker)
    requires WorkerFits(db, w) && (w.AtAddresses? || w.AtPrefixes?) && w.row in db.clients
    ensures SameClient(db.clients[w.row], w.request.clientId, E.Text(w.request.link))
  {
  }

  /** A recorded row has its client, which is the one it had before. */
  lemma SurvivingRow(before: Db, after: Db, c: RowId, h: Holding)
    requires Consistent(before) && Consistent(after) && RowsStable(before, after)
    requires Records(after, c, h) && c in before.clients
    ensures c in after.clients && SameClient(after.clients[c], before.clients[c].clientId, before.clients[c].link)
  {
    hide Exploded, OneOwner, NoOverlap;
  }

  lemma StepIsGranted(events: seq<Event>, e: Event, db: Db, w: Worker, now: int)
    requires Consistent(db) && WorkerFits(db, w) && Begun(events, w) && AllGranted(events, db)
    ensures AllGranted(events + [e], WorkerStep(db, w, now).0)
  {
    WorkerStepFits(db, w, now);
    WorkerStepStable(db, w, now);
    var after := WorkerStep(db, w, now).0;
    hide WorkerStep, E.Text, Leases, Granted, Begun, RowsStable, WorkerFits, Consistent, Records;
    forall c, h | Records(after, c, h) ensures c in after.clients && Granted(events + [e], after.clients[c], h) {
      if Records(db, c, h) {
        SurvivingRow(db, after, c, h);
        GrantedLater(events, e, db.clients[c], after.clients[c], h);
      } else {
        NewRowIsGranted(events, e, db, w, now, c, h);
      }
    }
  }

  lemma NewRowIsGranted(events: seq<Event>, e: Event, db: Db, w: Worker, now: int, c: RowId, h: Holding)
    requires Consistent(db) && WorkerFits(db, w) && Begun(events, w)
    requires Records(WorkerStep(db, w, now).0, c, h) && !Records(db, c, h)
    ensures var after := WorkerStep(db, w, now).0; c in after.clients && Granted(events + [e], after.clients[c], h)
  {
    hide WorkerStep, E.Text, Leases, Granted, Begun, RowsStable, WorkerFits, Consistent, Records, SameClient;
    WorkerStepFits(db, w, now);
    WorkerStepStable(db, w, now);
    WorkerStepAdds(db, w, now, c, h);
    SurvivingRow(db, WorkerStep(db, w, now).0, c, h);
    OwnRow(db, w);
    GrantedNow(events, e, w, WorkerStep(db, w, now).0.clients[c], h);
  }

  lemma ShrunkIsGranted(events: seq<Event>, e: Event, before: Db, after: Db)
    requires Consistent(before) && Consistent(after) && RowsStable(before, after) && AllGranted(events, before)
    requires forall c, h | Records(after, c, h) :: Records(before, c, h)
    ensures AllGranted(events + [e], after)
  {
    hide Granted, RowsStable, Consistent, Records;
    forall c, h | Records(after, c, h) ensures c in after.clients && Granted(events + [e], after.clients[c], h) {
      assert Records(before, c, h);
      SurvivingRow(before, after, c, h);
      GrantedLater(events, e, before.clients[c], after.clients[c], h);
    }
  }

  lemma CleanedRecordsLess(db: Db, now: int)
    ensures forall c, h | Records(Cleaned(db, now), c, h) :: Records(db, c, h)
  {
    hide Expired;
  }

  lemma SameIsStable(db: Db)
    ensures RowsStable(db, db)
  {
  }

  lemma BegunLater(events: seq<Event>, e: Event, workers: map<nat, Worker>)
    requires AllBegun(events, workers)
    ensures AllBegun(events + [e], workers) && Begun(events, Idle) && Begun(events + [e], Idle)
    ensures e.Begin? ==> Begun(events + [e], AtClientRow(e.request))
  {
    assert e in events + [e];
    forall w <- workers ensures Begun(events + [e], workers[w]) {
      if !workers[w].Idle? {
        var b :| b in events && b.Begin? && b.request == workers[w].request;
        assert b in events + [e];
      }
    }
  }

  lemma WorkerStepBegun(events: seq<Event>, db: Db, w: Worker, now: int)
    requires Begun(events, w)
    ensures Begun(events, WorkerStep(db, w, now).1)
  {
    hide Apply, BreaksForeignKey, E.Text;
  }

  lemma NextIsGranted(events: seq<Event>, e: Event, world: World)
    requires Sound(world) && Sound(Next(world, e)) && AllBegun(events, world.workers) && AllGranted(events, world.db)
    ensures AllBegun(events + [e], Next(world, e).workers) && AllGranted(events + [e], Next(world, e).db)
  {
    BegunLater(events, e, world.workers);
    hide Consistent, WorkerFits, WorkerStep, Cleaned, AllGranted, Begun, RowsStable, Records, E.Text;
    if e.Step? {
      NextStepIsGranted(events, e, world);
    } else if e.CleanUp? {
      CleanedStable(world.db, e.now);
      CleanedRecordsLess(world.db, e.now);
      ShrunkIsGranted(events, e, world.db, Cleaned(world.db, e.now));
    } else {
      SameIsStable(world.db);
      ShrunkIsGranted(events, e, world.db, world.db);
    }
  }

  lemma NextStepIsGranted(events: seq<Event>, e: Event, world: World)
    requires e.Step? && Sound(world) && AllBegun(events, world.workers) && AllGranted(events, world.db)
    ensures AllBegun(events + [e], Next(world, e).workers) && AllGranted(events + [e], Next(world, e).db)
  {
    BegunLater(events, e, world.workers);
    hide Consistent, WorkerFits, WorkerStep, AllGranted, Begun, RowsStable, E.Text;
    IdleFits(world.db);
    StepIsGranted(events, e, world.db, WorkerAt(world, e.worker), e.now);
    WorkerStepBegun(events + [e], world.db, WorkerAt(world, e.worker), e.now);
  }

  lemma NothingGranted(events: seq<Event>)
    ensures AllGranted(events, EMPTY)
  {
  }

  /**
   In every reachable world, an address or a prefix is recorded for a client only if a call was
   given just that lease for that client on that link.
   */
  lemma {:induction false} EveryLeaseWasGranted(events: seq<Event>)
    requires Possible(events)
    ensures AllGranted(events, Run(events).db) && AllBegun(events, Run(events).workers)
  {
    hide Next, AllGranted, Sound;
    EveryRunIsSound(events);
    if events == [] {
      NothingGranted(events);
    } else {
      var n := |events| - 1;
      EveryRunIsSound(events[..n]);
      EveryLeaseWasGranted(events[..n]);
      assert events == events[..n] + [events[n]];
      NextIsGranted(events[..n], events[n], Run(events[..n]));
    }
  }
}
