/**
 `remember_lease` in several workers at once: each call is five transactions, and between any two
 of them other workers and start-up clean-ups may run. What holds in every world they can reach.
 */
module LeaseRuns {
  import opened Bytes
  import opened LeaseTables
  import E = Exploded

  /** What one call of `remember_lease` takes from its bundle; without an accepted response there are no leases. */
  datatype Request = Request(
    clientId: string,
    link: E.Address,
    addressLeases: seq<AddressLease>,
    prefixLeases: seq<PrefixLease>,
    options: bytes,
    relayData: bytes,
    remoteIds: seq<string>,
    relayIds: seq<string>)

  /** Where a worker is: the transaction it will run next, with the client row it found. */
  datatype Worker =
    | Idle
    | AtClientRow(request: Request)
    | AtRemoteIds(request: Request, row: RowId)
    | AtRelayIds(request: Request, row: RowId)
    | AtAddresses(request: Request, row: RowId)
    | AtPrefixes(request: Request, row: RowId)

  /**
   `Abort` ends a call between two transactions, or in one that is rolled back: a lock timeout or a
   worker that dies.
   */
  datatype Event =
    | Begin(worker: nat, request: Request)
    | Step(worker: nat, now: int)
    | Abort(worker: nat)
    | CleanUp(now: int)

  datatype World = World(db: Db, workers: map<nat, Worker>)

  predicate Interesting(r: Request) { r.addressLeases != [] || r.prefixLeases != [] }

  ghost function RowOf(db: Db, clientId: string, link: string): RowId
    requires HasRow(db, clientId, link)
  {
    var id :| id in db.clients && SameClient(db.clients[id], clientId, link); id
  }

  /** The transaction a worker runs next, once it has a client row. */
  function NextTransaction(w: Worker, now: int): Transaction
    requires !w.Idle? && !w.AtClientRow?
  {
    var r := w.request;
    match w
    case AtRemoteIds(_, row) => TouchAndReplaceRemoteIds(row, now, r.options, r.relayData, r.remoteIds)
    case AtRelayIds(_, row) => ReplaceRelayIds(row, r.relayIds)
    case AtAddresses(_, row) => UpdateAddresses(row, r.addressLeases, now)
    case AtPrefixes(_, row) => UpdatePrefixes(row, r.prefixLeases, now)
  }

  function Advanced(w: Worker): Worker
    requires !w.Idle? && !w.AtClientRow?
  {
    match w
    case AtRemoteIds(r, row) => AtRelayIds(r, row)
    case AtRelayIds(r, row) => AtAddresses(r, row)
    case AtAddresses(r, row) => AtPrefixes(r, row)
    case AtPrefixes(_, _) => Idle
  }

  /** One transaction of a worker. A broken foreign key ends the call, and its error is swallowed. */
  ghost function WorkerStep(db: Db, w: Worker, now: int): (Db, Worker) {
    match w
    case Idle => (db, Idle)
    case AtClientRow(r) =>
      var link := E.Text(r.link);
      if HasRow(db, r.clientId, link) then (db, AtRemoteIds(r, RowOf(db, r.clientId, link)))
      else if Interesting(r) then (WithNewClient(db, r.clientId, link), AtRemoteIds(r, db.nextId))
      else (db, Idle)
    case _ =>
      var t := NextTransaction(w, now);
      if BreaksForeignKey(db, t) then (db, Idle) else (Apply(db, t), Advanced(w))
  }

  function WorkerAt(world: World, w: nat): Worker { if w in world.workers then world.workers[w] else Idle }

  ghost function Next(world: World, e: Event): World {
    match e
    case Begin(w, r) =>
      if WorkerAt(world, w).Idle? then world.(workers := world.workers[w := AtClientRow(r)]) else world
    case Step(w, now) =>
      var (db, worker) := WorkerStep(world.db, WorkerAt(world, w), now);
      World(db, world.workers[w := worker])
    case Abort(w) => world.(workers := world.workers[w := Idle])
    case CleanUp(now) => world.(db := Cleaned(world.db, now))
  }

  const START := World(EMPTY, map[])

  ghost function Run(events: seq<Event>): World {
    if events == [] then START else Next(Run(events[..|events| - 1]), events[|events| - 1])
  }

  predicate Possible(events: seq<Event>) {
    forall e <- events :: e.Begin? ==> WellOrdered(e.request.prefixLeases)
  }

  // ---- Client rows keep their meaning -----------------------------------------------------------

  /** Ids are never handed out twice, and a row that survives still stands for the same client and link. */
  ghost predicate RowsStable(before: Db, after: Db) {
    && before.nextId <= after.nextId
    && forall c | c in after.clients && c < before.nextId ::
         c in before.clients && SameClient(after.clients[c], before.clients[c].clientId, before.clients[c].link)
  }

  lemma WorkerStepStable(db: Db, w: Worker, now: int)
    ensures RowsStable(db, WorkerStep(db, w, now).0)
  {
    hide Apply, BreaksForeignKey, E.Text;
    if !w.Idle? && !w.AtClientRow? {
      ApplyIsStable(db, NextTransaction(w, now));
    }
  }

  lemma ApplyIsStable(db: Db, t: Transaction)
    ensures RowsStable(db, db) && RowsStable(db, Apply(db, t))
  {
    hide LeasedAddresses, LeasedPrefixes, NewAddressRows, NewPrefixRows, Replaced;
  }

  lemma CleanedStable(db: Db, now: int)
    ensures RowsStable(db, Cleaned(db, now))
  {
  }

  /** A worker that holds a row id holds that of its own client, if the row still exists at all. */
  ghost predicate WorkerFits(db: Db, w: Worker) {
    && (!w.Idle? ==> WellOrdered(w.request.prefixLeases))
    && (!w.Idle? && !w.AtClientRow? ==>
          && w.row < db.nextId
          && (w.row in db.clients ==> SameClient(db.clients[w.row], w.request.clientId, E.Text(w.request.link))))
  }

  lemma FitsStable(before: Db, after: Db, w: Worker)
    requires RowsStable(before, after) && WorkerFits(before, w)
    ensures WorkerFits(after, w)
  {
    hide E.Text;
  }

  lemma WorkerStepFits(db: Db, w: Worker, now: int)
    requires Consistent(db) && WorkerFits(db, w)
    ensures Consistent(WorkerStep(db, w, now).0) && WorkerFits(WorkerStep(db, w, now).0, WorkerStep(db, w, now).1)
  {
    hide Apply, BreaksForeignKey, E.Text, WellOrdered;
    WorkerStepStable(db, w, now);
    match w {
      case Idle =>
      case AtClientRow(r) =>
        hide Consistent;
        var link := E.Text(r.link);
        if !HasRow(db, r.clientId, link) {
          NewClientKeeps(db, r.clientId, r.link);
        } else {
          RowIsHandedOut(db, RowOf(db, r.clientId, link));
        }
      case _ =>
        ApplyKeeps(db, NextTransaction(w, now));
        FitsStable(db, WorkerStep(db, w, now).0, w);
    }
  }

  lemma RowIsHandedOut(db: Db, row: RowId)
    requires Consistent(db) && row in db.clients
    ensures row < db.nextId
  {
  }

  ghost predicate Sound(world: World) {
    Consistent(world.db) && forall w <- world.workers :: WorkerFits(world.db, world.workers[w])
  }

  lemma NextIsSound(world: World, e: Event)
    requires Sound(world) && (e.Begin? ==> WellOrdered(e.request.prefixLeases))
    ensures Sound(Next(world, e))
  {
    hide Consistent, WorkerFits, RowsStable, Cleaned, WorkerStep;
    match e {
      case Begin(w, r) => assert WorkerFits(world.db, AtClientRow(r)) by { BeginFits(world.db, r); }
      case Step(w, now) =>
        IdleFits(world.db);
        WorkerStepFits(world.db, WorkerAt(world, w), now);
        WorkerStepStable(world.db, WorkerAt(world, w), now);
        forall v <- world.workers ensures WorkerFits(Next(world, e).db, world.workers[v]) {
          FitsStable(world.db, Next(world, e).db, world.workers[v]);
        }
      case Abort(w) => IdleFits(world.db);
      case CleanUp(now) =>
        CleanedKeeps(world.db, now);
        CleanedStable(world.db, now);
        forall v <- world.workers ensures WorkerFits(Next(world, e).db, world.workers[v]) {
          FitsStable(world.db, Next(world, e).db, world.workers[v]);
        }
    }
  }

  lemma BeginFits(db: Db, r: Request)
    requires WellOrdered(r.prefixLeases)
    ensures WorkerFits(db, AtClientRow(r))
  {
  }

  lemma IdleFits(db: Db)
    ensures WorkerFits(db, Idle)
  {
  }

  /**
   Whatever workers and clean-ups do, in any order: every child row has its client, a leased
   address has one owner, prefixes of different clients are disjoint, a client has one row per
   link, and a worker never writes to the row of another client.
   */
  lemma {:induction false} EveryRunIsSound(events: seq<Event>)
    requires Possible(events)
    ensures Sound(Run(events))
  {
    hide Next;
    if events == [] {
      EmptyIsConsistent();
    } else {
      var n := |events| - 1;
      EveryRunIsSound(events[..n]);
      NextIsSound(Run(events[..n]), events[n]);
    }
  }

  // ---- One call, undisturbed ------------------------------------------------------------------------

  /** The world after worker `w` has taken its next `n` steps at time `now` with nothing in between. */
  ghost function Steps(db: Db, w: Worker, now: int, n: nat): (Db, Worker)
    decreases n
  {
    if n == 0 then (db, w)
    else
      var (after, worker) := WorkerStep(db, w, now);
      Steps(after, worker, now, n - 1)
  }

  /**
   An undisturbed call with leases succeeds: afterwards the client has one row on its link, with the
   time, options and relay data of the call, its identifiers are exactly the reported ones, and
   every leased address and prefix is its own with the reported deadlines.
   */
  lemma UndisturbedCall(db: Db, r: Request, now: int)
    requires Consistent(db) && Interesting(r) && WellOrdered(r.prefixLeases)
    ensures var after := Steps(db, AtClientRow(r), now, 5).0;
            && Consistent(after) && HasRow(after, r.clientId, E.Text(r.link))
            && var row := RowOf(after, r.clientId, E.Text(r.link));
            && after.clients[row] == ClientRow(r.clientId, E.Text(r.link), now, r.options, r.relayData)
            && (forall i :: (row, i) in after.remoteIds <==> i in r.remoteIds)
            && (forall i :: (row, i) in after.relayIds <==> i in r.relayIds)
            && (forall a <- NewAddressRows(r.addressLeases, now) ::
                  (row, a) in after.addresses && after.addresses[(row, a)] == NewAddressRows(r.addressLeases, now)[a])
            && (forall p <- NewPrefixRows(r.prefixLeases, now) ::
                  (row, p) in after.prefixes && after.prefixes[(row, p)] == NewPrefixRows(r.prefixLeases, now)[p])
  {
    hide Consistent, E.Text, NewAddressRows, NewPrefixRows, LeasedAddresses, LeasedPrefixes, Replaced;
    var s1 := WorkerStep(db, AtClientRow(r), now);
    var row := s1.1.row;
    WorkerStepFits(db, AtClientRow(r), now) by { BeginFits(db, r); }
    assert row in s1.0.clients && SameClient(s1.0.clients[row], r.clientId, E.Text(r.link));
    var t2, t3 := NextTransaction(AtRemoteIds(r, row), now), ReplaceRelayIds(row, r.relayIds);
    var t4, t5 := UpdateAddresses(row, r.addressLeases, now), UpdatePrefixes(row, r.prefixLeases, now);
    var d2 := Apply(s1.0, t2);
    var d3 := Apply(d2, t3);
    var d4 := Apply(d3, t4);
    var d5 := Apply(d4, t5);
    ApplyKeeps(s1.0, t2);
    ApplyKeeps(d2, t3);
    ApplyKeeps(d3, t4);
    ApplyKeeps(d4, t5);
    ReplacingIds(s1.0.remoteIds, row, r.remoteIds);
    ReplacingIds(d2.relayIds, row, r.relayIds);
    LeasingAddresses(d3, row, r.addressLeases, now);
    LeasingPrefixes(d4, row, r.prefixLeases, now);
    FiveSteps(db, r, now, row, s1.0);
    assert row in d5.clients && SameClient(d5.clients[row], r.clientId, E.Text(r.link));
    OneRow(d5, row, RowOf(d5, r.clientId, E.Text(r.link)));
  }

  lemma OneRow(db: Db, row: RowId, other: RowId)
    requires Consistent(db) && row in db.clients && other in db.clients
    requires SameClient(db.clients[row], db.clients[other].clientId, db.clients[other].link)
    ensures row == other
  {
  }

  lemma FiveSteps(db: Db, r: Request, now: int, row: RowId, d1: Db)
    requires WorkerStep(db, AtClientRow(r), now) == (d1, AtRemoteIds(r, row)) && row in d1.clients
    ensures var d2 := Apply(d1, NextTransaction(AtRemoteIds(r, row), now));
            var d3 := Apply(d2, ReplaceRelayIds(row, r.relayIds));
            var d4 := Apply(d3, UpdateAddresses(row, r.addressLeases, now));
            Steps(db, AtClientRow(r), now, 5).0 == Apply(d4, UpdatePrefixes(row, r.prefixLeases, now))
  {
    hide WorkerStep, Apply;
    var w2, w3, w4, w5 := AtRemoteIds(r, row), AtRelayIds(r, row), AtAddresses(r, row), AtPrefixes(r, row);
    OneStep(d1, w2, now);
    var d2 := Apply(d1, NextTransaction(w2, now));
    OneStep(d2, w3, now);
    var d3 := Apply(d2, ReplaceRelayIds(row, r.relayIds));
    OneStep(d3, w4, now);
    var d4 := Apply(d3, UpdateAddresses(row, r.addressLeases, now));
    OneStep(d4, w5, now);
    var d5 := Apply(d4, UpdatePrefixes(row, r.prefixLeases, now));
    assert Steps(d4, w5, now, 1) == (d5, Idle);
    assert Steps(d3, w4, now, 2) == (d5, Idle);
    assert Steps(d2, w3, now, 3) == (d5, Idle);
    assert Steps(d1, w2, now, 4) == (d5, Idle);
  }

  lemma OneStep(db: Db, w: Worker, now: int)
    requires !w.Idle? && !w.AtClientRow? && w.row in db.clients
    ensures WorkerStep(db, w, now) == (Apply(db, NextTransaction(w, now)), Advanced(w))
    ensures w.row in Apply(db, NextTransaction(w, now)).clients
  {
    hide NewAddressRows, NewPrefixRows, LeasedAddresses, LeasedPrefixes, Replaced;
  }

  /** Only a clean-up can make a call fail: without one, the row a worker holds stays. */
  lemma RowOutlivesWorkers(world: World, e: Event, row: RowId)
    requires row in world.db.clients && !e.CleanUp?
    ensures row in Next(world, e).db.clients
  {
    hide LeasedAddresses, LeasedPrefixes, NewAddressRows, NewPrefixRows, Replaced, E.Text;
  }
}
