/** How long a recorded lease is found by its address. */
module LeaseLife {
  import opened Collections
  import opened LeaseTables
  import opened LeaseRuns
  import opened LeaseQuery
  import opened LeaseCounts
  import E = Exploded

  /**
   What takes a recorded address away: a lease of it to another client, an update of its own client
   that does not renew it and finds it expired, or a clean-up that finds it expired.
   */
  ghost predicate TakesAway(world: World, e: Event, c: RowId, a: string)
    requires (c, a) in world.db.addresses
  {
    var held := world.db.addresses[(c, a)];
    match e
    case Begin(_, _) => false
    case Abort(_) => false
    case CleanUp(now) => held.preferredEnd < now && held.validEnd < now
    case Step(w, now) =>
      match WorkerAt(world, w)
      case AtAddresses(r, row) =>
        var leased := exists l <- r.addressLeases :: E.Text(l.address) == a;
        if row == c then !leased && held.validEnd < now else leased && row in world.db.clients
      case _ => false
  }

  lemma LeasedHolds(rows: map<(RowId, string), LeaseRow>, row: RowId, leased: map<string, LeaseRow>, now: int, c: RowId,
      a: string)
    requires (c, a) in rows
    ensures (c, a) !in LeasedAddresses(rows, row, leased, now) <==>
              if row == c then a !in leased && rows[(c, a)].validEnd < now else a in leased
  {
  }

  /** One event keeps a recorded address exactly when it does not take it away. */
  lemma NextKeepsLeaseIff(world: World, e: Event, c: RowId, a: string)
    requires Consistent(world.db) && (c, a) in world.db.addresses
    ensures (c, a) in Next(world, e).db.addresses <==> !TakesAway(world, e, c, a)
  {
    hide NewAddressRows, NewPrefixRows, LeasedAddresses, LeasedPrefixes, Replaced, Consistent, Cleaned, E.Text;
    if e.CleanUp? {
      CleaningUp(world.db, e.now);
    } else if e.Step? && WorkerAt(world, e.worker).AtAddresses? {
      var AtAddresses(r, row) := WorkerAt(world, e.worker);
      LeasedIff(r.addressLeases, e.now, a);
      HasOwner(world.db, c, a);
      LeasedHolds(world.db.addresses, row, NewAddressRows(r.addressLeases, e.now), e.now, c, a);
    }
  }

  lemma HasOwner(db: Db, c: RowId, a: string)
    requires Consistent(db) && (c, a) in db.addresses
    ensures c in db.clients
  {
    assert (c, a).0 == c;
  }

  ghost predicate Recorded(events: seq<Event>, c: RowId, a: string) { (c, a) in Run(events).db.addresses }

  /** After each part of `more` the address is recorded. */
  ghost predicate StaysRecorded(events: seq<Event>, more: seq<Event>, c: RowId, a: string) {
    forall n: nat | n <= |more| :: Recorded(events + more[..n], c, a)
  }

  /** The event after `events` takes the address away, which is recorded by then. */
  ghost predicate Ends(events: seq<Event>, e: Event, c: RowId, a: string) {
    Recorded(events, c, a) && TakesAway(Run(events), e, c, a)
  }

  /** Some event of `more` takes the recorded address away. */
  ghost predicate IsTakenAway(events: seq<Event>, more: seq<Event>, c: RowId, a: string) {
    exists i: nat | i < |more| :: Ends(events + more[..i], more[i], c, a)
  }

  lemma Parts(more: seq<Event>)
    requires more != []
    ensures var n := |more| - 1;
            more[..|more|] == more && forall i: nat | i <= n :: more[..n][..i] == more[..i]
  {
  }

  lemma StaysSnoc(events: seq<Event>, more: seq<Event>, c: RowId, a: string)
    requires more != []
    ensures StaysRecorded(events, more, c, a) <==>
              StaysRecorded(events, more[..|more| - 1], c, a) && Recorded(events + more, c, a)
  {
    hide Recorded;
    Parts(more);
    var n := |more| - 1;
    if StaysRecorded(events, more, c, a) {
      assert Recorded(events + more[..|more|], c, a);
      forall i: nat | i <= n ensures Recorded(events + more[..n][..i], c, a) {
        assert Recorded(events + more[..i], c, a);
      }
    } else {
      var i: nat :| i <= |more| && !Recorded(events + more[..i], c, a);
      if i <= n {
        assert !Recorded(events + more[..n][..i], c, a);
      }
    }
  }

  lemma TakenSnoc(events: seq<Event>, more: seq<Event>, c: RowId, a: string)
    requires more != []
    ensures var n := |more| - 1;
            IsTakenAway(events, more, c, a) <==>
                IsTakenAway(events, more[..n], c, a) || Ends(events + more[..n], more[n], c, a)
  {
    hide Ends;
    Parts(more);
    var n := |more| - 1;
    if IsTakenAway(events, more, c, a) {
      var i: nat :| i < |more| && Ends(events + more[..i], more[i], c, a);
      if i < n {
        assert Ends(events + more[..n][..i], more[..n][i], c, a);
      }
    }
    if IsTakenAway(events, more[..n], c, a) {
      var i: nat :| i < n && Ends(events + more[..n][..i], more[..n][i], c, a);
      assert Ends(events + more[..i], more[i], c, a);
    }
  }

  lemma EventEndsIff(events: seq<Event>, more: seq<Event>, c: RowId, a: string)
    requires more != [] && Possible(events + more) && Recorded(events + more[..|more| - 1], c, a)
    ensures Recorded(events + more, c, a) <==> !Ends(events + more[..|more| - 1], more[|more| - 1], c, a)
  {
    hide Run, Next, TakesAway, Possible;
    var n := |more| - 1;
    RunSnoc(events, more);
    EveryRunIsSound(events + more[..n]);
    NextKeepsLeaseIff(Run(events + more[..n]), more[n], c, a);
  }

  lemma Unchanged(events: seq<Event>, c: RowId, a: string)
    ensures StaysRecorded(events, [], c, a) <==> Recorded(events, c, a)
    ensures !IsTakenAway(events, [], c, a)
  {
    hide Recorded;
    var none: seq<Event> := [];
    assert events + none[..0] == events;
    assert StaysRecorded(events, none, c, a) ==> Recorded(events + none[..0], c, a);
  }

  /**
   In every run a recorded address stays recorded for its client until an event takes it away, and
   no other event ends it.
   */
  lemma {:induction false} LeaseStaysIff(events: seq<Event>, more: seq<Event>, c: RowId, a: string)
    requires Possible(events + more) && Recorded(events, c, a)
    ensures StaysRecorded(events, more, c, a) <==> !IsTakenAway(events, more, c, a)
    ensures StaysRecorded(events, more, c, a) ==> Recorded(events + more, c, a)
    decreases |more|
  {
    hide Run, Recorded, StaysRecorded, IsTakenAway, Ends, Possible;
    if more == [] {
      assert events + more == events;
      Unchanged(events, c, a);
    } else {
      RunSnoc(events, more);
      LeaseStaysIff(events, more[..|more| - 1], c, a);
      StaysSnoc(events, more, c, a);
      TakenSnoc(events, more, c, a);
      if Recorded(events + more[..|more| - 1], c, a) {
        EventEndsIff(events, more, c, a);
      }
    }
  }

  /** So until then its client is found by the address, whatever else happens. */
  lemma LeaseIsFoundUntilTakenAway(events: seq<Event>, more: seq<Event>, c: RowId, address: E.Address)
    requires Possible(events + more) && Recorded(events, c, E.Text(address))
    requires !IsTakenAway(events, more, c, E.Text(address))
    ensures c in AddressMatches(Run(events + more).db, address) && c in Run(events + more).db.clients
  {
    hide Run, E.Text, E.Between, IsTakenAway, Possible;
    LeaseStaysIff(events, more, c, E.Text(address));
    EveryRunIsSound(events + more);
    HolderMatches(Run(events + more).db, c, address);
    MatchesAreClients(Run(events + more).db, address);
  }
}
