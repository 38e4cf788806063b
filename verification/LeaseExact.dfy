/** The effect of each step of `remember_lease` on each table, row by row and on addresses as numbers. */
module LeaseExact {
  import opened Bytes
  import opened LeaseTables
  import opened LeaseRuns
  import E = Exploded

  ghost function RowsOfClient(db: Db, clientId: string, link: E.Address): set<RowId> {
    set c <- db.clients | db.clients[c].clientId == clientId && db.clients[c].link == E.Text(link)
  }

  /** One client row is new, and nothing else is changed. */
  ghost predicate OnlyAddsRow(before: Db, after: Db, c: RowId, clientId: string, link: E.Address) {
    && c !in before.clients && c in after.clients
    && after.clients[c].clientId == clientId && after.clients[c].link == E.Text(link)
    && after.clients == before.clients[c := after.clients[c]]
    && after == before.(clients := after.clients, nextId := after.nextId)
  }

  /** A call takes the client's row on its link; only one with leases makes it, and one without stops there. */
  lemma CallTakesItsRow(db: Db, r: Request, now: int)
    requires Consistent(db)
    ensures var (after, w) := WorkerStep(db, AtClientRow(r), now);
            var found := RowsOfClient(db, r.clientId, r.link);
            if found != {} then w.AtRemoteIds? && w.request == r && w.row in found && after == db
            else if r.addressLeases == [] && r.prefixLeases == [] then w == Idle && after == db
            else w.AtRemoteIds? && w.request == r && OnlyAddsRow(db, after, w.row, r.clientId, r.link)
  {
    hide E.Text, ChildrenHaveClients, OneOwner, NoOverlap, Exploded;
    var found := RowsOfClient(db, r.clientId, r.link);
    assert HasRow(db, r.clientId, E.Text(r.link)) ==> RowOf(db, r.clientId, E.Text(r.link)) in found;
    assert forall c <- found :: c in db.clients && SameClient(db.clients[c], r.clientId, E.Text(r.link));
  }

  /** The first transaction records the contact and replaces the remote identifiers, and does nothing else. */
  lemma TouchingIsExact(db: Db, c: RowId, now: int, options: bytes, relayData: bytes, ids: seq<string>)
    requires c in db.clients
    ensures var after := Apply(db, TouchAndReplaceRemoteIds(c, now, options, relayData, ids));
            && after.clients
                 == db.clients[c := ClientRow(db.clients[c].clientId, db.clients[c].link, now, options, relayData)]
            && (forall k :: k in after.remoteIds <==> if k.0 == c then k.1 in ids else k in db.remoteIds)
            && after == db.(clients := after.clients, remoteIds := after.remoteIds)
  {
    ReplacedIff(db.remoteIds, c, ids);
  }

  lemma ReplacedIff(rows: set<(RowId, string)>, c: RowId, ids: seq<string>)
    ensures forall k :: k in Replaced(rows, c, ToSet(ids)) <==> if k.0 == c then k.1 in ids else k in rows
  {
    forall k: (RowId, string) ensures k == (k.0, k.1) {}
  }

  lemma RelayIdsAreExact(db: Db, c: RowId, ids: seq<string>)
    requires c in db.clients
    ensures var after := Apply(db, ReplaceRelayIds(c, ids));
            && (forall k :: k in after.relayIds <==> if k.0 == c then k.1 in ids else k in db.relayIds)
            && after == db.(relayIds := after.relayIds)
  {
    ReplacedIff(db.relayIds, c, ids);
  }

  /** `a` is the address of one of the leases. */
  ghost predicate IsLeased(leases: seq<AddressLease>, a: string) {
    exists l <- leases :: E.Text(l.address) == a
  }

  /** A client keeps its valid leases and gets the new ones; others lose the addresses that it gets. */
  lemma AddressesAreExact(db: Db, c: RowId, leases: seq<AddressLease>, now: int)
    requires c in db.clients
    ensures var after := Apply(db, UpdateAddresses(c, leases, now));
            && (forall a :: (c, a) in after.addresses <==>
                  IsLeased(leases, a) || ((c, a) in db.addresses && db.addresses[(c, a)].validEnd >= now))
            && (forall d, a | d != c ::
                  (d, a) in after.addresses <==> (d, a) in db.addresses && !IsLeased(leases, a))
            && (forall k | k in after.addresses && !IsLeased(leases, k.1) :: after.addresses[k] == db.addresses[k])
            && after == db.(addresses := after.addresses)
  {
    hide E.Text, NewAddressRows;
    LeasingAddresses(db, c, leases, now);
    forall a ensures a in NewAddressRows(leases, now) <==> IsLeased(leases, a) {
      LeasedIff(leases, now, a);
    }
  }

  /** One of the leases is of exactly this prefix. */
  ghost predicate IsDelegated(leases: seq<PrefixLease>, first: E.Address, last: E.Address) {
    exists l <- leases :: l.first == first && l.last == last
  }

  predicate Within(a: E.Address, first: E.Address, last: E.Address) { first <= a <= last }

  /** One of the leases has an address in common with this prefix. */
  ghost predicate IsTouched(leases: seq<PrefixLease>, first: E.Address, last: E.Address) {
    exists l <- leases, a: E.Address :: Within(a, first, last) && Within(a, l.first, l.last)
  }

  ghost function RangeOf(first: E.Address, last: E.Address): Range { (E.Text(first), E.Text(last)) }

  lemma DelegatedIff(leases: seq<PrefixLease>, now: int, first: E.Address, last: E.Address)
    ensures RangeOf(first, last) in NewPrefixRows(leases, now) <==> IsDelegated(leases, first, last)
  {
    hide E.Text;
    PrefixLeasedIff(leases, now, RangeOf(first, last));
    forall l <- leases
      ensures RangeOf(l.first, l.last) == RangeOf(first, last) <==> l.first == first && l.last == last
    {
      E.TextOrder(l.first, first);
      E.TextOrder(l.last, last);
    }
  }

  lemma CommonAddress(first: E.Address, last: E.Address, from: E.Address, until: E.Address)
    requires first <= last && from <= until
    ensures first <= until && from <= last <==> exists a: E.Address :: Within(a, first, last) && Within(a, from, until)
  {
    if first <= until && from <= last {
      var a := if first < from then from else first;
      assert Within(a, first, last) && Within(a, from, until);
    }
  }

  /** Two ranges of texts overlap exactly when some address lies in both. */
  lemma OverlapIff(first: E.Address, last: E.Address, from: E.Address, until: E.Address)
    requires first <= last && from <= until
    ensures Overlap(RangeOf(first, last), RangeOf(from, until)) <==>
              exists a: E.Address :: Within(a, first, last) && Within(a, from, until)
  {
    hide E.Text, E.TextLeq, E.Hexes, Within;
    E.TextOrder(first, until);
    E.TextOrder(from, last);
    CommonAddress(first, last, from, until);
  }

  lemma TouchedIff(leases: seq<PrefixLease>, now: int, first: E.Address, last: E.Address)
    requires WellOrdered(leases) && first <= last
    ensures OverlapsAny(RangeOf(first, last), NewPrefixRows(leases, now).Keys) <==> IsTouched(leases, first, last)
  {
    hide E.Text, Overlap, NewPrefixRows;
    var p, rows := RangeOf(first, last), NewPrefixRows(leases, now);
    if OverlapsAny(p, rows.Keys) {
      var q :| q in rows && Overlap(p, q);
      PrefixLeasedIff(leases, now, q);
      var l :| l in leases && (E.Text(l.first), E.Text(l.last)) == q;
      OverlapIff(first, last, l.first, l.last);
    }
    if IsTouched(leases, first, last) {
      var l, a: E.Address :| l in leases && Within(a, first, last) && Within(a, l.first, l.last);
      OverlapIff(first, last, l.first, l.last);
      PrefixLeasedIff(leases, now, RangeOf(l.first, l.last));
    }
  }

  /**
   The same for prefixes, where others lose every prefix that has an address in common with a new
   lease, whole or in part.
   */
  lemma PrefixesAreExact(db: Db, c: RowId, leases: seq<PrefixLease>, now: int)
    requires c in db.clients && WellOrdered(leases)
    ensures var after := Apply(db, UpdatePrefixes(c, leases, now));
            && (forall first: E.Address, last: E.Address | first <= last ::
                  var k := (c, RangeOf(first, last));
                  k in after.prefixes <==>
                    IsDelegated(leases, first, last) || (k in db.prefixes && db.prefixes[k].validEnd >= now))
            && (forall d, first: E.Address, last: E.Address | d != c && first <= last ::
                  var k := (d, RangeOf(first, last));
                  k in after.prefixes <==> k in db.prefixes && !IsTouched(leases, first, last))
            && after == db.(prefixes := after.prefixes)
  {
    hide E.Text, NewPrefixRows, OverlapsAny, IsTouched, IsDelegated, RangeOf, WellOrdered, LeasedPrefixes;
    LeasingPrefixes(db, c, leases, now);
    forall first: E.Address, last: E.Address | first <= last
      ensures RangeOf(first, last) in NewPrefixRows(leases, now) <==> IsDelegated(leases, first, last)
      ensures OverlapsAny(RangeOf(first, last), NewPrefixRows(leases, now).Keys) <==> IsTouched(leases, first, last)
    {
      DelegatedIff(leases, now, first, last);
      TouchedIff(leases, now, first, last);
    }
  }

  /** A transaction for a client that a clean-up has removed changes nothing. */
  lemma NothingForAMissingClient(db: Db, t: Transaction)
    requires Consistent(db) && t.client !in db.clients
    ensures Apply(db, t) == db
  {
    hide E.Text, Overlap, ClientsUnique, OneOwner, NoOverlap, Exploded, LeasedAddresses, LeasedPrefixes;
    if !BreaksForeignKey(db, t) {
      match t {
        case UpdateAddresses(c, leases, now) => NoAddressesNoChange(db.addresses, c, now);
        case UpdatePrefixes(c, leases, now) => NoPrefixesNoChange(db.prefixes, c, now);
        case _ =>
      }
    }
  }

  lemma NoAddressesNoChange(rows: map<(RowId, string), LeaseRow>, c: RowId, now: int)
    requires forall k <- rows :: k.0 != c
    ensures LeasedAddresses(rows, c, map[], now) == rows
  {
  }

  lemma NoPrefixesNoChange(rows: map<(RowId, Range), LeaseRow>, c: RowId, now: int)
    requires forall k <- rows :: k.0 != c
    ensures LeasedPrefixes(rows, c, map[], now) == rows
  {
    hide Overlap;
  }
}
