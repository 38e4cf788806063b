/** What each type of query finds and reports, on the tables themselves. */
module LeaseQueryExact {
  import opened Bytes
  import opened Collections
  import opened LeaseTables
  import opened LeaseRuns
  import opened LeaseQuery
  import E = Exploded

  // ---- Which clients a query finds ----------------------------------------------------------------

  /** The client is recorded, and on the link that the query names, if it names one. */
  ghost predicate IsOnLink(db: Db, c: RowId, q: Query) {
    c in db.clients && (q.link.Some? ==> db.clients[c].link == E.Text(q.link.value))
  }

  /** Type 2 finds the clients with the identifier in the query. */
  lemma ClientIdQueryIsExact(db: Db, q: Query)
    requires q.kind == 2 && q.clientId.Some?
    ensures FindClients(db, q).Rows?
    ensures forall c :: c in FindClients(db, q).rows <==>
              IsOnLink(db, c, q) && db.clients[c].clientId == q.clientId.value
  {
    hide E.Text;
  }

  /** Type 3 finds the clients recorded with the relay identifier in the query. */
  lemma RelayIdQueryIsExact(db: Db, q: Query)
    requires Consistent(db) && q.kind == 3 && q.relayId.Some?
    ensures FindClients(db, q).Rows?
    ensures forall c :: c in FindClients(db, q).rows <==> IsOnLink(db, c, q) && (c, q.relayId.value) in db.relayIds
  {
    hide E.Text, ClientsUnique, OneOwner, NoOverlap, Exploded;
    forall c ensures c in IdMatches(db.relayIds, q.relayId.value) <==> (c, q.relayId.value) in db.relayIds {
      MatchesId(db.relayIds, q.relayId.value, c);
    }
  }

  lemma MatchesId(rows: set<(RowId, string)>, id: string, c: RowId)
    ensures c in IdMatches(rows, id) <==> (c, id) in rows
  {
    assert (c, id) in rows ==> (c, id).0 in IdMatches(rows, id);
  }

  /** Type 4 finds every client on the link. */
  lemma LinkQueryIsExact(db: Db, q: Query)
    requires q.kind == 4
    ensures FindClients(db, q).Rows?
    ensures forall c :: c in FindClients(db, q).rows <==> IsOnLink(db, c, q)
  {
    hide E.Text;
  }

  /** Type 5 finds the clients recorded with the remote identifier in the query. */
  lemma RemoteIdQueryIsExact(db: Db, q: Query)
    requires Consistent(db) && q.kind == 5 && q.remoteId.Some?
    ensures FindClients(db, q).Rows?
    ensures forall c :: c in FindClients(db, q).rows <==> IsOnLink(db, c, q) && (c, q.remoteId.value) in db.remoteIds
  {
    hide E.Text, ClientsUnique, OneOwner, NoOverlap, Exploded;
    forall c ensures c in IdMatches(db.remoteIds, q.remoteId.value) <==> (c, q.remoteId.value) in db.remoteIds {
      MatchesId(db.remoteIds, q.remoteId.value, c);
    }
  }

  // ---- What was remembered is found ---------------------------------------------------------------

  /** What the client reported about itself, as the key of a query of each type. */
  ghost predicate AsksFor(q: Query, r: Request) {
    || (q.kind == 2 && q.clientId == Some(r.clientId))
    || (q.kind == 3 && q.relayId.Some? && q.relayId.value in r.relayIds)
    || q.kind == 4
    || (q.kind == 5 && q.remoteId.Some? && q.remoteId.value in r.remoteIds)
  }

  /**
   Remember, then ask: after an undisturbed call the client is found by its identifier, by each
   relay identifier and each remote identifier of the call, and by its link; and by nothing else that the
   call could have reported.
   */
  lemma ClientIsFoundAgain(db: Db, r: Request, now: int, q: Query)
    requires Consistent(db) && Interesting(r) && WellOrdered(r.prefixLeases) && 2 <= q.kind <= 5 && !LacksItsKey(q)
    ensures var after := Steps(db, AtClientRow(r), now, 5).0;
            && HasRow(after, r.clientId, E.Text(r.link)) && FindClients(after, q).Rows?
            && (RowOf(after, r.clientId, E.Text(r.link)) in FindClients(after, q).rows <==>
                  AsksFor(q, r) && (q.link.None? || q.link.value == r.link))
  {
    hide Steps, E.Text, NewAddressRows, NewPrefixRows, Consistent, FindClients;
    UndisturbedCall(db, r, now);
    var after := Steps(db, AtClientRow(r), now, 5).0;
    match q.kind {
      case 2 => ClientIdQueryIsExact(after, q);
      case 3 => RelayIdQueryIsExact(after, q);
      case 4 => LinkQueryIsExact(after, q);
      case _ => RemoteIdQueryIsExact(after, q);
    }
    if q.link.Some? {
      E.TextOrder(q.link.value, r.link);
    }
  }

  // ---- What is reported about a client --------------------------------------------------------------

  /** `left` is the time until `deadline`, or 0 once that has passed. */
  predicate IsTimeLeft(left: int, deadline: int, now: int) {
    if deadline <= now then left == 0 else now + left == deadline
  }

  /** The reported leases are those of the client that are still valid, each with its time left. */
  ghost predicate ReportsLeases<K(!new)>(reported: map<K, Lifetimes>, rows: map<(RowId, K), LeaseRow>, c: RowId,
      now: int)
  {
    && (forall k :: k in reported <==> (c, k) in rows && rows[(c, k)].validEnd > now)
    && forall k <- reported ::
         && IsTimeLeft(reported[k].preferred, rows[(c, k)].preferredEnd, now)
         && now + reported[k].valid == rows[(c, k)].validEnd
  }

  lemma UnexpiredIs<K(!new)>(rows: map<(RowId, K), LeaseRow>, c: RowId, now: int)
    ensures ReportsLeases(Unexpired(rows, c, now), rows, c, now)
  {
    var keys := set k <- rows | k.0 == c && rows[k].validEnd > now :: k.1;
    forall k ensures k in keys <==> (c, k) in rows && rows[(c, k)].validEnd > now {
      assert (c, k) in rows && rows[(c, k)].validEnd > now ==> (c, k).1 in keys;
      if k in keys {
        var j :| j in rows && j.0 == c && rows[j].validEnd > now && j.1 == k;
        assert j == (c, k);
      }
    }
  }

  /** A client-data option holds the client's identifier, link, time since the last call and valid leases. */
  lemma DataIsExact(db: Db, c: RowId, addresses: Db, prefixes: Db, now: int)
    requires c in db.clients
    ensures var data := DataOf(db, c, addresses, prefixes, now);
            && data.clientId == db.clients[c].clientId && data.link == db.clients[c].link
            && data.lastHeard + db.clients[c].lastInteraction == now
            && ReportsLeases(data.addresses, addresses.addresses, c, now)
            && ReportsLeases(data.prefixes, prefixes.prefixes, c, now)
  {
    hide Unexpired, ReportsLeases;
    UnexpiredIs(addresses.addresses, c, now);
    UnexpiredIs(prefixes.prefixes, c, now);
  }
}
