/**
 `LeasequerySqliteStore`: each method is one transaction, with the loops that update the tables
 step by step, proved to have the effect that `LeaseTables` describes. A cursor yields the rows
 that match when the query starts, in any order.
 */
module LeaseStore {
  import opened Bytes
  import opened Collections
  import opened LeaseTables
  import E = Exploded

  // ---- The loops, on one table at a time -------------------------------------------------------

  function RemoveFirst(ids: seq<string>, id: string): (r: seq<string>)
    requires id in ids
    ensures |r| == |ids| - 1
    ensures forall i :: i in r ==> i in ids
    ensures forall i | i in ids && i != id :: i in r
  {
    if ids[0] == id then ids[1..] else [ids[0]] + RemoveFirst(ids[1..], id)
  }

  /** The body of `replace_remote_ids` and `replace_relay_ids`; `false` when an INSERT breaks the foreign key. */
  method SynchroniseIds(rows: set<(RowId, string)>, client: RowId, wanted: seq<string>, clientExists: bool)
    returns (ok: bool, after: set<(RowId, string)>)
    requires !clientExists ==> forall k <- rows :: k.0 != client
    ensures ok <==> clientExists || wanted == []
    ensures ok ==> after == Replaced(rows, client, ToSet(wanted))
  {
    var ids := wanted;
    after := rows;
    ghost var own := set k <- rows | k.0 == client;
    var cursor := set k <- rows | k.0 == client;
    while cursor != {}
      invariant cursor <= own && (!clientExists ==> ids == wanted)
      invariant forall i <- ids :: i in wanted
      invariant forall i <- wanted :: i in ids || (client, i) in after
      invariant forall i <- wanted :: (client, i) in cursor ==> i in ids
      invariant after <= rows && rows - own <= after && cursor <= after
      invariant forall k <- after :: k in own && k !in cursor ==> k.1 in wanted
      decreases cursor
    {
      var row :| row in cursor;
      cursor := cursor - {row};
      if row.1 in ids {
        ids := RemoveFirst(ids, row.1);
      } else {
        after := after - {row};
      }
    }
    for j := 0 to |ids|
      invariant clientExists || j == 0
      invariant rows - own <= after
      invariant forall k <- after :: k in rows - own || (k.0 == client && k.1 in wanted)
      invariant forall i <- wanted :: i in ids[j..] || (client, i) in after
    {
      if !clientExists {
        return false, rows;
      }
      after := after + {(client, ids[j])};
    }
    ok := true;
    assert after == Replaced(rows, client, ToSet(wanted));
  }

  /** "First see what we already have": update the client's rows that are leased again, and strike them off the list. */
  method UpdateOwnRows<K(==)>(rows: map<(RowId, K), LeaseRow>, client: RowId, leases: map<K, LeaseRow>)
    returns (after: map<(RowId, K), LeaseRow>, left: map<K, LeaseRow>)
    ensures after.Keys == rows.Keys
    ensures forall k <- rows :: after[k] == if k.0 == client && k.1 in leases then leases[k.1] else rows[k]
    ensures forall a :: a in left <==> a in leases && (client, a) !in rows
    ensures forall a <- left :: left[a] == leases[a]
  {
    after, left := rows, leases;
    var cursor := set k <- rows | k.0 == client;
    while cursor != {}
      invariant forall k <- cursor :: k in rows && k.0 == client
      invariant after.Keys == rows.Keys
      invariant forall k <- rows ::
          after[k] == if k.0 == client && k.1 in leases && k !in cursor then leases[k.1] else rows[k]
      invariant forall a :: a in left <==> a in leases && ((client, a) !in rows || (client, a) in cursor)
      invariant forall a <- left :: left[a] == leases[a]
      decreases cursor
    {
      var row :| row in cursor;
      cursor := cursor - {row};
      if row.1 in left {
        after := after[row := left[row.1]];
        left := map a <- left | a != row.1 :: left[a];
      }
    }
  }

  /** "Now create the ones we don't already have": INSERT OR IGNORE. */
  method InsertRows<K(==)>(rows: map<(RowId, K), LeaseRow>, client: RowId, leases: map<K, LeaseRow>)
    returns (after: map<(RowId, K), LeaseRow>)
    requires forall a <- leases :: (client, a) !in rows
    ensures forall k :: k in after <==> k in rows || (k.0 == client && k.1 in leases)
    ensures forall k <- after :: after[k] == if k in rows then rows[k] else leases[k.1]
  {
    after := rows;
    var todo := leases.Keys;
    while todo != {}
      invariant todo <= leases.Keys
      invariant forall k :: k in after <==> k in rows || (k.0 == client && k.1 in leases && k.1 !in todo)
      invariant forall k <- after :: after[k] == if k in rows then rows[k] else leases[k.1]
      decreases todo
    {
      var a :| a in todo;
      todo := todo - {a};
      if (client, a) !in after {
        after := after[(client, a) := leases[a]];
      }
    }
  }

  method DeleteForeignAddresses(rows: map<(RowId, string), LeaseRow>, client: RowId, leases: set<string>)
    returns (after: map<(RowId, string), LeaseRow>)
    ensures forall k :: k in after <==> k in rows && (k.0 == client || k.1 !in leases)
    ensures forall k <- after :: after[k] == rows[k]
  {
    after := rows;
    var todo := leases;
    while todo != {}
      invariant todo <= leases
      invariant after == map k <- rows | k.0 == client || k.1 !in leases - todo :: rows[k]
      decreases todo
    {
      var a :| a in todo;
      after := map k <- after | !(k.1 == a && k.0 != client) :: after[k];
      todo := todo - {a};
    }
    assert leases - todo == leases;
  }

  method DeleteForeignPrefixes(rows: map<(RowId, Range), LeaseRow>, client: RowId, leases: set<Range>)
    returns (after: map<(RowId, Range), LeaseRow>)
    ensures forall k :: k in after <==> k in rows && (k.0 == client || !OverlapsAny(k.1, leases))
    ensures forall k <- after :: after[k] == rows[k]
  {
    hide Overlap;
    after := rows;
    var todo := leases;
    while todo != {}
      invariant todo <= leases
      invariant after == map k <- rows | k.0 == client || !OverlapsAny(k.1, leases - todo) :: rows[k]
      decreases todo
    {
      var p :| p in todo;
      assert forall q: Range :: OverlapsAny(q, leases - (todo - {p})) <==>
          OverlapsAny(q, leases - todo) || Overlap(q, p) by {
        assert leases - (todo - {p}) == (leases - todo) + {p};
      }
      after := map k <- after | !(Overlap(k.1, p) && k.0 != client) :: after[k];
      todo := todo - {p};
    }
    assert leases - todo == leases;
  }

  lemma LeasedAddressesRows(after: map<(RowId, string), LeaseRow>, rows: map<(RowId, string), LeaseRow>, client: RowId,
      leased: map<string, LeaseRow>, now: int)
    requires forall k :: k in after <==>
        (k.0 == client && k.1 in leased) || (k in rows && k.1 !in leased && (k.0 == client ==> rows[k].validEnd >= now))
    requires forall k <- after :: after[k] == if k.0 == client && k.1 in leased then leased[k.1] else rows[k]
    ensures after == LeasedAddresses(rows, client, leased, now)
  {
    hide RowsOf;
    var goal := LeasedAddresses(rows, client, leased, now);
    assert after.Keys == goal.Keys;
  }

  /** The whole of the update on the table; `false` when an INSERT breaks the foreign key. */
  method LeaseAddresses(rows: map<(RowId, string), LeaseRow>, client: RowId, leased: map<string, LeaseRow>, now: int,
      clientExists: bool)
    returns (ok: bool, after: map<(RowId, string), LeaseRow>)
    requires !clientExists ==> forall k <- rows :: k.0 != client
    requires forall a <- leased :: leased[a].validEnd >= now
    ensures ok <==> clientExists || leased == map[]
    ensures ok ==> after == LeasedAddresses(rows, client, leased, now)
  {
    hide LeasedAddresses;
    var kept := DeleteForeignAddresses(rows, client, leased.Keys);
    var updated, left := UpdateOwnRows(kept, client, leased);
    if left != map[] && !clientExists {
      return false, rows;
    }
    var inserted := InsertRows(updated, client, left);
    after := map k <- inserted | !(k.0 == client && inserted[k].validEnd < now) :: inserted[k];
    ok := true;
    assert !clientExists ==> forall a <- leased :: a in left;
    LeasedAddressesRows(after, rows, client, leased, now);
  }

  lemma LeasedPrefixesRows(after: map<(RowId, Range), LeaseRow>, rows: map<(RowId, Range), LeaseRow>, client: RowId,
      leased: map<Range, LeaseRow>, now: int)
    requires forall k :: k in after <==>
        (k.0 == client && k.1 in leased)
            || (k in rows && if k.0 == client then k.1 !in leased && rows[k].validEnd >= now
                 else !OverlapsAny(k.1, leased.Keys))
    requires forall k <- after :: after[k] == if k.0 == client && k.1 in leased then leased[k.1] else rows[k]
    ensures after == LeasedPrefixes(rows, client, leased, now)
  {
    hide OverlapsAny;
    hide RowsOf;
    var goal := LeasedPrefixes(rows, client, leased, now);
    assert after.Keys == goal.Keys;
  }

  /** The whole of the update on the table; `false` when an INSERT breaks the foreign key. */
  method LeasePrefixes(rows: map<(RowId, Range), LeaseRow>, client: RowId, leased: map<Range, LeaseRow>, now: int,
      clientExists: bool)
    returns (ok: bool, after: map<(RowId, Range), LeaseRow>)
    requires !clientExists ==> forall k <- rows :: k.0 != client
    requires forall a <- leased :: leased[a].validEnd >= now
    ensures ok <==> clientExists || leased == map[]
    ensures ok ==> after == LeasedPrefixes(rows, client, leased, now)
  {
    hide LeasedPrefixes, OverlapsAny;
    var kept := DeleteForeignPrefixes(rows, client, leased.Keys);
    var updated, left := UpdateOwnRows(kept, client, leased);
    if left != map[] && !clientExists {
      return false, rows;
    }
    var inserted := InsertRows(updated, client, left);
    after := map k <- inserted | !(k.0 == client && inserted[k].validEnd < now) :: inserted[k];
    ok := true;
    assert !clientExists ==> forall a <- leased :: a in left;
    LeasedPrefixesRows(after, rows, client, leased, now);
  }

  // ---- The store ------------------------------------------------------------------------------

  class Store {
    var clients: map<RowId, ClientRow>
    var nextId: RowId
    var addresses: map<(RowId, string), LeaseRow>
    var prefixes: map<(RowId, Range), LeaseRow>
    var remoteIds: set<(RowId, string)>
    var relayIds: set<(RowId, string)>

    function Tables(): Db
      reads this
    {
      Db(clients, nextId, addresses, prefixes, remoteIds, relayIds)
    }

    ghost predicate Valid()
      reads this
    {
      Consistent(Tables())
    }

    constructor ()
      ensures Valid() && Tables() == EMPTY
    {
      clients, nextId, addresses, prefixes, remoteIds, relayIds := map[], 1, map[], map[], {}, {};
      EmptyIsConsistent();
    }

    method SelectClient(clientId: string, link: string) returns (row: Maybe<RowId>)
      ensures row.Some? <==> HasRow(Tables(), clientId, link)
      ensures row.Some? ==> row.value in clients && SameClient(clients[row.value], clientId, link)
    {
      var cursor := clients.Keys;
      while cursor != {}
        invariant cursor <= clients.Keys
        invariant forall c | c in clients && c !in cursor :: !SameClient(clients[c], clientId, link)
        decreases cursor
      {
        var c :| c in cursor;
        if SameClient(clients[c], clientId, link) {
          return Some(c);
        }
        cursor := cursor - {c};
      }
      return None;
    }

    /** `get_client_row_id`: the one row of this client on this link, created on demand. */
    method GetClientRowId(clientId: string, link: E.Address, create: bool) returns (row: Maybe<RowId>)
      requires Valid()
      modifies this
      ensures Valid()
      ensures Tables() == if create && !HasRow(old(Tables()), clientId, E.Text(link))
                          then WithNewClient(old(Tables()), clientId, E.Text(link)) else old(Tables())
      ensures row.Some? <==> HasRow(Tables(), clientId, E.Text(link))
      ensures row.Some? ==> row.value in clients && SameClient(clients[row.value], clientId, E.Text(link))
    {
      hide Consistent, E.Text;
      if create {
        var conflict := SelectClient(clientId, E.Text(link));
        if conflict == None {
          NewClientKeeps(Tables(), clientId, link);
          row := Some(nextId);
          clients := clients[nextId := ClientRow(clientId, E.Text(link), -1, [], [])];
          nextId := nextId + 1;
          assert nextId - 1 in clients;
          return;
        }
      }
      row := SelectClient(clientId, E.Text(link));
    }

    /** `update_last_interaction`, then `replace_remote_ids` in the transaction that the update opened. */
    method TouchAndReplaceRemoteIds(client: RowId, now: int, options: bytes, relayData: bytes, ids: seq<string>)
      returns (ok: bool)
      requires Valid()
      modifies this
      ensures Valid()
      ensures ok <==> !BreaksForeignKey(old(Tables()),
          Transaction.TouchAndReplaceRemoteIds(client, now, options, relayData, ids))
      ensures Tables()
          == Apply(old(Tables()), Transaction.TouchAndReplaceRemoteIds(client, now, options, relayData, ids))
    {
      hide Consistent, Replaced, Touched, ToSet;
      ApplyKeeps(Tables(), Transaction.TouchAndReplaceRemoteIds(client, now, options, relayData, ids));
      ChildRows();
      var before := clients;
      clients := Touched(Tables(), client, now, options, relayData);
      var rows;
      ok, rows := SynchroniseIds(remoteIds, client, ids, client in before);
      if ok {
        remoteIds := rows;
      } else {
        clients := before;
      }
    }

    method ReplaceRelayIds(client: RowId, ids: seq<string>) returns (ok: bool)
      requires Valid()
      modifies this
      ensures Valid()
      ensures ok <==> !BreaksForeignKey(old(Tables()), Transaction.ReplaceRelayIds(client, ids))
      ensures Tables() == Apply(old(Tables()), Transaction.ReplaceRelayIds(client, ids))
    {
      hide Consistent, Replaced, Touched, ToSet;
      ApplyKeeps(Tables(), Transaction.ReplaceRelayIds(client, ids));
      ChildRows();
      var rows;
      ok, rows := SynchroniseIds(relayIds, client, ids, client in clients);
      if ok {
        relayIds := rows;
      }
    }

    method UpdateAddressLeases(client: RowId, leases: seq<AddressLease>, now: int) returns (ok: bool)
      requires Valid()
      modifies this
      ensures Valid()
      ensures ok <==> !BreaksForeignKey(old(Tables()), UpdateAddresses(client, leases, now))
      ensures Tables() == Apply(old(Tables()), UpdateAddresses(client, leases, now))
    {
      hide Consistent, LeasedAddresses, NewAddressRows, E.Text, IsText;
      ApplyKeeps(Tables(), UpdateAddresses(client, leases, now));
      ChildRows();
      var leased := CollectAddresses(leases, now);
      NewAddressRowsAreTexts(leases, now);
      var rows;
      ok, rows := LeaseAddresses(addresses, client, leased, now, client in clients);
      if ok {
        addresses := rows;
      }
    }

    lemma ChildRows()
      requires Valid()
      ensures (forall k <- addresses :: k.0 in clients) && (forall k <- prefixes :: k.0 in clients)
      ensures (forall k <- remoteIds :: k.0 in clients) && (forall k <- relayIds :: k.0 in clients)
    {
      assert ChildrenHaveClients(Tables());
    }

    method CollectAddresses(leases: seq<AddressLease>, now: int) returns (leased: map<string, LeaseRow>)
      ensures leased == NewAddressRows(leases, now)
    {
      hide E.Text;
      leased := map[];
      for i := 0 to |leases|
        invariant leased == NewAddressRows(leases[..i], now)
      {
        var l := leases[i];
        leased := leased[E.Text(l.address) := LeaseRow(now + l.preferred, now + l.valid, l.options)];
        assert leases[..i + 1][..i] == leases[..i];
      }
      assert leases[..|leases|] == leases;
    }

    method UpdatePrefixLeases(client: RowId, leases: seq<PrefixLease>, now: int) returns (ok: bool)
      requires Valid() && WellOrdered(leases)
      modifies this
      ensures Valid()
      ensures ok <==> !BreaksForeignKey(old(Tables()), UpdatePrefixes(client, leases, now))
      ensures Tables() == Apply(old(Tables()), UpdatePrefixes(client, leases, now))
    {
      hide Consistent, LeasedPrefixes, NewPrefixRows, OverlapsAny, E.Text, WellOrdered, IsRange;
      ApplyKeeps(Tables(), UpdatePrefixes(client, leases, now));
      ChildRows();
      var leased := CollectPrefixes(leases, now);
      NewPrefixRowsAreRanges(leases, now);
      var rows;
      ok, rows := LeasePrefixes(prefixes, client, leased, now, client in clients);
      if ok {
        prefixes := rows;
      }
    }

    method CollectPrefixes(leases: seq<PrefixLease>, now: int) returns (leased: map<Range, LeaseRow>)
      ensures leased == NewPrefixRows(leases, now)
    {
      hide E.Text;
      leased := map[];
      for i := 0 to |leases|
        invariant leased == NewPrefixRows(leases[..i], now)
      {
        var l := leases[i];
        leased := leased[(E.Text(l.first), E.Text(l.last)) := LeaseRow(now + l.preferred, now + l.valid, l.options)];
        assert leases[..i + 1][..i] == leases[..i];
      }
      assert leases[..|leases|] == leases;
    }

    /** The clean-up transaction of `create_tables`. */
    method CleanUp(now: int)
      requires Valid()
      modifies this
      ensures Valid() && Tables() == Cleaned(old(Tables()), now)
      ensures KeepsLeasesLeft(old(addresses), addresses, now) && KeepsLeasesLeft(old(prefixes), prefixes, now)
      ensures KeepsClientsLeft(old(Tables()), Tables(), now)
    {
      CleanedKeeps(Tables(), now);
      CleaningUp(Tables(), now);
      hide KeepsLeasesLeft, KeepsClientsLeft;
      hide Consistent, WithoutExpired, WithoutIdle;
      var unexpired := WithoutExpired(Tables(), now);
      ExpiryKeepsOthers(Tables(), now);
      addresses := unexpired.addresses;
      prefixes := unexpired.prefixes;
      var kept := WithoutIdle(Tables());
      IdleKeepsOthers(Tables());
      clients := kept.clients;
      remoteIds := kept.remoteIds;
      relayIds := kept.relayIds;
    }
  }

  lemma ExpiryKeepsOthers(db: Db, now: int)
    ensures var after := WithoutExpired(db, now);
            after == db.(addresses := after.addresses, prefixes := after.prefixes)
  {
  }

  lemma IdleKeepsOthers(db: Db)
    ensures var after := WithoutIdle(db);
            after == db.(clients := after.clients, remoteIds := after.remoteIds, relayIds := after.relayIds)
  {
  }
}
