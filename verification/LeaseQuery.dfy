/** Finding leases again: the five query types, and the messages that answer a query. */
module LeaseQuery {
  import opened Bytes
  import opened Collections
  import opened LeaseTables
  import opened LeaseRuns
  import E = Exploded

  const QUERY_BY_ADDRESS := 1
  const QUERY_BY_CLIENT_ID := 2
  const QUERY_BY_RELAY_ID := 3
  const QUERY_BY_LINK_ADDRESS := 4
  const QUERY_BY_REMOTE_ID := 5

  /** A query option; `link` is `None` for the unspecified address, the others for an absent sub-option. */
  datatype Query = Query(
    kind: int,
    link: Maybe<E.Address>,
    address: Maybe<E.Address>,
    clientId: Maybe<string>,
    relayId: Maybe<string>,
    remoteId: Maybe<string>)

  /** `Unsupported` is the count of -1, `Malformed` the error reply for a query without its key. */
  datatype Found = Unsupported | Malformed | Rows(rows: set<RowId>)

  function OnLink(db: Db, rows: set<RowId>, link: Maybe<E.Address>): set<RowId> {
    match link
    case None => rows
    case Some(l) => set c <- db.clients | db.clients[c].link == E.Text(l) && c in rows
  }

  /** The UNION of the two SELECTs of an address query. */
  function AddressMatches(db: Db, a: E.Address): set<RowId> {
    (set k <- db.addresses | k.1 == E.Text(a) :: k.0)
    + (set k <- db.prefixes | E.Between(E.Text(a), k.1.0, k.1.1) :: k.0)
  }

  function ClientMatches(db: Db, clientId: string): set<RowId> {
    set c <- db.clients | db.clients[c].clientId == clientId
  }

  function IdMatches(rows: set<(RowId, string)>, id: string): set<RowId> {
    set k <- rows | k.1 == id :: k.0
  }

  function FindClients(db: Db, q: Query): Found {
    if q.kind == QUERY_BY_ADDRESS then
      if q.address.None? then Malformed else Rows(OnLink(db, AddressMatches(db, q.address.value), q.link))
    else if q.kind == QUERY_BY_CLIENT_ID then
      if q.clientId.None? then Malformed else Rows(OnLink(db, ClientMatches(db, q.clientId.value), q.link))
    else if q.kind == QUERY_BY_RELAY_ID then
      if q.relayId.None? then Malformed else Rows(OnLink(db, IdMatches(db.relayIds, q.relayId.value), q.link))
    else if q.kind == QUERY_BY_LINK_ADDRESS then Rows(OnLink(db, db.clients.Keys, q.link))
    else if q.kind == QUERY_BY_REMOTE_ID then
      if q.remoteId.None? then Malformed else Rows(OnLink(db, IdMatches(db.remoteIds, q.remoteId.value), q.link))
    else Unsupported
  }

  /** A query without the option that its type asks for. */
  predicate LacksItsKey(q: Query) {
    || (q.kind == 1 && q.address.None?) || (q.kind == 2 && q.clientId.None?)
    || (q.kind == 3 && q.relayId.None?) || (q.kind == 5 && q.remoteId.None?)
  }

  /** Types other than these five are not supported, and four of the five need an option. */
  lemma OtherQueriesFindNothing(db: Db, q: Query)
    ensures FindClients(db, q).Unsupported? <==> q.kind < 1 || 5 < q.kind
    ensures FindClients(db, q).Malformed? <==> LacksItsKey(q)
  {
    hide E.Text, OnLink, AddressMatches, ClientMatches, IdMatches;
  }

  // ---- An address query finds exactly the holders ------------------------------------------------

  /** The client has leased the address itself, or a prefix that contains it, as 128-bit numbers. */
  ghost predicate Holds(db: Db, c: RowId, a: E.Address) {
    || (c, E.Text(a)) in db.addresses
    || exists first: E.Address, last: E.Address | first <= a <= last ::
         (c, (E.Text(first), E.Text(last))) in db.prefixes
  }

  lemma PrefixMatch(db: Db, k: (RowId, Range), a: E.Address)
    requires Consistent(db) && k in db.prefixes && E.Between(E.Text(a), k.1.0, k.1.1)
    ensures Holds(db, k.0, a)
  {
    hide E.Text, E.Between, ClientsUnique, ChildrenHaveClients, OneOwner, NoOverlap;
    assert IsRange(k.1);
    var first: E.Address, last: E.Address :| first <= last && k.1 == (E.Text(first), E.Text(last));
    E.TextBetween(a, first, last);
    assert k == (k.0, (E.Text(first), E.Text(last)));
  }

  lemma HolderMatches(db: Db, c: RowId, a: E.Address)
    requires Holds(db, c, a)
    ensures c in AddressMatches(db, a)
  {
    hide E.Text, E.Between;
    if (c, E.Text(a)) in db.addresses {
    } else {
      var first: E.Address, last: E.Address :| first <= a <= last && (c, (E.Text(first), E.Text(last))) in db.prefixes;
      E.TextBetween(a, first, last);
      var k := (c, (E.Text(first), E.Text(last)));
      assert k in db.prefixes && E.Between(E.Text(a), k.1.0, k.1.1);
    }
  }

  /** Comparing texts finds the clients that hold the address, and only those on the link if one is given. */
  lemma AddressQueryIsExact(db: Db, q: Query)
    requires Consistent(db) && q.kind == QUERY_BY_ADDRESS && q.address.Some?
    ensures FindClients(db, q).Rows?
    ensures forall c :: c in FindClients(db, q).rows <==>
              Holds(db, c, q.address.value) && c in db.clients
                  && (q.link.Some? ==> db.clients[c].link == E.Text(q.link.value))
  {
    hide E.Text, E.Between, Holds;
    var a := q.address.value;
    forall c ensures c in AddressMatches(db, a) <==> Holds(db, c, a) && c in db.clients {
      if c in AddressMatches(db, a) {
        if k :| k in db.prefixes && E.Between(E.Text(a), k.1.0, k.1.1) && k.0 == c {
          PrefixMatch(db, k, a);
        } else {
          var k :| k in db.addresses && k.1 == E.Text(a) && k.0 == c;
          AddressMatch(db, k, a);
        }
      }
      if Holds(db, c, a) {
        HolderMatches(db, c, a);
        MatchesAreClients(db, a);
      }
    }
  }

  lemma AddressMatch(db: Db, k: (RowId, string), a: E.Address)
    requires k in db.addresses && k.1 == E.Text(a)
    ensures Holds(db, k.0, a)
  {
    assert k == (k.0, E.Text(a));
  }

  lemma MatchesAreClients(db: Db, a: E.Address)
    requires Consistent(db)
    ensures AddressMatches(db, a) <= db.clients.Keys
  {
    hide E.Text, E.Between;
  }

  /** Two prefixes that contain one address overlap, so they belong to one client. */
  lemma OnePrefixHolder(db: Db, k: (RowId, Range), l: (RowId, Range), a: E.Address)
    requires Consistent(db) && k in db.prefixes && l in db.prefixes
    requires E.Between(E.Text(a), k.1.0, k.1.1) && E.Between(E.Text(a), l.1.0, l.1.1)
    ensures k.0 == l.0
  {
    hide E.Text, E.TextLess, ClientsUnique, ChildrenHaveClients, OneOwner;
    assert IsRange(k.1) && IsRange(l.1);
    var f1: E.Address, l1: E.Address :| f1 <= l1 && k.1 == (E.Text(f1), E.Text(l1));
    var f2: E.Address, l2: E.Address :| f2 <= l2 && l.1 == (E.Text(f2), E.Text(l2));
    E.TextBetween(a, f1, l1);
    E.TextBetween(a, f2, l2);
    E.TextOrder(f1, l2);
    E.TextOrder(f2, l1);
    assert Overlap(k.1, l.1);
  }

  lemma AtMostOne(s: set<RowId>)
    requires forall c, d | c in s && d in s :: c == d
    ensures |s| <= 1
  {
    if s != {} {
      var c :| c in s;
      assert s == {c};
    }
  }

  /**
   An address query without a link finds at most two clients: the owner of the address and that of a
   prefix around it.
   */
  lemma AtMostTwoHolders(db: Db, a: E.Address)
    requires Consistent(db)
    ensures |AddressMatches(db, a)| <= 2
  {
    hide E.Text, E.Between, NoOverlap, ClientsUnique, ChildrenHaveClients, Exploded;
    var owners := set k <- db.addresses | k.1 == E.Text(a) :: k.0;
    var delegates := set k <- db.prefixes | E.Between(E.Text(a), k.1.0, k.1.1) :: k.0;
    AtMostOne(owners);
    forall c, d | c in delegates && d in delegates ensures c == d {
      var k :| k in db.prefixes && E.Between(E.Text(a), k.1.0, k.1.1) && k.0 == c;
      var l :| l in db.prefixes && E.Between(E.Text(a), l.1.0, l.1.1) && l.0 == d;
      OnePrefixHolder(db, k, l, a);
    }
    AtMostOne(delegates);
    assert |owners + delegates| <= |owners| + |delegates|;
  }

  /** So in every reachable store an address query finds exactly the holders, and without a link at most two of them. */
  lemma AddressQueryInEveryRun(events: seq<Event>, q: Query)
    requires Possible(events) && q.kind == QUERY_BY_ADDRESS && q.address.Some?
    ensures var db := Run(events).db;
            var found := FindClients(db, q);
            && found.Rows?
            && (forall c :: c in found.rows <==>
                  Holds(db, c, q.address.value) && c in db.clients
                      && (q.link.Some? ==> db.clients[c].link == E.Text(q.link.value)))
            && (q.link.None? ==> |found.rows| <= 2)
  {
    hide Run, Holds, Consistent, E.Text, E.Between;
    EveryRunIsSound(events);
    AddressQueryIsExact(Run(events).db, q);
    AtMostTwoHolders(Run(events).db, q.address.value);
  }

  /** Whatever the query, it finds clients that exist. */
  lemma FoundRowsExist(db: Db, q: Query)
    requires Consistent(db) && FindClients(db, q).Rows?
    ensures FindClients(db, q).rows <= db.clients.Keys
  {
    hide E.Text, E.Between;
  }

  // ---- The data of a client ------------------------------------------------------------------------

  datatype Lifetimes = Lifetimes(preferred: int, valid: int)

  /** A client-data option: whose it is, where, how long ago it was heard of, and its leases by key. */
  datatype ClientData = ClientData(
    clientId: string, link: string, lastHeard: int, addresses: map<string, Lifetimes>, prefixes: map<Range, Lifetimes>)

  function Remaining(row: LeaseRow, now: int): Lifetimes {
    Lifetimes(if row.preferredEnd - now > 0 then row.preferredEnd - now else 0,
              if row.validEnd - now > 0 then row.validEnd - now else 0)
  }

  /** The rows of `client` that have not run out, each with the time it has left. */
  function Unexpired<K(==)>(rows: map<(RowId, K), LeaseRow>, client: RowId, now: int): map<K, Lifetimes> {
    var keys := set k <- rows | k.0 == client && rows[k].validEnd > now :: k.1;
    map a <- keys | (client, a) in rows :: Remaining(rows[(client, a)], now)
  }

  /**
   The store as a client's two lease cursors find it, for the first client, the second and so
   on: other transactions may commit between one cursor and the next.
   */
  datatype Reads = Reads(addresses: nat -> Db, prefixes: nat -> Db)

  /** The data of a client row of `db`, with the leases that `addresses` and `prefixes` hold. */
  function DataOf(db: Db, client: RowId, addresses: Db, prefixes: Db, now: int): ClientData
    requires client in db.clients
  {
    var row := db.clients[client];
    ClientData(row.clientId, row.link, now - row.lastInteraction,
               Unexpired(addresses.addresses, client, now), Unexpired(prefixes.prefixes, client, now))
  }

  /**
   Remember, then ask: after an undisturbed call at time `then`, an address query while the last
   lease of an address is still valid finds its client, which reports just the time that is left.
   */
  lemma LeaseIsFoundAgain(db: Db, r: Request, before: int, i: nat, now: int)
    requires Consistent(db) && WellOrdered(r.prefixLeases) && i < |r.addressLeases|
    requires forall j | i < j < |r.addressLeases| :: r.addressLeases[j].address != r.addressLeases[i].address
    requires before <= now < before + r.addressLeases[i].valid
    ensures var lease, after := r.addressLeases[i], Steps(db, AtClientRow(r), before, 5).0;
            && HasRow(after, r.clientId, E.Text(r.link))
            && var row := RowOf(after, r.clientId, E.Text(r.link));
            && row in AddressMatches(after, lease.address)
            && E.Text(lease.address) in DataOf(after, row, after, after, now).addresses
            && DataOf(after, row, after, after, now).addresses[E.Text(lease.address)].valid
                 == before + lease.valid - now
  {
    hide Steps, E.Text, E.Between, NewAddressRows, NewPrefixRows, Consistent;
    UndisturbedCall(db, r, before);
    LastLeaseWins(r.addressLeases, before, i);
    var after, a := Steps(db, AtClientRow(r), before, 5).0, E.Text(r.addressLeases[i].address);
    var row := RowOf(after, r.clientId, E.Text(r.link));
    HolderMatches(after, row, r.addressLeases[i].address);
    assert (row, a) in after.addresses && after.addresses[(row, a)].validEnd > now;
    assert a == (row, a).1;
  }

  // ---- The answer to a bulk query -------------------------------------------------------------------

  datatype Reply =
    | LeasequeryReply(transactionId: bytes, data: Maybe<ClientData>)
    | LeasequeryData(transactionId: bytes, item: ClientData)
    | LeasequeryDone(transactionId: bytes)

  datatype Answer = NotHandled | ErrorStatus(status: int) | Messages(messages: seq<Reply>)

  const STATUS_MALFORMED_QUERY := 8
  const STATUS_QUERY_TERMINATED := 11

  /** `order` lists each of `rows` once. */
  ghost predicate ListsOnce(order: seq<RowId>, rows: set<RowId>) {
    && |order| == |rows| && (forall c :: c in order <==> c in rows)
    && forall i, j | 0 <= i < j < |order| :: order[i] != order[j]
  }

  /** `leases` reports on the clients of `order`, one for one. */
  ghost predicate Reports(leases: seq<ClientData>, order: seq<RowId>, db: Db, seen: Reads, now: int) {
    && |leases| == |order|
    && forall i | 0 <= i < |order| ::
         order[i] in db.clients && leases[i] == DataOf(db, order[i], seen.addresses(i), seen.prefixes(i), now)
  }

  /** A cursor over `rows`: each of them once, in any order. */
  method ListRows(rows: set<RowId>) returns (order: seq<RowId>)
    ensures ListsOnce(order, rows)
  {
    var cursor := rows;
    order := [];
    while cursor != {}
      invariant cursor <= rows && ListsOnce(order, rows - cursor)
      decreases cursor
    {
      var c :| c in cursor;
      ListOneMore(order, rows - cursor, c);
      assert (rows - cursor) + {c} == rows - (cursor - {c});
      cursor := cursor - {c};
      order := order + [c];
    }
    assert rows - cursor == rows;
  }

  /**
   `generate_client_data_options`: the generator selects the matched clients that exist when it
   starts, in any order.
   */
  method GenerateClientData(db: Db, rows: set<RowId>, seen: Reads, now: int)
    returns (order: seq<RowId>, leases: seq<ClientData>)
    ensures ListsOnce(order, rows * db.clients.Keys) && Reports(leases, order, db, seen, now)
  {
    hide DataOf;
    order := ListRows(rows * db.clients.Keys);
    leases := [];
    for i := 0 to |order|
      invariant Reports(leases, order[..i], db, seen, now)
    {
      assert order[i] in order && order[..i + 1] == order[..i] + [order[i]];
      leases := leases + [DataOf(db, order[i], seen.addresses(i), seen.prefixes(i), now)];
    }
    assert order[..|order|] == order;
  }

  lemma ListOneMore(order: seq<RowId>, rows: set<RowId>, c: RowId)
    requires ListsOnce(order, rows) && c !in rows
    ensures ListsOnce(order + [c], rows + {c})
  {
    assert forall i | 0 <= i < |order| :: order[i] in order;
  }

  /** `generate_data_messages`: one message for each lease that is left, then the end of the answer. */
  method GenerateDataMessages(transactionId: bytes, leases: seq<ClientData>) returns (messages: seq<Reply>)
    ensures messages
        == seq(|leases|, i requires 0 <= i < |leases| => LeasequeryData(transactionId, leases[i]))
            + [LeasequeryDone(transactionId)]
  {
    messages := [];
    for i := 0 to |leases|
      invariant messages == seq(i, j requires 0 <= j < i => LeasequeryData(transactionId, leases[j]))
    {
      messages := messages + [LeasequeryData(transactionId, leases[i])];
    }
    messages := messages + [LeasequeryDone(transactionId)];
  }

  /** Section 5.2.2 of RFC 5460: a reply with the first binding, data messages with the others, and a done message. */
  predicate IsBulkAnswer(messages: seq<Reply>, transactionId: bytes, leases: seq<ClientData>) {
    && leases != [] && |messages| == |leases| + 1
    && messages[0] == LeasequeryReply(transactionId, Some(leases[0]))
    && (forall i | 0 < i < |leases| :: messages[i] == LeasequeryData(transactionId, leases[i]))
    && messages[|leases|] == LeasequeryDone(transactionId)
  }

  /** `MessagesList`: the reply with the first lease, and then whatever the generator of the others yields. */
  method BulkMessages(transactionId: bytes, leases: seq<ClientData>) returns (messages: seq<Reply>)
    requires leases != []
    ensures IsBulkAnswer(messages, transactionId, leases)
  {
    var rest := GenerateDataMessages(transactionId, leases[1..]);
    messages := [LeasequeryReply(transactionId, Some(leases[0]))] + rest;
  }

  /**
   `LeasequeryHandler.handle` on a TCP connection. The rows are found in `db`; the generator selects
   their clients when the store is `later`, and reads the leases of each one later still.
   */
  method HandleBulk(db: Db, later: Db, seen: Reads, q: Query, transactionId: bytes, now: int)
    returns (answer: Answer, ghost order: seq<RowId>, ghost leases: seq<ClientData>)
    requires Consistent(db)
    ensures answer.NotHandled? <==> q.kind < 1 || 5 < q.kind
    ensures LacksItsKey(q) ==> answer == ErrorStatus(8)
    ensures 1 <= q.kind <= 5 && !LacksItsKey(q) ==>
              var rows := FindClients(db, q).rows;
              var left := rows * later.clients.Keys;
              if rows == {} then answer == Messages([LeasequeryReply(transactionId, None)])
              else if left == {} then answer == ErrorStatus(11)
              else answer.Messages? && IsBulkAnswer(answer.messages, transactionId, leases)
                   && ListsOnce(order, left) && Reports(leases, order, later, seen, now)
  {
    hide Consistent, Reports, IsBulkAnswer;
    order, leases := [], [];
    var found := FindClients(db, q);
    OtherQueriesFindNothing(db, q);
    hide FindClients;
    match found {
      case Unsupported => return NotHandled, [], [];
      case Malformed => return ErrorStatus(STATUS_MALFORMED_QUERY), [], [];
      case Rows(rows) =>
        if |rows| > 0 {
          var ids, all := GenerateClientData(later, rows, seen, now);
          ListedSize(ids, rows * later.clients.Keys);
          order, leases := ids, all;
          ReportsLength(all, ids, later, seen, now);
          hide ListsOnce;
          if all == [] {
            return ErrorStatus(STATUS_QUERY_TERMINATED), order, leases;
          }
          var messages := BulkMessages(transactionId, all);
          answer := Messages(messages);
        } else {
          answer := Messages([LeasequeryReply(transactionId, None)]);
        }
    }
  }

  lemma ListedSize(order: seq<RowId>, rows: set<RowId>)
    requires ListsOnce(order, rows)
    ensures order == [] <==> rows == {}
  {
  }

  lemma ReportsLength(leases: seq<ClientData>, order: seq<RowId>, db: Db, seen: Reads, now: int)
    requires Reports(leases, order, db, seen, now)
    ensures |leases| == |order|
  {
  }
}
