/**
 The five tables of the lease store, the effect of each transaction on them, and what every
 transaction keeps. A transaction that violates a foreign key is rolled back.
 */
module LeaseTables {
  import opened Bytes
  import E = Exploded

  type RowId = nat

  /** First and last address of a prefix. */
  type Range = (string, string)

  datatype ClientRow = ClientRow(clientId: string, link: string, lastInteraction: int, options: bytes, relayData: bytes)

  /** A row of `addresses` or `prefixes` without its key columns; the lifetimes are deadlines. */
  datatype LeaseRow = LeaseRow(preferredEnd: int, validEnd: int, options: bytes)

  /**
   `clients` by its AUTOINCREMENT id (`nextId` was never handed out), `addresses` by its UNIQUE
   columns (client, address), `prefixes` by (client, range).
   */
  datatype Db = Db(
    clients: map<RowId, ClientRow>,
    nextId: RowId,
    addresses: map<(RowId, string), LeaseRow>,
    prefixes: map<(RowId, Range), LeaseRow>,
    remoteIds: set<(RowId, string)>,
    relayIds: set<(RowId, string)>)

  const EMPTY := Db(map[], 1, map[], map[], {}, {})

  datatype AddressLease = AddressLease(address: E.Address, preferred: nat, valid: nat, options: bytes)

  /** A delegated prefix by its first and last address. */
  datatype PrefixLease = PrefixLease(first: E.Address, last: E.Address, preferred: nat, valid: nat, options: bytes)

  predicate WellOrdered(leases: seq<PrefixLease>) {
    forall l <- leases :: l.first <= l.last
  }

  // ---- What each transaction does -----------------------------------------------------------

  predicate SameClient(row: ClientRow, clientId: string, link: string) {
    row.clientId == clientId && row.link == link
  }

  /** `SELECT id FROM clients WHERE client_id=? AND link_address=?` */
  ghost predicate HasRow(db: Db, clientId: string, link: string) {
    exists id <- db.clients :: SameClient(db.clients[id], clientId, link)
  }

  /** `INSERT INTO clients(client_id, link_address)` */
  function WithNewClient(db: Db, clientId: string, link: string): Db {
    db.(clients := db.clients[db.nextId := ClientRow(clientId, link, -1, [], [])], nextId := db.nextId + 1)
  }

  /** The deadlines of a batch of leases by address text: of two leases of one address the last one counts. */
  function NewAddressRows(leases: seq<AddressLease>, now: int): map<string, LeaseRow> {
    if leases == [] then map[]
    else
      var l := leases[|leases| - 1];
      var earlier := NewAddressRows(leases[..|leases| - 1], now);
      earlier[E.Text(l.address) := LeaseRow(now + l.preferred, now + l.valid, l.options)]
  }

  function NewPrefixRows(leases: seq<PrefixLease>, now: int): map<Range, LeaseRow> {
    if leases == [] then map[]
    else
      var l := leases[|leases| - 1];
      NewPrefixRows(leases[..|leases| - 1], now)
        [(E.Text(l.first), E.Text(l.last)) := LeaseRow(now + l.preferred, now + l.valid, l.options)]
  }

  /** The rows `leased` as rows of `client`. */
  function RowsOf<K(!new)>(client: RowId, leased: map<K, LeaseRow>): (rows: map<(RowId, K), LeaseRow>)
    ensures forall k :: k in rows <==> k.0 == client && k.1 in leased
    ensures forall k <- rows :: rows[k] == leased[k.1]
  {
    var rows := map a <- leased :: (client, a) := leased[a];
    assert forall k: (RowId, K) :: (k.0, k.1) == k;
    rows
  }

  /** The `addresses` table after leasing the rows `leased` to `client`. */
  function LeasedAddresses(rows: map<(RowId, string), LeaseRow>, client: RowId, leased: map<string, LeaseRow>, now: int)
    : map<(RowId, string), LeaseRow>
  {
    (map k <- rows | k.1 !in leased && (k.0 == client ==> rows[k].validEnd >= now) :: rows[k])
    + RowsOf(client, leased)
  }

  /** Two ranges of address texts that share an address: the condition of the DELETE on `prefixes`. */
  predicate Overlap(p: Range, q: Range) {
    E.TextLeq(p.0, q.1) && E.TextLeq(q.0, p.1)
  }

  predicate OverlapsAny(p: Range, leased: set<Range>) {
    exists q <- leased :: Overlap(p, q)
  }

  function LeasedPrefixes(rows: map<(RowId, Range), LeaseRow>, client: RowId, leased: map<Range, LeaseRow>, now: int)
    : map<(RowId, Range), LeaseRow>
  {
    (map k <- rows |
       if k.0 == client then k.1 !in leased && rows[k].validEnd >= now else !OverlapsAny(k.1, leased.Keys) :: rows[k])
    + RowsOf(client, leased)
  }

  function ToSet(ids: seq<string>): set<string> {
    set i <- ids
  }

  /** A table of identifiers after replacing those of `client`. */
  function Replaced(rows: set<(RowId, string)>, client: RowId, ids: set<string>): set<(RowId, string)> {
    (set k <- rows | k.0 != client) + (set i <- ids :: (client, i))
  }

  function Touched(db: Db, client: RowId, now: int, options: bytes, relayData: bytes): map<RowId, ClientRow> {
    if client in db.clients then
      db.clients[client := db.clients[client].(lastInteraction := now, options := options, relayData := relayData)]
    else db.clients
  }

  /**
   The transactions of `remember_lease`, one constructor for each `with self.db` block. The
   UPDATE of `update_last_interaction` opens the transaction that `replace_remote_ids` commits.
   */
  datatype Transaction =
    | TouchAndReplaceRemoteIds(client: RowId, now: int, options: bytes, relayData: bytes, ids: seq<string>)
    | ReplaceRelayIds(client: RowId, ids: seq<string>)
    | UpdateAddresses(client: RowId, addressLeases: seq<AddressLease>, now: int)
    | UpdatePrefixes(client: RowId, prefixLeases: seq<PrefixLease>, now: int)

  /** Inserting a child row of a client that is gone breaks the foreign key. */
  predicate BreaksForeignKey(db: Db, t: Transaction) {
    t.client !in db.clients &&
    match t
    case TouchAndReplaceRemoteIds(_, _, _, _, ids) => ids != []
    case ReplaceRelayIds(_, ids) => ids != []
    case UpdateAddresses(_, leases, _) => leases != []
    case UpdatePrefixes(_, leases, _) => leases != []
  }

  function Apply(db: Db, t: Transaction): Db {
    if BreaksForeignKey(db, t) then db
    else
      match t
      case TouchAndReplaceRemoteIds(client, now, options, relayData, ids) =>
        db.(clients := Touched(db, client, now, options, relayData),
            remoteIds := Replaced(db.remoteIds, client, ToSet(ids)))
      case ReplaceRelayIds(client, ids) => db.(relayIds := Replaced(db.relayIds, client, ToSet(ids)))
      case UpdateAddresses(client, leases, now) =>
        db.(addresses := LeasedAddresses(db.addresses, client, NewAddressRows(leases, now), now))
      case UpdatePrefixes(client, leases, now) =>
        db.(prefixes := LeasedPrefixes(db.prefixes, client, NewPrefixRows(leases, now), now))
  }

  predicate Expired(row: LeaseRow, now: int) { row.preferredEnd < now && row.validEnd < now }

  predicate HasLease(db: Db, client: RowId) {
    (exists k <- db.addresses :: k.0 == client) || (exists k <- db.prefixes :: k.0 == client)
  }

  function WithoutExpired(db: Db, now: int): Db {
    db.(addresses := (map k <- db.addresses | !Expired(db.addresses[k], now) :: db.addresses[k]),
        prefixes := (map k <- db.prefixes | !Expired(db.prefixes[k], now) :: db.prefixes[k]))
  }

  /** Deleting clients without leases, which cascades to their remote and relay identifiers. */
  function WithoutIdle(db: Db): Db {
    var kept := map c <- db.clients | HasLease(db, c) :: db.clients[c];
    db.(clients := kept,
        remoteIds := (set k <- db.remoteIds | k.0 in kept),
        relayIds := (set k <- db.relayIds | k.0 in kept))
  }

  /** The clean-up transaction at start-up. */
  function Cleaned(db: Db, now: int): Db { WithoutIdle(WithoutExpired(db, now)) }

  // ---- What every transaction keeps -----------------------------------------------------------

  ghost predicate ClientsUnique(db: Db) {
    && (forall c <- db.clients :: c < db.nextId)
    && forall c, d |
         c in db.clients && d in db.clients && SameClient(db.clients[c], db.clients[d].clientId, db.clients[d].link) ::
         c == d
  }

  ghost predicate ChildrenHaveClients(db: Db) {
    && (forall k <- db.addresses :: k.0 in db.clients) && (forall k <- db.prefixes :: k.0 in db.clients)
    && (forall k <- db.remoteIds :: k.0 in db.clients) && (forall k <- db.relayIds :: k.0 in db.clients)
  }

  /** A leased address has one owner. */
  ghost predicate OneOwner(rows: map<(RowId, string), LeaseRow>) {
    forall k, l | k in rows && l in rows && k.1 == l.1 :: k.0 == l.0
  }

  /** Prefixes of different clients do not overlap. */
  ghost predicate NoOverlap(rows: map<(RowId, Range), LeaseRow>) {
    forall k, l | k in rows && l in rows && Overlap(k.1, l.1) :: k.0 == l.0
  }

  ghost predicate IsText(s: string) { exists a: E.Address :: s == E.Text(a) }

  ghost predicate IsRange(p: Range) {
    exists a: E.Address, b: E.Address | a <= b :: p == (E.Text(a), E.Text(b))
  }

  ghost predicate Exploded(db: Db) {
    && (forall c <- db.clients :: IsText(db.clients[c].link))
    && (forall k <- db.addresses :: IsText(k.1)) && (forall k <- db.prefixes :: IsRange(k.1))
  }

  ghost predicate Consistent(db: Db) {
    && ClientsUnique(db) && ChildrenHaveClients(db)
    && OneOwner(db.addresses) && NoOverlap(db.prefixes) && Exploded(db)
  }

  lemma EmptyIsConsistent()
    ensures Consistent(EMPTY)
  {
  }

  lemma NewClientKeeps(db: Db, clientId: string, link: E.Address)
    requires Consistent(db) && !HasRow(db, clientId, E.Text(link))
    ensures Consistent(WithNewClient(db, clientId, E.Text(link)))
  {
    hide E.Text;
    assert IsText(E.Text(link));
  }

  lemma {:induction false} NewAddressRowsAreTexts(leases: seq<AddressLease>, now: int)
    ensures forall a <- NewAddressRows(leases, now) :: IsText(a) && NewAddressRows(leases, now)[a].validEnd >= now
    ensures leases == [] <==> NewAddressRows(leases, now) == map[]
  {
    hide E.Text;
    if leases != [] {
      var l := leases[|leases| - 1];
      NewAddressRowsAreTexts(leases[..|leases| - 1], now);
      assert IsText(E.Text(l.address));
      assert E.Text(l.address) in NewAddressRows(leases, now);
    }
  }

  lemma {:induction false} NewPrefixRowsAreRanges(leases: seq<PrefixLease>, now: int)
    requires WellOrdered(leases)
    ensures forall p <- NewPrefixRows(leases, now) :: IsRange(p) && NewPrefixRows(leases, now)[p].validEnd >= now
    ensures leases == [] <==> NewPrefixRows(leases, now) == map[]
  {
    hide E.Text;
    if leases != [] {
      var l := leases[|leases| - 1];
      NewPrefixRowsAreRanges(leases[..|leases| - 1], now);
      assert IsRange((E.Text(l.first), E.Text(l.last)));
      assert (E.Text(l.first), E.Text(l.last)) in NewPrefixRows(leases, now);
    }
  }

  lemma LeasedAddressesKeep(rows: map<(RowId, string), LeaseRow>, client: RowId, leased: map<string, LeaseRow>,
      now: int)
    requires OneOwner(rows)
    ensures OneOwner(LeasedAddresses(rows, client, leased, now))
    ensures forall k <- LeasedAddresses(rows, client, leased, now) :: k in rows || (k.0 == client && k.1 in leased)
  {
  }

  lemma LeasedPrefixesKeep(rows: map<(RowId, Range), LeaseRow>, client: RowId, leased: map<Range, LeaseRow>, now: int)
    requires NoOverlap(rows)
    ensures NoOverlap(LeasedPrefixes(rows, client, leased, now))
    ensures forall k <- LeasedPrefixes(rows, client, leased, now) :: k in rows || (k.0 == client && k.1 in leased)
  {
    var after := LeasedPrefixes(rows, client, leased, now);
    hide E.TextLeq;
    forall k, l | k in after && l in after && Overlap(k.1, l.1)
      ensures k.0 == l.0
    {
      assert Overlap(l.1, k.1);
    }
  }

  /** Every transaction of a worker keeps the store consistent, whatever client row it was started for. */
  lemma ApplyKeeps(db: Db, t: Transaction)
    requires Consistent(db) && (t.UpdatePrefixes? ==> WellOrdered(t.prefixLeases))
    ensures Consistent(Apply(db, t))
  {
    hide OneOwner, NoOverlap, LeasedAddresses, LeasedPrefixes, NewAddressRows;
    hide NewPrefixRows, IsText, IsRange, WellOrdered;
    if t.UpdateAddresses? || t.UpdatePrefixes? {
      hide Consistent;
      if !BreaksForeignKey(db, t) {
        LeasingKeeps(db, t);
      }
    }
  }

  lemma LeasingKeeps(db: Db, t: Transaction)
    requires Consistent(db) && !BreaksForeignKey(db, t) && (t.UpdatePrefixes? ==> WellOrdered(t.prefixLeases))
    requires t.UpdateAddresses? || t.UpdatePrefixes?
    ensures Consistent(Apply(db, t))
  {
    hide OneOwner, NoOverlap, LeasedAddresses, LeasedPrefixes, NewAddressRows;
    hide NewPrefixRows, IsText, IsRange, WellOrdered, ClientsUnique;
    if t.UpdateAddresses? {
      NewAddressRowsAreTexts(t.addressLeases, t.now);
      LeasedAddressesKeep(db.addresses, t.client, NewAddressRows(t.addressLeases, t.now), t.now);
    } else {
      NewPrefixRowsAreRanges(t.prefixLeases, t.now);
      LeasedPrefixesKeep(db.prefixes, t.client, NewPrefixRows(t.prefixLeases, t.now), t.now);
    }
    UniqueStays(db, Apply(db, t));
  }

  lemma UniqueStays(db: Db, after: Db)
    requires ClientsUnique(db) && after.clients == db.clients && after.nextId == db.nextId
    ensures ClientsUnique(after)
  {
  }

  lemma WithoutExpiredKeeps(db: Db, now: int)
    requires Consistent(db)
    ensures Consistent(WithoutExpired(db, now))
  {
    hide IsText, IsRange, Overlap, Expired;
  }

  lemma WithoutIdleKeeps(db: Db)
    requires Consistent(db)
    ensures Consistent(WithoutIdle(db))
  {
    hide IsText, IsRange, OneOwner, NoOverlap;
  }

  lemma CleanedKeeps(db: Db, now: int)
    requires Consistent(db)
    ensures Consistent(Cleaned(db, now))
  {
    WithoutExpiredKeeps(db, now);
    WithoutIdleKeeps(WithoutExpired(db, now));
  }

  // ---- What leasing means for the rows ---------------------------------------------------------

  /**
   After leasing addresses to `client`: each leased address is the client's, with the deadlines
   of its last lease; its other unexpired rows are as before; and another client loses a row
   only to a lease of the same address.
   */
  lemma LeasingAddresses(db: Db, client: RowId, leases: seq<AddressLease>, now: int)
    requires client in db.clients
    ensures var after := Apply(db, UpdateAddresses(client, leases, now)).addresses;
            var leased := NewAddressRows(leases, now);
            && (forall a <- leased :: (client, a) in after && after[(client, a)] == leased[a])
            && (forall a | a !in leased :: (client, a) in after <==>
                 (client, a) in db.addresses && db.addresses[(client, a)].validEnd >= now)
            && (forall c, a | c != client :: (c, a) in after <==> (c, a) in db.addresses && a !in leased)
            && (forall k | k in after && k.1 !in leased :: after[k] == db.addresses[k])
  {
    hide NewAddressRows;
  }

  /** The same for prefixes, where a lease takes away every row of another client that it overlaps. */
  lemma LeasingPrefixes(db: Db, client: RowId, leases: seq<PrefixLease>, now: int)
    requires client in db.clients
    ensures var after := Apply(db, UpdatePrefixes(client, leases, now)).prefixes;
            var leased := NewPrefixRows(leases, now);
            && (forall p <- leased :: (client, p) in after && after[(client, p)] == leased[p])
            && (forall p | p !in leased :: (client, p) in after <==>
                 (client, p) in db.prefixes && db.prefixes[(client, p)].validEnd >= now)
            && (forall c, p | c != client :: (c, p) in after <==> (c, p) in db.prefixes && !OverlapsAny(p, leased.Keys))
            && (forall k | k in after && (k.0 != client || k.1 !in leased) :: after[k] == db.prefixes[k])
  {
    hide NewPrefixRows, OverlapsAny;
  }

  /** The deadline recorded for an address is that of its last lease in the batch. */
  lemma {:induction false} LastLeaseWins(leases: seq<AddressLease>, now: int, i: nat)
    requires i < |leases| && forall j | i < j < |leases| :: leases[j].address != leases[i].address
    ensures E.Text(leases[i].address) in NewAddressRows(leases, now)
    ensures NewAddressRows(leases, now)[E.Text(leases[i].address)]
         == LeaseRow(now + leases[i].preferred, now + leases[i].valid, leases[i].options)
    decreases |leases|
  {
    hide E.Text;
    var n := |leases| - 1;
    if i < n {
      LastLeaseWins(leases[..n], now, i);
      E.TextOrder(leases[i].address, leases[n].address);
    }
  }

  /** Of two leases of one prefix, too, the last one counts. */
  lemma {:induction false} LastPrefixLeaseWins(leases: seq<PrefixLease>, now: int, i: nat)
    requires i < |leases|
    requires forall j | i < j < |leases| :: leases[j].first != leases[i].first || leases[j].last != leases[i].last
    ensures var p := (E.Text(leases[i].first), E.Text(leases[i].last));
            && p in NewPrefixRows(leases, now)
            && NewPrefixRows(leases, now)[p]
                 == LeaseRow(now + leases[i].preferred, now + leases[i].valid, leases[i].options)
    decreases |leases|
  {
    hide E.Text;
    var n := |leases| - 1;
    if i < n {
      LastPrefixLeaseWins(leases[..n], now, i);
      E.TextOrder(leases[i].first, leases[n].first);
      E.TextOrder(leases[i].last, leases[n].last);
    }
  }

  /** The rows that a batch makes are those of its addresses. */
  lemma {:induction false} LeasedIff(leases: seq<AddressLease>, now: int, a: string)
    ensures a in NewAddressRows(leases, now) <==> exists l <- leases :: E.Text(l.address) == a
  {
    hide E.Text;
    if leases != [] {
      var n := |leases| - 1;
      LeasedIff(leases[..n], now, a);
      assert leases == leases[..n] + [leases[n]];
    }
  }

  lemma {:induction false} PrefixLeasedIff(leases: seq<PrefixLease>, now: int, p: Range)
    ensures p in NewPrefixRows(leases, now) <==> exists l <- leases :: (E.Text(l.first), E.Text(l.last)) == p
  {
    hide E.Text;
    if leases != [] {
      var n := |leases| - 1;
      PrefixLeasedIff(leases[..n], now, p);
      assert leases == leases[..n] + [leases[n]];
    }
  }

  /** The client has a lease of which one deadline at least has not passed. */
  ghost predicate HasLeaseLeft(db: Db, client: RowId, now: int) {
    || (exists k <- db.addresses ::
          k.0 == client && (db.addresses[k].preferredEnd >= now || db.addresses[k].validEnd >= now))
    || exists k <- db.prefixes ::
          k.0 == client && (db.prefixes[k].preferredEnd >= now || db.prefixes[k].validEnd >= now)
  }

  /** Exactly the leases past both of their deadlines are gone, and the others are as before. */
  ghost predicate KeepsLeasesLeft<K(!new)>(before: map<K, LeaseRow>, after: map<K, LeaseRow>, now: int) {
    && (forall k :: k in after <==> k in before && (before[k].preferredEnd >= now || before[k].validEnd >= now))
    && (forall k <- after :: after[k] == before[k])
  }

  /** Exactly the clients without such a lease are gone, with all their identifiers. */
  ghost predicate KeepsClientsLeft(before: Db, after: Db, now: int) {
    && (forall c :: c in after.clients <==> c in before.clients && HasLeaseLeft(before, c, now))
    && (forall c <- after.clients :: after.clients[c] == before.clients[c])
    && (forall k :: k in after.remoteIds <==> k in before.remoteIds && k.0 in after.clients)
    && (forall k :: k in after.relayIds <==> k in before.relayIds && k.0 in after.clients)
    && after.nextId == before.nextId
  }

  /** A clean-up takes away exactly the leases past both of their deadlines, and the clients without a lease. */
  lemma CleaningUp(db: Db, now: int)
    ensures var after := Cleaned(db, now);
            && KeepsLeasesLeft(db.addresses, after.addresses, now) && KeepsLeasesLeft(db.prefixes, after.prefixes, now)
            && KeepsClientsLeft(db, after, now)
  {
    var left := WithoutExpired(db, now);
    forall c ensures HasLease(left, c) <==> HasLeaseLeft(db, c, now) {
      if HasLeaseLeft(db, c, now) {
        if k :| k in db.addresses && k.0 == c
                && (db.addresses[k].preferredEnd >= now || db.addresses[k].validEnd >= now) {
          assert k in left.addresses;
        } else {
          var k :| k in db.prefixes && k.0 == c
                   && (db.prefixes[k].preferredEnd >= now || db.prefixes[k].validEnd >= now);
          assert k in left.prefixes;
        }
      }
    }
  }

  /**
   Replacing identifiers leaves exactly the given ones for the client, duplicates or not, and nobody
   else's changed.
   */
  lemma ReplacingIds(rows: set<(RowId, string)>, client: RowId, ids: seq<string>)
    ensures var after := Replaced(rows, client, ToSet(ids));
            && (forall i :: (client, i) in after <==> i in ids)
            && (forall c, i | c != client :: (c, i) in after <==> (c, i) in rows)
  {
  }
}
