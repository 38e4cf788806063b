/**
 Answering identity associations: what the static-assignment handlers and the two "unanswered"
 handlers put into a response, and what they mark as handled, for every kind of request.
 */
module Answers {
  import opened Bytes
  import opened Wire
  import opened Collections
  import opened Statuses

  datatype Kind = Solicit | Request | Confirm | Renew | Rebind | Release | Decline | OtherKind

  /** The request of the client: its class and its options. */
  datatype Query = Query(kind: Kind, options: seq<Option>)

  /** The part of the bundle that handlers change: the response's options and the handled options of the request. */
  datatype State = State(response: seq<Option>, handled: seq<Option>)

  datatype Network = Network(address: Address, length: byte)

  /** A static-assignment handler, with what its `get_assignment` finds for this request. */
  datatype Assigner = Assigner(
    address: Maybe<Address>, addressPreferred: u32, addressValid: u32,
    prefix: Maybe<Network>, prefixPreferred: u32, prefixValid: u32)

  // ---- Options -------------------------------------------------------------------------------

  predicate IsIa(o: Option) { o.Container? && (o.header.IaNa? || o.header.IaTa? || o.header.IaPd?) }

  predicate IsNa(o: Option) { o.Container? && o.header.IaNa? }

  predicate IsPd(o: Option) { o.Container? && o.header.IaPd? }

  /** The class of an identity association and its IAID. */
  type Key = (u16, Iaid)

  function KeyOf(o: Option): Key
    requires IsIa(o)
  {
    (HeaderCode(o.header), o.header.iaid)
  }

  function Keys(options: seq<Option>): seq<Key> {
    if options == [] then [] else (if IsIa(options[0]) then [KeyOf(options[0])] else []) + Keys(options[1..])
  }

  function AddressesIn(options: seq<Option>): seq<Address> {
    if options == [] then []
    else
      match options[0]
      case Container(IaAddress(a, _, _), _) => [a] + AddressesIn(options[1..])
      case _ => AddressesIn(options[1..])
  }

  function PrefixesIn(options: seq<Option>): seq<Network> {
    if options == [] then []
    else
      match options[0]
      case Container(IaPrefix(_, _, length, network), _) => [Network(network, length)] + PrefixesIn(options[1..])
      case _ => PrefixesIn(options[1..])
  }

  function AddressOption(a: Address, preferred: u32, valid: u32): Option {
    Container(IaAddress(a, preferred, valid), [])
  }

  function PrefixOption(p: Network, preferred: u32, valid: u32): Option {
    Container(IaPrefix(preferred, valid, p.length, p.address), [])
  }

  /** `ia_class(option.iaid, options=…)`: the same kind and IAID, no timers. */
  function AnswerTo(o: Option, options: seq<Option>): Option
    requires IsIa(o)
  {
    match o.header
    case IaNa(iaid, _, _) => Container(IaNa(iaid, 0, 0), options)
    case IaTa(iaid) => Container(IaTa(iaid), options)
    case IaPd(iaid, _, _) => Container(IaPd(iaid, 0, 0), options)
  }

  /** `IPv6Network.overlaps`: the shorter of the two prefixes is a prefix of the other. */
  predicate Overlaps(p: Network, q: Network) {
    var length := if p.length < q.length then p.length else q.length;
    var rest := if length <= 128 then 128 - length as int else 0;
    Unpack(p.address) / TwoTo(rest) == Unpack(q.address) / TwoTo(rest)
  }

  predicate OverlapsAny(p: Network, prefixes: seq<Network>) {
    exists q <- prefixes :: Overlaps(p, q)
  }

  // ---- The bundle ----------------------------------------------------------------------------

  function Mark(handled: seq<Option>, o: Option): seq<Option> { if o in handled then handled else handled + [o] }

  function Unhandled(options: seq<Option>, handled: seq<Option>, wanted: Option -> bool): seq<Option> {
    if options == [] then []
    else
      (if wanted(options[0]) && options[0] !in handled then [options[0]] else [])
      + Unhandled(options[1..], handled, wanted)
  }

  const NATA := (o: Option) => IsIa(o) && !IsPd(o)
  const NA := (o: Option) => IsNa(o)
  const PD := (o: Option) => IsPd(o)

  lemma {:induction false} UnhandledExactly(options: seq<Option>, handled: seq<Option>, wanted: Option -> bool)
    ensures forall o :: o in Unhandled(options, handled, wanted) <==> o in options && wanted(o) && o !in handled
  {
    if options != [] {
      UnhandledExactly(options[1..], handled, wanted);
      assert options == [options[0]] + options[1..];
    }
  }

  function Answer(s: State, o: Option, answer: Option): State { State(s.response + [answer], Mark(s.handled, o)) }

  // ---- Static assignment ----------------------------------------------------------------------

  /** `find_iana_option_for_address`: the IA that asks for this address, or else the first one. */
  function FindNa(open: seq<Option>, all: seq<Option>, address: Address): Maybe<Option>
    requires forall o <- open :: IsNa(o)
  {
    if open == [] then if all == [] then None else Some(all[0])
    else
      assert IsNa(open[0]);
      if address in AddressesIn(open[0].options) then Some(open[0]) else FindNa(open[1..], all, address)
  }

  function FindPd(open: seq<Option>, all: seq<Option>, prefix: Network): Maybe<Option>
    requires forall o <- open :: IsPd(o)
  {
    if open == [] then if all == [] then None else Some(all[0])
    else
      assert IsPd(open[0]);
      if prefix in PrefixesIn(open[0].options) then Some(open[0]) else FindPd(open[1..], all, prefix)
  }

  function AssignPrefix(q: Query, s: State, c: Assigner): State {
    if c.prefix.None? then s
    else
      var open := Unhandled(q.options, s.handled, PD);
      UnhandledExactly(q.options, s.handled, PD);
      match FindPd(open, open, c.prefix.value)
      case None => s
      case Some(o) =>
        FoundPd(open, open, c.prefix.value);
        Answer(s, o, AnswerTo(o, [PrefixOption(c.prefix.value, c.prefixPreferred, c.prefixValid)]))
  }

  function AssignAddress(q: Query, s: State, c: Assigner): State {
    if c.address.None? then s
    else
      var open := Unhandled(q.options, s.handled, NA);
      UnhandledExactly(q.options, s.handled, NA);
      match FindNa(open, open, c.address.value)
      case None => s
      case Some(o) =>
        FoundNa(open, open, c.address.value);
        Answer(s, o, AnswerTo(o, [AddressOption(c.address.value, c.addressPreferred, c.addressValid)]))
  }

  lemma {:induction false} FoundNa(open: seq<Option>, all: seq<Option>, address: Address)
    requires forall o <- open :: IsNa(o)
    ensures FindNa(open, all, address).Some? ==> FindNa(open, all, address).value in open + all
    ensures all != [] ==> FindNa(open, all, address).Some?
  {
    if open != [] {
      assert open[0] in open;
      FoundNa(open[1..], all, address);
    }
  }

  lemma {:induction false} FoundPd(open: seq<Option>, all: seq<Option>, prefix: Network)
    requires forall o <- open :: IsPd(o)
    ensures FindPd(open, all, prefix).Some? ==> FindPd(open, all, prefix).value in open + all
    ensures all != [] ==> FindPd(open, all, prefix).Some?
  {
    if open != [] {
      assert open[0] in open;
      FoundPd(open[1..], all, prefix);
    }
  }

  function RenewedAddresses(addresses: seq<Address>, c: Assigner): seq<Option> {
    if addresses == [] then []
    else
      [if Some(addresses[0]) == c.address then AddressOption(addresses[0], c.addressPreferred, c.addressValid)
       else AddressOption(addresses[0], 0, 0)] + RenewedAddresses(addresses[1..], c)
  }

  function RenewedPrefixes(prefixes: seq<Network>, c: Assigner): seq<Option> {
    if prefixes == [] then []
    else
      [if Some(prefixes[0]) == c.prefix then PrefixOption(prefixes[0], c.prefixPreferred, c.prefixValid)
       else PrefixOption(prefixes[0], 0, 0)] + RenewedPrefixes(prefixes[1..], c)
  }

  /** Whether this handler takes responsibility for an IA of a client that renews, releases or declines. */
  predicate Recognises(c: Assigner, o: Option)
    requires IsIa(o)
  {
    match o.header
    case IaNa(_, _, _) => c.address.Some? && c.address.value in AddressesIn(o.options)
    case IaPd(_, _, _) => c.prefix.Some? && OverlapsAny(c.prefix.value, PrefixesIn(o.options))
    case IaTa(_) => false
  }

  function RenewPds(open: seq<Option>, s: State, c: Assigner): State
    requires forall o <- open :: IsPd(o)
  {
    if open == [] then s
    else
      var o := open[0];
      assert IsPd(o);
      var answer := AnswerTo(o, RenewedPrefixes(PrefixesIn(o.options), c));
      RenewPds(open[1..], if Recognises(c, o) then Answer(s, o, answer) else s, c)
  }

  function RenewNas(open: seq<Option>, s: State, c: Assigner): State
    requires forall o <- open :: IsNa(o)
  {
    if open == [] then s
    else
      var o := open[0];
      assert IsNa(o);
      RenewNas(open[1..], Answer(s, o, AnswerTo(o, RenewedAddresses(AddressesIn(o.options), c))), c)
  }

  /** Mark what the handler recognises, without an answer. */
  function MarkRecognised(open: seq<Option>, s: State, c: Assigner): State
    requires forall o <- open :: IsIa(o)
  {
    if open == [] then s
    else MarkRecognised(open[1..], if Recognises(c, open[0]) then s.(handled := Mark(s.handled, open[0])) else s, c)
  }

  /** `StaticAssignmentHandler.handle`. Both lists of open IAs are taken before the first one is answered. */
  function Assigned(q: Query, s: State, c: Assigner): State {
    var nas, pds := Unhandled(q.options, s.handled, NA), Unhandled(q.options, s.handled, PD);
    UnhandledExactly(q.options, s.handled, NA);
    UnhandledExactly(q.options, s.handled, PD);
    match q.kind
    case Solicit => AssignAddress(q, AssignPrefix(q, s, c), c)
    case Request => AssignAddress(q, AssignPrefix(q, s, c), c)
    case Confirm => MarkRecognised(nas, s, c)
    case Renew => RenewNas(nas, RenewPds(pds, s, c), c)
    case Rebind => RenewNas(nas, RenewPds(pds, s, c), c)
    case Release => MarkRecognised(nas, MarkRecognised(pds, s, c), c)
    case Decline => MarkRecognised(nas, MarkRecognised(pds, s, c), c)
    case OtherKind => s
  }

  function AllAssigned(q: Query, s: State, cs: seq<Assigner>): State
    decreases |cs|
  {
    if cs == [] then s else AllAssigned(q, Assigned(q, s, cs[0]), cs[1..])
  }

  // ---- What is left over ------------------------------------------------------------------------

  function Withdrawn(addresses: seq<Address>): seq<Option> {
    if addresses == [] then [] else [AddressOption(addresses[0], 0, 0)] + Withdrawn(addresses[1..])
  }

  function WithdrawnPrefixes(prefixes: seq<Network>): seq<Option> {
    if prefixes == [] then [] else [PrefixOption(prefixes[0], 0, 0)] + WithdrawnPrefixes(prefixes[1..])
  }

  const NOT_ON_LINK := Status(STATUS_NOT_ON_LINK, "Those addresses are not appropriate on this link")

  /** The answer to one left-over IA_NA or IA_TA; `None` when there is nothing to append. */
  function LeftoverAnswer(kind: Kind, o: Option, authoritative: bool): Maybe<Option>
    requires IsIa(o)
  {
    match kind
    case Solicit => Some(AnswerTo(o, [Status(STATUS_NO_ADDRS_AVAIL, "No addresses available")]))
    case Request => Some(AnswerTo(o, [Status(STATUS_NO_ADDRS_AVAIL, "No addresses available")]))
    case Renew =>
      if authoritative then Some(AnswerTo(o, Withdrawn(AddressesIn(o.options))))
      else Some(AnswerTo(o, [Status(STATUS_NO_BINDING, "No addresses assigned to you")]))
    case Rebind => Some(AnswerTo(o, Withdrawn(AddressesIn(o.options))))
    case Release => Some(AnswerTo(o, [Status(STATUS_NO_BINDING, "No addresses assigned to you")]))
    case Decline => Some(AnswerTo(o, [Status(STATUS_NO_BINDING, "No addresses assigned to you")]))
    case Confirm => None
    case OtherKind => None
  }

  function LeftoverPdAnswer(kind: Kind, o: Option): Maybe<Option>
    requires IsIa(o)
  {
    match kind
    case Solicit => Some(AnswerTo(o, [Status(STATUS_NO_PREFIX_AVAIL, "No prefixes available")]))
    case Request => Some(AnswerTo(o, [Status(STATUS_NO_PREFIX_AVAIL, "No prefixes available")]))
    case Renew => Some(AnswerTo(o, [Status(STATUS_NO_BINDING, "No prefixes assigned to you")]))
    case Rebind => Some(AnswerTo(o, WithdrawnPrefixes(PrefixesIn(o.options))))
    case Release => Some(AnswerTo(o, [Status(STATUS_NO_BINDING, "No prefixes assigned to you")]))
    case Decline => None
    case Confirm => None
    case OtherKind => None
  }

  /** Only an authoritative server may reject a Confirm or a Rebind; another one does not respond. */
  predicate MustStaySilent(kind: Kind, open: seq<Option>, pds: seq<Option>, authoritative: bool) {
    !authoritative && ((kind.Confirm? && open != []) || (kind.Rebind? && open + pds != []))
  }

  function LeftoverNaTa(kind: Kind, open: seq<Option>, response: seq<Option>, authoritative: bool): seq<Option>
    requires forall o <- open :: IsIa(o)
    decreases |open|
  {
    if open == [] then response
    else
      var next := if kind.Confirm? then ForceFrom(response, 0, NOT_ON_LINK)
                  else
                    match LeftoverAnswer(kind, open[0], authoritative)
                    case None => response
                    case Some(a) => response + [a];
      LeftoverNaTa(kind, open[1..], next, authoritative)
  }

  function LeftoverPds(kind: Kind, open: seq<Option>, response: seq<Option>): seq<Option>
    requires forall o <- open :: IsIa(o)
    decreases |open|
  {
    if open == [] then response
    else
      var next := match LeftoverPdAnswer(kind, open[0]) case None => response case Some(a) => response + [a];
      LeftoverPds(kind, open[1..], next)
  }

  function SuccessText(kind: Kind): string {
    if kind.Confirm? then "Assignments confirmed"
    else if kind.Release? then "Thank you for releasing your resources"
    else "Our apologies for assigning you unusable addresses"
  }

  /** `AddMissingStatusOptionHandler.handle` */
  function WithStatus(kind: Kind, response: seq<Option>): seq<Option> {
    if (kind.Confirm? || kind.Release? || kind.Decline?) && StatusesOf(response) == []
    then response + [Status(STATUS_SUCCESS, SuccessText(kind))] else response
  }

  /** `init_response` answers a Confirm only if some IA in it contains an address or a prefix. */
  predicate HasResponse(q: Query) {
    q.kind.Confirm? ==>
        exists o <- q.options :: IsIa(o) && (AddressesIn(o.options) != [] || PrefixesIn(o.options) != [])
  }

  /** The response after all handlers, starting from `start`; `None` when the server must not respond. */
  function Answered(q: Query, start: seq<Option>, cs: seq<Assigner>, authoritative: bool): Maybe<seq<Option>> {
    var s := AllAssigned(q, State(start, []), cs);
    var open, pds := Unhandled(q.options, s.handled, NATA), Unhandled(q.options, s.handled, PD);
    UnhandledExactly(q.options, s.handled, NATA);
    UnhandledExactly(q.options, s.handled, PD);
    if !HasResponse(q) || MustStaySilent(q.kind, open, pds, authoritative) then None
    else Some(WithStatus(q.kind, LeftoverPds(q.kind, pds, LeftoverNaTa(q.kind, open, s.response, authoritative))))
  }
}
