/**
 The handlers themselves: loops that append to the response of a bundle and mark options as
 handled, proved to compute what `Answers` says.
 */
module AnswerLoops {
  import opened Wire
  import opened Collections
  import opened Statuses
  import opened Answers
  import opened AnswersProof

  class Bundle {
    const query: Query
    var response: seq<Option>
    var handled: seq<Option>

    constructor (query: Query, start: seq<Option>)
      ensures this.query == query && response == start && handled == []
    {
      this.query := query;
      response, handled := start, [];
    }

    function Now(): State
      reads this
    {
      State(response, handled)
    }

    method MarkHandled(o: Option)
      modifies this`handled
      ensures handled == Mark(old(handled), o)
      ensures forall p :: p in handled <==> p in old(handled) || p == o
      ensures old(handled) <= handled && (AllDistinct(old(handled)) ==> AllDistinct(handled))
    {
      if o !in handled {
        handled := handled + [o];
      }
    }

    method GetUnhandledOptions(wanted: Option -> bool) returns (open: seq<Option>)
      ensures open == Unhandled(query.options, handled, wanted)
      ensures forall o <- open :: wanted(o)
    {
      open := [];
      for i := 0 to |query.options|
        invariant open + Unhandled(query.options[i..], handled, wanted) == Unhandled(query.options, handled, wanted)
      {
        var o := query.options[i];
        assert query.options[i..][1..] == query.options[i + 1..];
        var rest := Unhandled(query.options[i + 1..], handled, wanted);
        if wanted(o) && o !in handled {
          assert open + ([o] + rest) == (open + [o]) + rest;
          open := open + [o];
        } else {
          assert [] + rest == rest;
        }
      }
      assert open + [] == open;
      UnhandledExactly(query.options, handled, wanted);
    }
  }

  // ---- StaticAssignmentHandler -----------------------------------------------------------------

  method FindIaNaForAddress(open: seq<Option>, address: Address) returns (found: Maybe<Option>)
    requires forall o <- open :: IsNa(o)
    ensures found == FindNa(open, open, address)
    ensures found.Some? ==> found.value in open
  {
    FoundNa(open, open, address);
    for i := 0 to |open|
      invariant FindNa(open, open, address) == FindNa(open[i..], open, address)
    {
      assert IsNa(open[i]) && open[i..][0] == open[i] && open[i..][1..] == open[i + 1..];
      if address in AddressesIn(open[i].options) {
        return Some(open[i]);
      }
    }
    return if open == [] then None else Some(open[0]);
  }

  method FindIaPdForPrefix(open: seq<Option>, prefix: Network) returns (found: Maybe<Option>)
    requires forall o <- open :: IsPd(o)
    ensures found == FindPd(open, open, prefix)
    ensures found.Some? ==> found.value in open
  {
    FoundPd(open, open, prefix);
    for i := 0 to |open|
      invariant FindPd(open, open, prefix) == FindPd(open[i..], open, prefix)
    {
      assert IsPd(open[i]) && open[i..][0] == open[i] && open[i..][1..] == open[i + 1..];
      if prefix in PrefixesIn(open[i].options) {
        return Some(open[i]);
      }
    }
    return if open == [] then None else Some(open[0]);
  }

  method HandleRequest(b: Bundle, c: Assigner)
    modifies b
    ensures b.Now() == AssignAddress(b.query, AssignPrefix(b.query, old(b.Now()), c), c)
  {
    hide FindNa, FindPd, Unhandled, Mark;
    if c.prefix.Some? {
      var open := b.GetUnhandledOptions(PD);
      var found := FindIaPdForPrefix(open, c.prefix.value);
      if found.Some? {
        b.response := b.response
            + [AnswerTo(found.value, [PrefixOption(c.prefix.value, c.prefixPreferred, c.prefixValid)])];
        b.MarkHandled(found.value);
      }
    }
    assert b.Now() == AssignPrefix(b.query, old(b.Now()), c);
    if c.address.Some? {
      var open := b.GetUnhandledOptions(NA);
      var found := FindIaNaForAddress(open, c.address.value);
      if found.Some? {
        b.response := b.response
            + [AnswerTo(found.value, [AddressOption(c.address.value, c.addressPreferred, c.addressValid)])];
        b.MarkHandled(found.value);
      }
    }
  }

  method HandleConfirm(b: Bundle, c: Assigner)
    modifies b`handled
    ensures var open := Unhandled(b.query.options, old(b.handled), NA);
            (forall o <- open :: IsIa(o)) && b.Now() == MarkRecognised(open, old(b.Now()), c)
  {
    UnhandledExactly(b.query.options, b.handled, NA);
    var open := b.GetUnhandledOptions(NA);
    MarkOpen(b, open, c);
  }

  /** Both loops of `handle_release_decline`, and that of `handle_confirm`, mark what they recognise. */
  method MarkOpen(b: Bundle, open: seq<Option>, c: Assigner)
    requires forall o <- open :: IsIa(o)
    modifies b`handled
    ensures b.Now() == MarkRecognised(open, old(b.Now()), c)
  {
    hide Recognises, Mark;
    for i := 0 to |open|
      invariant MarkRecognised(open, old(b.Now()), c) == MarkRecognised(open[i..], b.Now(), c)
    {
      assert IsIa(open[i]) && open[i..][0] == open[i] && open[i..][1..] == open[i + 1..];
      if Recognises(c, open[i]) {
        b.MarkHandled(open[i]);
      }
    }
  }

  /** One more option of an IA: an address is put in front of the rest, anything else passed over. */
  lemma NextAddress(options: seq<Option>, i: nat, c: Assigner)
    requires i < |options|
    ensures var rest := RenewedAddresses(AddressesIn(options[i + 1..]), c);
            RenewedAddresses(AddressesIn(options[i..]), c) ==
              match options[i]
              case Container(IaAddress(a, _, _), _) =>
                [if Some(a) == c.address then AddressOption(a, c.addressPreferred, c.addressValid)
                 else AddressOption(a, 0, 0)] + rest
              case _ => rest
  {
    hide AddressOption;
    assert options[i..][0] == options[i] && options[i..][1..] == options[i + 1..];
    match options[i] {
      case Container(IaAddress(a, _, _), _) => assert AddressesIn(options[i..])[1..] == AddressesIn(options[i + 1..]);
      case _ =>
    }
  }

  lemma NextPrefix(options: seq<Option>, i: nat, c: Assigner)
    requires i < |options|
    ensures var rest := RenewedPrefixes(PrefixesIn(options[i + 1..]), c);
            RenewedPrefixes(PrefixesIn(options[i..]), c) ==
              match options[i]
              case Container(IaPrefix(_, _, length, network), _) =>
                var p := Network(network, length);
                [if Some(p) == c.prefix then PrefixOption(p, c.prefixPreferred, c.prefixValid)
                 else PrefixOption(p, 0, 0)] + rest
              case _ => rest
  {
    hide PrefixOption;
    assert options[i..][0] == options[i] && options[i..][1..] == options[i + 1..];
    match options[i] {
      case Container(IaPrefix(_, _, _, _), _) => assert PrefixesIn(options[i..])[1..] == PrefixesIn(options[i + 1..]);
      case _ =>
    }
  }

  lemma NothingToRenew(options: seq<Option>, c: Assigner)
    ensures options[0..] == options
    ensures RenewedAddresses(AddressesIn(options[|options|..]), c) == []
    ensures RenewedPrefixes(PrefixesIn(options[|options|..]), c) == []
  {
  }

  method RenewAddresses(options: seq<Option>, c: Assigner) returns (suboptions: seq<Option>)
    ensures suboptions == RenewedAddresses(AddressesIn(options), c)
  {
    hide RenewedAddresses, AddressesIn, AddressOption;
    NothingToRenew(options, c);
    suboptions := [];
    for i := 0 to |options|
      invariant suboptions + RenewedAddresses(AddressesIn(options[i..]), c) == RenewedAddresses(AddressesIn(options), c)
    {
      NextAddress(options, i, c);
      ghost var rest := RenewedAddresses(AddressesIn(options[i + 1..]), c);
      match options[i] {
        case Container(IaAddress(a, _, _), _) =>
          var renewed := if Some(a) == c.address then AddressOption(a, c.addressPreferred, c.addressValid)
                         else AddressOption(a, 0, 0);
          Associative(suboptions, [renewed], rest);
          suboptions := suboptions + [renewed];
        case _ =>
      }
    }
    assert suboptions + [] == suboptions;
  }

  method RenewPrefixes(options: seq<Option>, c: Assigner) returns (suboptions: seq<Option>)
    ensures suboptions == RenewedPrefixes(PrefixesIn(options), c)
  {
    hide RenewedPrefixes, PrefixesIn, PrefixOption;
    NothingToRenew(options, c);
    suboptions := [];
    for i := 0 to |options|
      invariant suboptions + RenewedPrefixes(PrefixesIn(options[i..]), c) == RenewedPrefixes(PrefixesIn(options), c)
    {
      NextPrefix(options, i, c);
      ghost var rest := RenewedPrefixes(PrefixesIn(options[i + 1..]), c);
      match options[i] {
        case Container(IaPrefix(_, _, length, network), _) =>
          var p := Network(network, length);
          var renewed := if Some(p) == c.prefix then PrefixOption(p, c.prefixPreferred, c.prefixValid)
                         else PrefixOption(p, 0, 0);
          Associative(suboptions, [renewed], rest);
          suboptions := suboptions + [renewed];
        case _ =>
      }
    }
    assert suboptions + [] == suboptions;
  }

  method HandleRenewRebind(b: Bundle, c: Assigner)
    modifies b
    ensures var q, s := b.query, old(b.Now());
            && (forall o <- Unhandled(q.options, s.handled, PD) :: IsPd(o))
            && (forall o <- Unhandled(q.options, s.handled, NA) :: IsNa(o))
            && b.Now() == RenewNas(Unhandled(q.options, s.handled, NA),
                 RenewPds(Unhandled(q.options, s.handled, PD), s, c), c)
  {
    hide Recognises, Mark, Unhandled, RenewedAddresses, RenewedPrefixes;
    var nas := b.GetUnhandledOptions(NA);
    var pds := b.GetUnhandledOptions(PD);
    forall o | o in nas ensures IsNa(o) { assert NA(o); }
    forall o | o in pds ensures IsPd(o) { assert PD(o); }
    for i := 0 to |pds|
      invariant RenewPds(pds, old(b.Now()), c) == RenewPds(pds[i..], b.Now(), c)
    {
      assert IsPd(pds[i]) && pds[i..][0] == pds[i] && pds[i..][1..] == pds[i + 1..];
      if Recognises(c, pds[i]) {
        var suboptions := RenewPrefixes(pds[i].options, c);
        b.response := b.response + [AnswerTo(pds[i], suboptions)];
        b.MarkHandled(pds[i]);
      }
    }
    ghost var middle := b.Now();
    for i := 0 to |nas|
      invariant RenewNas(nas, middle, c) == RenewNas(nas[i..], b.Now(), c)
    {
      assert IsNa(nas[i]) && nas[i..][0] == nas[i] && nas[i..][1..] == nas[i + 1..];
      var suboptions := RenewAddresses(nas[i].options, c);
      b.response := b.response + [AnswerTo(nas[i], suboptions)];
      b.MarkHandled(nas[i]);
    }
  }

  method HandleReleaseDecline(b: Bundle, c: Assigner)
    modifies b`handled
    ensures var q, s := b.query, old(b.Now());
            && (forall o <- Unhandled(q.options, s.handled, PD) :: IsIa(o))
            && (forall o <- Unhandled(q.options, s.handled, NA) :: IsIa(o))
            && b.Now() == MarkRecognised(Unhandled(q.options, s.handled, NA),
                 MarkRecognised(Unhandled(q.options, s.handled, PD), s, c), c)
  {
    hide MarkRecognised, Unhandled;
    var nas := b.GetUnhandledOptions(NA);
    var pds := b.GetUnhandledOptions(PD);
    MarkOpen(b, pds, c);
    MarkOpen(b, nas, c);
  }

  /** `StaticAssignmentHandler.handle` */
  method HandleStaticAssignment(b: Bundle, c: Assigner)
    modifies b
    ensures b.Now() == Assigned(b.query, old(b.Now()), c)
  {
    hide AssignAddress, AssignPrefix, RenewNas, RenewPds, MarkRecognised, Unhandled;
    match b.query.kind {
      case Solicit => HandleRequest(b, c);
      case Request => HandleRequest(b, c);
      case Confirm => HandleConfirm(b, c);
      case Renew => HandleRenewRebind(b, c);
      case Rebind => HandleRenewRebind(b, c);
      case Release => HandleReleaseDecline(b, c);
      case Decline => HandleReleaseDecline(b, c);
      case OtherKind =>
    }
  }

  // ---- The handlers for what is left over ---------------------------------------------------------

  /** `UnansweredIAOptionHandler.handle`; `false` when it raises `CannotRespondError`. */
  method HandleUnansweredIa(b: Bundle, authoritative: bool) returns (ok: bool)
    modifies b`response
    ensures var open := Unhandled(b.query.options, b.handled, NATA);
            && (forall o <- open :: IsIa(o))
            && ok == !MustStaySilent(b.query.kind, open, [], authoritative)
            && (ok ==> b.response == LeftoverNaTa(b.query.kind, open, old(b.response), authoritative))
  {
    hide Unhandled, LeftoverAnswer, ForceFrom;
    var open := b.GetUnhandledOptions(NATA);
    forall o | o in open ensures IsIa(o) { assert NATA(o); }
    var kind := b.query.kind;
    for i := 0 to |open|
      invariant !MustStaySilent(kind, open, [], authoritative) || i == 0
      invariant LeftoverNaTa(kind, open, old(b.response), authoritative)
          == LeftoverNaTa(kind, open[i..], b.response, authoritative)
    {
      assert IsIa(open[i]) && open[i..][0] == open[i] && open[i..][1..] == open[i + 1..];
      if !authoritative && (kind.Confirm? || kind.Rebind?) {
        return false;
      }
      if kind.Confirm? {
        b.response := ForceStatus(b.response, NOT_ON_LINK);
      } else {
        var answer := LeftoverAnswer(kind, open[i], authoritative);
        if answer.Some? {
          b.response := b.response + [answer.value];
        }
      }
    }
    return true;
  }

  /** `UnansweredIAPDOptionHandler.handle` */
  method HandleUnansweredPd(b: Bundle, authoritative: bool) returns (ok: bool)
    modifies b`response
    ensures var open := Unhandled(b.query.options, b.handled, PD);
            && (forall o <- open :: IsIa(o))
            && ok == (authoritative || !b.query.kind.Rebind? || open == [])
            && (ok ==> b.response == LeftoverPds(b.query.kind, open, old(b.response)))
  {
    hide Unhandled, LeftoverPdAnswer;
    var open := b.GetUnhandledOptions(PD);
    forall o | o in open ensures IsIa(o) { assert PD(o); }
    var kind := b.query.kind;
    for i := 0 to |open|
      invariant authoritative || !kind.Rebind? || i == 0
      invariant LeftoverPds(kind, open, old(b.response)) == LeftoverPds(kind, open[i..], b.response)
    {
      assert IsIa(open[i]) && open[i..][0] == open[i] && open[i..][1..] == open[i + 1..];
      if !authoritative && kind.Rebind? {
        return false;
      }
      var answer := LeftoverPdAnswer(kind, open[i]);
      if answer.Some? {
        b.response := b.response + [answer.value];
      }
    }
    return true;
  }

  predicate NeedsStatus(kind: Kind) { kind.Confirm? || kind.Release? || kind.Decline? }

  /**
   `AddMissingStatusOptionHandler.handle`: afterwards a Confirm, Release or Decline has a status, and
   the response is otherwise what it was, its identity associations included.
   */
  method AddMissingStatus(b: Bundle)
    modifies b`response
    ensures b.response == WithStatus(b.query.kind, old(b.response))
    ensures NeedsStatus(b.query.kind) ==> StatusesOf(b.response) != []
    ensures old(b.response) <= b.response && |StatusesOf(b.response)| <= |StatusesOf(old(b.response))| + 1
    ensures !NeedsStatus(b.query.kind) || StatusesOf(old(b.response)) != [] ==> b.response == old(b.response)
    ensures Keys(b.response) == Keys(old(b.response))
  {
    var kind := b.query.kind;
    WithStatusKeys(kind, b.response);
    StatusAppended(b.response, Status(STATUS_SUCCESS, SuccessText(kind)));
    if !NeedsStatus(kind) {
      return;
    }
    if StatusesOf(b.response) == [] {
      b.response := b.response + [Status(STATUS_SUCCESS, SuccessText(kind))];
    }
  }

  lemma StatusAppended(response: seq<Option>, status: Option)
    requires IsStatus(status)
    ensures StatusesOf(response + [status]) == StatusesOf(response) + [status]
  {
    StatusesConcat(response, [status]);
    assert [status][1..] == [];
  }

  /** The handle phase of `MessageHandler.handle`, from the initialised response to the final one. */
  method Process(query: Query, start: seq<Option>, cs: seq<Assigner>, authoritative: bool)
    returns (response: Maybe<seq<Option>>)
    ensures response == Answered(query, start, cs, authoritative)
  {
    hide Assigned, Unhandled, LeftoverNaTa, LeftoverPds, WithStatus;
    if !HasResponse(query) {
      return None;
    }
    var b := new Bundle(query, start);
    for i := 0 to |cs|
      invariant AllAssigned(query, State(start, []), cs) == AllAssigned(query, b.Now(), cs[i..])
      invariant b.query == query && fresh(b)
    {
      assert cs[i..][0] == cs[i] && cs[i..][1..] == cs[i + 1..];
      HandleStaticAssignment(b, cs[i]);
    }
    var ok := HandleUnansweredIa(b, authoritative);
    if !ok {
      return None;
    }
    ok := HandleUnansweredPd(b, authoritative);
    if !ok {
      return None;
    }
    AddMissingStatus(b);
    return Some(b.response);
  }
}
