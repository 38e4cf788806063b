/**
 What one assigning handler gives and takes on, in terms of the options themselves, and that it reaches
 the client whatever the handlers before and after it do.
 */
module AnswersGiven {
  import opened Wire
  import opened Collections
  import opened Answers
  import opened AnswersByKind
  import opened AnswersGrant
  import opened AnswersExactly
  import opened AnswersHeld

  // ---- Solicit and Request ------------------------------------------------------------------------------

  predicate OpenNa(s: State, o: Option) { AsNa(o) && o !in s.handled }

  predicate OpenPd(s: State, o: Option) { AsPd(o) && o !in s.handled }

  predicate AsksAddress(s: State, o: Option, a: Address) { OpenNa(s, o) && HoldsAddress(o, a) }

  predicate AsksPrefix(s: State, o: Option, p: Network) { OpenPd(s, o) && HoldsPrefix(o, p) }

  /** The first open IA_NA that asks for the address or, if none does, the first open one. */
  ghost predicate TakesAddress(options: seq<Option>, s: State, i: nat, a: Address) {
    && i < |options| && OpenNa(s, options[i])
    && if exists o <- options :: AsksAddress(s, o, a)
       then AsksAddress(s, options[i], a) && forall j: nat | j < i :: !AsksAddress(s, options[j], a)
       else forall j: nat | j < i :: !OpenNa(s, options[j])
  }

  ghost predicate TakesPrefix(options: seq<Option>, s: State, i: nat, p: Network) {
    && i < |options| && OpenPd(s, options[i])
    && if exists o <- options :: AsksPrefix(s, o, p)
       then AsksPrefix(s, options[i], p) && forall j: nat | j < i :: !AsksPrefix(s, options[j], p)
       else forall j: nat | j < i :: !OpenPd(s, options[j])
  }

  /** The address goes to one IA_NA with the lifetimes of the handler, and that IA_NA is marked. */
  ghost predicate GivesAddress(q: Query, s: State, t: State, c: Assigner) {
    if c.address.None? || forall o <- q.options :: !OpenNa(s, o) then t == s
    else
      exists i: nat | TakesAddress(q.options, s, i, c.address.value) ::
        && t.handled == s.handled + [q.options[i]]
        && t.response == s.response + [Container(IaNa(q.options[i].header.iaid, 0, 0),
             [Container(IaAddress(c.address.value, c.addressPreferred, c.addressValid), [])])]
  }

  ghost predicate GivesPrefix(q: Query, s: State, t: State, c: Assigner) {
    if c.prefix.None? || forall o <- q.options :: !OpenPd(s, o) then t == s
    else
      exists i: nat | TakesPrefix(q.options, s, i, c.prefix.value) ::
        && t.handled == s.handled + [q.options[i]]
        && var p := c.prefix.value;
        && t.response == s.response + [Container(IaPd(q.options[i].header.iaid, 0, 0),
             [Container(IaPrefix(c.prefixPreferred, c.prefixValid, p.length, p.address), [])])]
  }

  /** The first of `options` that is open, in the filtered list and in the whole one. */
  lemma {:induction false} FirstOpen(options: seq<Option>, handled: seq<Option>, wanted: Option -> bool)
    returns (i: nat)
    requires Unhandled(options, handled, wanted) != []
    ensures i < |options| && options[i] == Unhandled(options, handled, wanted)[0]
    ensures wanted(options[i]) && options[i] !in handled
    ensures forall j: nat | j < i :: !(wanted(options[j]) && options[j] !in handled)
  {
    if wanted(options[0]) && options[0] !in handled {
      i := 0;
    } else {
      i := FirstOpen(options[1..], handled, wanted);
      i := i + 1;
    }
  }

  lemma NaStep(options: seq<Option>, s: State, all: seq<Option>, a: Address)
    requires options != [] && (forall o <- Unhandled(options, s.handled, NA) :: IsNa(o))
    requires forall o <- Unhandled(options[1..], s.handled, NA) :: IsNa(o)
    ensures FindNa(Unhandled(options, s.handled, NA), all, a)
         == if AsksAddress(s, options[0], a) then Some(options[0])
            else FindNa(Unhandled(options[1..], s.handled, NA), all, a)
  {
    hide HoldsAddress;
    var open, rest := Unhandled(options, s.handled, NA), Unhandled(options[1..], s.handled, NA);
    if OpenNa(s, options[0]) {
      HoldsAddressIff(options[0], a);
      assert open[0] == options[0] && open[1..] == rest;
    } else {
      assert open == rest;
    }
  }

  /** The search finds the first asking one in the whole list, or falls back to `all`. */
  lemma {:induction false} AskingNa(options: seq<Option>, s: State, all: seq<Option>, a: Address) returns (i: nat)
    requires forall o <- Unhandled(options, s.handled, NA) :: IsNa(o)
    ensures var found := FindNa(Unhandled(options, s.handled, NA), all, a);
            if i < |options|
            then found == Some(options[i]) && AsksAddress(s, options[i], a)
                 && forall j: nat | j < i :: !AsksAddress(s, options[j], a)
            else (forall o <- options :: !AsksAddress(s, o, a))
                 && found == if all == [] then None else Some(all[0])
  {
    hide AsksAddress;
    i := 0;
    if options != [] {
      UnhandledExactly(options[1..], s.handled, NA);
      NaStep(options, s, all, a);
      hide FindNa, Unhandled;
      if !AsksAddress(s, options[0], a) {
        i := AskingNa(options[1..], s, all, a);
        i := i + 1;
        assert options == [options[0]] + options[1..];
      }
    }
  }

  lemma PdStep(options: seq<Option>, s: State, all: seq<Option>, p: Network)
    requires options != [] && (forall o <- Unhandled(options, s.handled, PD) :: IsPd(o))
    requires forall o <- Unhandled(options[1..], s.handled, PD) :: IsPd(o)
    ensures FindPd(Unhandled(options, s.handled, PD), all, p)
         == if AsksPrefix(s, options[0], p) then Some(options[0])
            else FindPd(Unhandled(options[1..], s.handled, PD), all, p)
  {
    hide HoldsPrefix;
    var open, rest := Unhandled(options, s.handled, PD), Unhandled(options[1..], s.handled, PD);
    if OpenPd(s, options[0]) {
      HoldsPrefixIff(options[0], p);
      assert open[0] == options[0] && open[1..] == rest;
    } else {
      assert open == rest;
    }
  }

  /** The search finds the first asking one in the whole list, or falls back to `all`. */
  lemma {:induction false} AskingPd(options: seq<Option>, s: State, all: seq<Option>, p: Network) returns (i: nat)
    requires forall o <- Unhandled(options, s.handled, PD) :: IsPd(o)
    ensures var found := FindPd(Unhandled(options, s.handled, PD), all, p);
            if i < |options|
            then found == Some(options[i]) && AsksPrefix(s, options[i], p)
                 && forall j: nat | j < i :: !AsksPrefix(s, options[j], p)
            else (forall o <- options :: !AsksPrefix(s, o, p))
                 && found == if all == [] then None else Some(all[0])
  {
    hide AsksPrefix;
    i := 0;
    if options != [] {
      UnhandledExactly(options[1..], s.handled, PD);
      PdStep(options, s, all, p);
      hide FindPd, Unhandled;
      if !AsksPrefix(s, options[0], p) {
        i := AskingPd(options[1..], s, all, p);
        i := i + 1;
        assert options == [options[0]] + options[1..];
      }
    }
  }

  lemma HoldsAddressIff(o: Option, a: Address)
    requires o.Container?
    ensures HoldsAddress(o, a) <==> a in AddressesIn(o.options)
  {
    AddressesHeld(o.options, a);
  }

  lemma HoldsPrefixIff(o: Option, p: Network)
    requires o.Container?
    ensures HoldsPrefix(o, p) <==> p in PrefixesIn(o.options)
  {
    PrefixesHeld(o.options, p);
  }

  lemma AddressIsGiven(q: Query, s: State, c: Assigner)
    ensures GivesAddress(q, s, AssignAddress(q, s, c), c)
  {
    hide HoldsAddress, Unhandled, FindNa;
    if c.address.Some? {
      var a, open := c.address.value, Unhandled(q.options, s.handled, NA);
      UnhandledExactly(q.options, s.handled, NA);
      var i := AskingNa(q.options, s, open, a);
      HeadIsMember(open);
      assert forall o <- q.options :: OpenNa(s, o) ==> o in open;
      if open != [] {
        if i >= |q.options| {
          i := FirstOpen(q.options, s.handled, NA);
        }
        assert TakesAddress(q.options, s, i, a);
      }
    }
  }

  lemma PrefixIsGiven(q: Query, s: State, c: Assigner)
    ensures GivesPrefix(q, s, AssignPrefix(q, s, c), c)
  {
    hide HoldsPrefix, Unhandled, FindPd;
    if c.prefix.Some? {
      var p, open := c.prefix.value, Unhandled(q.options, s.handled, PD);
      UnhandledExactly(q.options, s.handled, PD);
      var i := AskingPd(q.options, s, open, p);
      HeadIsMember(open);
      assert forall o <- q.options :: OpenPd(s, o) ==> o in open;
      if open != [] {
        if i >= |q.options| {
          i := FirstOpen(q.options, s.handled, PD);
        }
        assert TakesPrefix(q.options, s, i, p);
      }
    }
  }

  /** A handler first gives its prefix to one open IA_PD, and then its address to one open IA_NA. */
  lemma AssignmentIsExact(q: Query, s: State, c: Assigner)
    requires q.kind == Solicit || q.kind == Request
    ensures exists mid :: GivesPrefix(q, s, mid, c) && GivesAddress(q, mid, Assigned(q, s, c), c)
  {
    hide GivesPrefix, GivesAddress, AssignPrefix, AssignAddress;
    var mid := AssignPrefix(q, s, c);
    PrefixIsGiven(q, s, c);
    AddressIsGiven(q, mid, c);
  }

  // ---- Renew and Rebind ------------------------------------------------------------------------------------

  /** The addresses that `o` holds, in order: the handler's own with its lifetimes, the others withdrawn. */
  predicate RenewsAddresses(answer: Option, o: Option, c: Assigner) {
    && AsNa(o) && var held := AddressesIn(o.options);
    && answer.Container? && answer.header == IaNa(o.header.iaid, 0, 0) && |answer.options| == |held|
    && forall i: nat | i < |held| ::
         answer.options[i] == Container(if c.address == Some(held[i])
                                        then IaAddress(held[i], c.addressPreferred, c.addressValid)
                                        else IaAddress(held[i], 0, 0), [])
  }

  predicate RenewsPrefixes(answer: Option, o: Option, c: Assigner) {
    && AsPd(o) && var held := PrefixesIn(o.options);
    && answer.Container? && answer.header == IaPd(o.header.iaid, 0, 0) && |answer.options| == |held|
    && forall i: nat | i < |held| ::
         answer.options[i] == Container(if c.prefix == Some(held[i])
                                        then IaPrefix(c.prefixPreferred, c.prefixValid, held[i].length, held[i].address)
                                        else IaPrefix(0, 0, held[i].length, held[i].address), [])
  }

  lemma {:induction false} RenewedPrefixesAt(prefixes: seq<Network>, c: Assigner, i: nat)
    requires i < |prefixes|
    ensures |RenewedPrefixes(prefixes, c)| == |prefixes|
    ensures RenewedPrefixes(prefixes, c)[i]
         == PrefixOption(prefixes[i], if c.prefix == Some(prefixes[i]) then c.prefixPreferred else 0,
                         if c.prefix == Some(prefixes[i]) then c.prefixValid else 0)
  {
    var rest := prefixes[1..];
    assert RenewedPrefixes(prefixes, c)[1..] == RenewedPrefixes(rest, c);
    if rest != [] {
      RenewedPrefixesAt(rest, c, if i == 0 then 0 else i - 1);
    }
  }

  lemma AddressesAreRenewed(o: Option, c: Assigner)
    requires AsNa(o)
    ensures RenewsAddresses(AnswerTo(o, RenewedAddresses(AddressesIn(o.options), c)), o, c)
  {
    var held := AddressesIn(o.options);
    hide AddressesIn, RenewedAddresses;
    forall i: nat | i < |held|
      ensures |RenewedAddresses(held, c)| == |held|
      ensures RenewedAddresses(held, c)[i]
           == AddressOption(held[i], if c.address == Some(held[i]) then c.addressPreferred else 0,
                            if c.address == Some(held[i]) then c.addressValid else 0)
    {
      RenewalKeepsAddresses(held, c, i);
    }
  }

  lemma PrefixesAreRenewed(o: Option, c: Assigner)
    requires AsPd(o)
    ensures RenewsPrefixes(AnswerTo(o, RenewedPrefixes(PrefixesIn(o.options), c)), o, c)
  {
    var held := PrefixesIn(o.options);
    hide PrefixesIn, RenewedPrefixes;
    forall i: nat | i < |held|
      ensures |RenewedPrefixes(held, c)| == |held|
      ensures RenewedPrefixes(held, c)[i]
           == PrefixOption(held[i], if c.prefix == Some(held[i]) then c.prefixPreferred else 0,
                           if c.prefix == Some(held[i]) then c.prefixValid else 0)
    {
      RenewedPrefixesAt(held, c, i);
    }
  }

  /** Each of `open` is renewed, and nothing else is added. */
  ghost predicate RenewsAll(open: seq<Option>, s: State, t: State, c: Assigner) {
    && (forall x <- s.response :: x in t.response)
    && (forall o <- open :: exists x <- t.response :: RenewsAddresses(x, o, c) || RenewsPrefixes(x, o, c))
    && (forall x <- t.response ::
          x in s.response || exists o <- open :: RenewsAddresses(x, o, c) || RenewsPrefixes(x, o, c))
    && forall h :: h in t.handled <==> h in s.handled || h in open
  }

  lemma RenewsOneMore(o: Option, rest: seq<Option>, s: State, x: Option, t: State, c: Assigner)
    requires RenewsAddresses(x, o, c) || RenewsPrefixes(x, o, c)
    requires RenewsAll(rest, Answer(s, o, x), t, c)
    ensures RenewsAll([o] + rest, s, t, c)
  {
    hide RenewsAddresses, RenewsPrefixes;
    var open := [o] + rest;
    assert o in open && forall p <- rest :: p in open;
    assert forall y <- s.response :: y in s.response + [x];
    assert x in s.response + [x];
  }

  lemma {:induction false} NasAreRenewed(open: seq<Option>, s: State, c: Assigner)
    requires forall o <- open :: IsNa(o)
    ensures RenewsAll(open, s, RenewNas(open, s, c), c)
    decreases |open|
  {
    hide RenewsAddresses, RenewsPrefixes, RenewsAll;
    if open == [] {
      NothingRenewed(s, c);
    } else {
      var o := open[0];
      assert IsNa(o) && open == [o] + open[1..];
      var x := AnswerTo(o, RenewedAddresses(AddressesIn(o.options), c));
      AddressesAreRenewed(o, c);
      NasAreRenewed(open[1..], Answer(s, o, x), c);
      RenewsOneMore(o, open[1..], s, x, RenewNas(open, s, c), c);
    }
  }

  lemma NothingRenewed(s: State, c: Assigner)
    ensures RenewsAll([], s, s, c)
  {
  }

  /** Those of `open` that the handler takes responsibility for. */
  ghost function Own(open: seq<Option>, c: Assigner): (own: seq<Option>)
    ensures forall o :: o in own <==> o in open && IsItsOwn(c, o)
  {
    if open == [] then []
    else
      assert open == [open[0]] + open[1..];
      (if IsItsOwn(c, open[0]) then [open[0]] else []) + Own(open[1..], c)
  }

  lemma {:induction false} PdsAreRenewed(open: seq<Option>, s: State, c: Assigner)
    requires forall o <- open :: IsPd(o)
    ensures RenewsAll(Own(open, c), s, RenewPds(open, s, c), c)
    decreases |open|
  {
    hide RenewsAddresses, RenewsPrefixes, RenewsAll, IsItsOwn, Recognises;
    if open == [] {
      NothingRenewed(s, c);
    } else {
      var o := open[0];
      assert IsPd(o);
      RecognisesIff(c, o);
      if IsItsOwn(c, o) {
        var x := AnswerTo(o, RenewedPrefixes(PrefixesIn(o.options), c));
        PrefixesAreRenewed(o, c);
        PdsAreRenewed(open[1..], Answer(s, o, x), c);
        RenewsOneMore(o, Own(open[1..], c), s, x, RenewPds(open, s, c), c);
      } else {
        PdsAreRenewed(open[1..], s, c);
        assert Own(open, c) == Own(open[1..], c);
      }
    }
  }

  /**
   A handler answers every open IA_NA of a client that renews or rebinds, and the open IA_PDs with a prefix that
   overlaps its own; it marks what it answers and adds nothing else.
   */
  lemma RenewalIsExact(q: Query, s: State, c: Assigner)
    requires q.kind == Renew || q.kind == Rebind
    ensures exists own ::
              && RenewsAll(own, s, Assigned(q, s, c), c)
              && forall o :: o in own <==> o in q.options && (OpenNa(s, o) || (OpenPd(s, o) && IsItsOwn(c, o)))
  {
    hide RenewsAddresses, RenewsPrefixes, IsItsOwn, Unhandled, RenewNas, RenewPds, RenewsAll;
    UnhandledExactly(q.options, s.handled, NA);
    UnhandledExactly(q.options, s.handled, PD);
    var nas, pds := Unhandled(q.options, s.handled, NA), Unhandled(q.options, s.handled, PD);
    var own := Own(pds, c) + nas;
    var mid := RenewPds(pds, s, c);
    PdsAreRenewed(pds, s, c);
    NasAreRenewed(nas, mid, c);
    RenewedTogether(Own(pds, c), nas, s, mid, Assigned(q, s, c), c);
    forall o ensures o in own <==> o in q.options && (OpenNa(s, o) || (OpenPd(s, o) && IsItsOwn(c, o))) {
      assert o in own <==> o in Own(pds, c) || o in nas;
    }
  }

  lemma RenewedTogether(first: seq<Option>, second: seq<Option>, s: State, mid: State, t: State, c: Assigner)
    requires RenewsAll(first, s, mid, c) && RenewsAll(second, mid, t, c)
    ensures RenewsAll(first + second, s, t, c)
  {
    hide RenewsAddresses, RenewsPrefixes;
    assert forall o :: o in first + second <==> o in first || o in second;
  }

  // ---- Confirm, Release and Decline ----------------------------------------------------------------------------

  /** Here a handler answers nothing, and marks what it takes responsibility for: in a Confirm only IA_NAs. */
  lemma MarkingIsExact(q: Query, s: State, c: Assigner)
    requires q.kind == Confirm || q.kind == Release || q.kind == Decline
    ensures var t := Assigned(q, s, c);
            && t.response == s.response
            && forall o :: o in t.handled <==>
                 o in s.handled || (o in q.options && IsItsOwn(c, o) && (q.kind == Confirm ==> AsNa(o)))
  {
    hide IsItsOwn, Unhandled, MarkRecognised, Recognises;
    UnhandledExactly(q.options, s.handled, NA);
    UnhandledExactly(q.options, s.handled, PD);
    var nas, pds := Unhandled(q.options, s.handled, NA), Unhandled(q.options, s.handled, PD);
    MarkedExactly(nas, s, c);
    MarkedExactly(pds, s, c);
    MarkedExactly(nas, MarkRecognised(pds, s, c), c);
    forall o | IsIa(o) ensures Recognises(c, o) <==> IsItsOwn(c, o) {
      RecognisesIff(c, o);
    }
    forall o | IsItsOwn(c, o) ensures AsNa(o) || AsPd(o) {
      OwnIsAssociation(c, o);
    }
  }

  lemma OwnIsAssociation(c: Assigner, o: Option)
    requires IsItsOwn(c, o)
    ensures AsNa(o) || AsPd(o)
  {
  }

  // ---- What a handler gives reaches the client --------------------------------------------------------------------

  lemma {:induction false} AllAssignedSplit(q: Query, s: State, before: seq<Assigner>, after: seq<Assigner>)
    ensures AllAssigned(q, s, before + after) == AllAssigned(q, AllAssigned(q, s, before), after)
    decreases |before|
  {
    hide Assigned;
    if before == [] {
      assert before + after == after;
    } else {
      assert (before + after)[1..] == before[1..] + after && (before + after)[0] == before[0];
      AllAssignedSplit(q, Assigned(q, s, before[0]), before[1..], after);
    }
  }

  lemma AssignedKeeps(q: Query, s: State, c: Assigner)
    ensures forall x <- s.response :: x in Assigned(q, s, c).response
    ensures forall o <- s.handled :: o in Assigned(q, s, c).handled
  {
    hide Assigned;
    match q.kind {
      case Solicit | Request =>
        hide TakesAddress, TakesPrefix;
        AssignmentIsExact(q, s, c);
      case Renew | Rebind =>
        RenewalIsExact(q, s, c);
      case OtherKind => OthersAreLeftAlone(q, s, c);
      case _ => MarkingIsExact(q, s, c);
    }
  }

  lemma OthersAreLeftAlone(q: Query, s: State, c: Assigner)
    requires q.kind == OtherKind
    ensures Assigned(q, s, c) == s
  {
  }

  lemma {:induction false} AllAssignedKeeps(q: Query, s: State, cs: seq<Assigner>)
    ensures forall x <- s.response :: x in AllAssigned(q, s, cs).response
    ensures forall o <- s.handled :: o in AllAssigned(q, s, cs).handled
    decreases |cs|
  {
    hide Assigned;
    if cs != [] {
      AssignedKeeps(q, s, cs[0]);
      AllAssignedKeeps(q, Assigned(q, s, cs[0]), cs[1..]);
    }
  }

  /** Whatever the other handlers do, the answer holds what each one put in. */
  lemma GivenIsInTheAnswer(q: Query, start: seq<Option>, before: seq<Assigner>, c: Assigner, after: seq<Assigner>,
      authoritative: bool)
    requires q.kind != Confirm && Answered(q, start, before + [c] + after, authoritative).Some?
    ensures var s := AllAssigned(q, State(start, []), before);
            forall x <- Assigned(q, s, c).response ::
              x in Answered(q, start, before + [c] + after, authoritative).value
  {
    hide Assigned, Answered;
    var s := AllAssigned(q, State(start, []), before);
    var all := before + [c] + after;
    AllAssignedSplit(q, State(start, []), before + [c], after);
    AllAssignedSplit(q, State(start, []), before, [c]);
    assert [c][1..] == [] && AllAssigned(q, s, [c]) == Assigned(q, s, c);
    AllAssignedKeeps(q, Assigned(q, s, c), after);
    AnswerHolds(q, start, all, authoritative);
  }

  /**
   An address that a handler has for the client is in the answer to a Solicit or Request, in an IA_NA with the
   IAID of one that asks for it, or else of the first one open, unless the earlier handlers have left none open.
   */
  lemma AssignedAddressIsAnswered(q: Query, start: seq<Option>, before: seq<Assigner>, c: Assigner,
      after: seq<Assigner>, authoritative: bool)
    requires (q.kind == Solicit || q.kind == Request) && c.address.Some?
    requires exists o <- q.options :: OpenNa(AllAssigned(q, State(start, []), before), o)
    ensures var s := AllAssigned(q, State(start, []), before);
            var answer := Answered(q, start, before + [c] + after, authoritative);
            answer.Some? && exists i: nat | TakesAddress(q.options, s, i, c.address.value) ::
              Container(IaNa(q.options[i].header.iaid, 0, 0),
                        [Container(IaAddress(c.address.value, c.addressPreferred, c.addressValid), [])])
                in answer.value
  {
    hide Assigned, Answered, AllAssigned, TakesAddress;
    var s := AllAssigned(q, State(start, []), before);
    SilentIff(q, start, before + [c] + after, authoritative);
    GivenIsInTheAnswer(q, start, before, c, after, authoritative);
    GivenAddress(q, s, c);
  }

  lemma GivenAddress(q: Query, s: State, c: Assigner)
    requires (q.kind == Solicit || q.kind == Request) && c.address.Some? && exists o <- q.options :: OpenNa(s, o)
    ensures exists i: nat | TakesAddress(q.options, s, i, c.address.value) ::
              Container(IaNa(q.options[i].header.iaid, 0, 0),
                        [Container(IaAddress(c.address.value, c.addressPreferred, c.addressValid), [])])
                in Assigned(q, s, c).response
  {
    hide Assigned, TakesPrefix, HoldsAddress;
    AssignmentIsExact(q, s, c);
    var mid :| GivesPrefix(q, s, mid, c) && GivesAddress(q, mid, Assigned(q, s, c), c);
    PrefixLeavesNas(q, s, mid, c);
    hide GivesPrefix, OpenNa;
    var i: nat :| TakesAddress(q.options, mid, i, c.address.value)
                  && Assigned(q, s, c).response == mid.response + [Container(IaNa(q.options[i].header.iaid, 0, 0),
                       [Container(IaAddress(c.address.value, c.addressPreferred, c.addressValid), [])])];
    SameTaker(q.options, mid, s, i, c.address.value);
  }

  lemma SameTaker(options: seq<Option>, mid: State, s: State, i: nat, a: Address)
    requires TakesAddress(options, mid, i, a) && forall o :: OpenNa(mid, o) <==> OpenNa(s, o)
    ensures TakesAddress(options, s, i, a)
  {
    hide HoldsAddress, OpenNa;
  }

  lemma AssignedPrefixIsAnswered(q: Query, start: seq<Option>, before: seq<Assigner>, c: Assigner,
      after: seq<Assigner>, authoritative: bool)
    requires (q.kind == Solicit || q.kind == Request) && c.prefix.Some?
    requires exists o <- q.options :: OpenPd(AllAssigned(q, State(start, []), before), o)
    ensures var s, p := AllAssigned(q, State(start, []), before), c.prefix.value;
            var answer := Answered(q, start, before + [c] + after, authoritative);
            answer.Some? && exists i: nat | TakesPrefix(q.options, s, i, p) ::
              Container(IaPd(q.options[i].header.iaid, 0, 0),
                        [Container(IaPrefix(c.prefixPreferred, c.prefixValid, p.length, p.address), [])])
                in answer.value
  {
    hide Assigned, Answered, AllAssigned, HoldsPrefix, TakesAddress;
    var s, p := AllAssigned(q, State(start, []), before), c.prefix.value;
    SilentIff(q, start, before + [c] + after, authoritative);
    GivenIsInTheAnswer(q, start, before, c, after, authoritative);
    AssignmentIsExact(q, s, c);
    var mid :| GivesPrefix(q, s, mid, c) && GivesAddress(q, mid, Assigned(q, s, c), c);
    AddressKeepsResponse(q, mid, Assigned(q, s, c), c);
    hide GivesAddress;
    var i: nat :| TakesPrefix(q.options, s, i, p)
                  && mid.response == s.response + [Container(IaPd(q.options[i].header.iaid, 0, 0),
                       [Container(IaPrefix(c.prefixPreferred, c.prefixValid, p.length, p.address), [])])];
  }

  lemma AddressKeepsResponse(q: Query, mid: State, t: State, c: Assigner)
    requires GivesAddress(q, mid, t, c)
    ensures forall x <- mid.response :: x in t.response
  {
    hide TakesAddress;
  }

  lemma PrefixLeavesNas(q: Query, s: State, mid: State, c: Assigner)
    requires GivesPrefix(q, s, mid, c)
    ensures forall o :: OpenNa(mid, o) <==> OpenNa(s, o)
  {
  }
}
