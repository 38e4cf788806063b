/** Nothing is granted that was not assigned, and what a client asks to renew is not lost. */
module AnswersGrant {
  import opened Wire
  import opened Collections
  import opened Statuses
  import opened Answers
  import opened AnswersByKind

  /** An address or prefix option without lifetime, or with the lifetimes of an assigner that assigns it. */
  predicate Granted(suboption: Option, cs: seq<Assigner>) {
    match suboption
    case Container(IaAddress(a, preferred, valid), _) =>
      (preferred == 0 && valid == 0)
      || exists c <- cs :: c.address == Some(a) && preferred == c.addressPreferred && valid == c.addressValid
    case Container(IaPrefix(preferred, valid, length, network), _) =>
      (preferred == 0 && valid == 0)
      || exists c <- cs ::
           c.prefix == Some(Network(network, length)) && preferred == c.prefixPreferred && valid == c.prefixValid
    case _ => true
  }

  ghost predicate AllGranted(suboptions: seq<Option>, cs: seq<Assigner>) {
    forall o <- suboptions :: Granted(o, cs)
  }

  ghost predicate OnlyGranted(options: seq<Option>, cs: seq<Assigner>) {
    forall o <- options :: IsIa(o) ==> AllGranted(o.options, cs)
  }

  lemma AppendGranted(response: seq<Option>, o: Option, suboptions: seq<Option>, cs: seq<Assigner>)
    requires OnlyGranted(response, cs) && IsIa(o) && AllGranted(suboptions, cs)
    ensures OnlyGranted(response + [AnswerTo(o, suboptions)], cs)
  {
  }

  lemma {:induction false} RenewedAddressesGranted(addresses: seq<Address>, c: Assigner, cs: seq<Assigner>)
    requires c in cs
    ensures AllGranted(RenewedAddresses(addresses, c), cs)
  {
    if addresses != [] {
      RenewedAddressesGranted(addresses[1..], c, cs);
    }
  }

  lemma {:induction false} RenewedPrefixesGranted(prefixes: seq<Network>, c: Assigner, cs: seq<Assigner>)
    requires c in cs
    ensures AllGranted(RenewedPrefixes(prefixes, c), cs)
  {
    if prefixes != [] {
      RenewedPrefixesGranted(prefixes[1..], c, cs);
    }
  }

  lemma {:induction false} WithdrawnGranted(addresses: seq<Address>, prefixes: seq<Network>, cs: seq<Assigner>)
    ensures AllGranted(Withdrawn(addresses), cs) && AllGranted(WithdrawnPrefixes(prefixes), cs)
    decreases |addresses| + |prefixes|
  {
    if addresses != [] {
      WithdrawnGranted(addresses[1..], prefixes, cs);
    } else if prefixes != [] {
      WithdrawnGranted(addresses, prefixes[1..], cs);
    }
  }

  lemma {:induction false} RenewPdsGranted(open: seq<Option>, s: State, c: Assigner, cs: seq<Assigner>)
    requires c in cs && OnlyGranted(s.response, cs) && forall o <- open :: IsPd(o)
    ensures OnlyGranted(RenewPds(open, s, c).response, cs)
    decreases |open|
  {
    hide OnlyGranted, Recognises;
    if open != [] {
      assert IsPd(open[0]);
      var suboptions := RenewedPrefixes(PrefixesIn(open[0].options), c);
      RenewedPrefixesGranted(PrefixesIn(open[0].options), c, cs);
      AppendGranted(s.response, open[0], suboptions, cs);
      var answer := AnswerTo(open[0], suboptions);
      RenewPdsGranted(open[1..], if Recognises(c, open[0]) then Answer(s, open[0], answer) else s, c, cs);
    }
  }

  lemma {:induction false} RenewNasGranted(open: seq<Option>, s: State, c: Assigner, cs: seq<Assigner>)
    requires c in cs && OnlyGranted(s.response, cs) && forall o <- open :: IsNa(o)
    ensures OnlyGranted(RenewNas(open, s, c).response, cs)
    decreases |open|
  {
    hide OnlyGranted;
    if open != [] {
      assert IsNa(open[0]);
      var suboptions := RenewedAddresses(AddressesIn(open[0].options), c);
      RenewedAddressesGranted(AddressesIn(open[0].options), c, cs);
      AppendGranted(s.response, open[0], suboptions, cs);
      RenewNasGranted(open[1..], Answer(s, open[0], AnswerTo(open[0], suboptions)), c, cs);
    }
  }

  lemma AssignGranted(q: Query, s: State, c: Assigner, cs: seq<Assigner>)
    requires c in cs && OnlyGranted(s.response, cs)
    ensures OnlyGranted(AssignPrefix(q, s, c).response, cs) && OnlyGranted(AssignAddress(q, s, c).response, cs)
  {
    hide OnlyGranted;
    UnhandledExactly(q.options, s.handled, PD);
    UnhandledExactly(q.options, s.handled, NA);
    var pds, nas := Unhandled(q.options, s.handled, PD), Unhandled(q.options, s.handled, NA);
    if c.prefix.Some? {
      FoundPd(pds, pds, c.prefix.value);
      var found := FindPd(pds, pds, c.prefix.value);
      if found.Some? {
        assert found.value in pds;
        AppendGranted(s.response, found.value, [PrefixOption(c.prefix.value, c.prefixPreferred, c.prefixValid)], cs);
      }
    }
    if c.address.Some? {
      FoundNa(nas, nas, c.address.value);
      var found := FindNa(nas, nas, c.address.value);
      if found.Some? {
        assert found.value in nas;
        var address := AddressOption(c.address.value, c.addressPreferred, c.addressValid);
        AppendGranted(s.response, found.value, [address], cs);
      }
    }
  }

  lemma AssignedGranted(q: Query, s: State, c: Assigner, cs: seq<Assigner>)
    requires c in cs && OnlyGranted(s.response, cs)
    ensures OnlyGranted(Assigned(q, s, c).response, cs)
  {
    hide OnlyGranted, AssignPrefix, AssignAddress, RenewPds, RenewNas, MarkRecognised;
    UnhandledExactly(q.options, s.handled, PD);
    UnhandledExactly(q.options, s.handled, NA);
    var pds, nas := Unhandled(q.options, s.handled, PD), Unhandled(q.options, s.handled, NA);
    AssignGranted(q, s, c, cs);
    AssignGranted(q, AssignPrefix(q, s, c), c, cs);
    RenewPdsGranted(pds, s, c, cs);
    RenewNasGranted(nas, RenewPds(pds, s, c), c, cs);
    MarkedExactly(pds, s, c);
    MarkedExactly(nas, s, c);
    MarkedExactly(nas, MarkRecognised(pds, s, c), c);
  }

  lemma {:induction false} AllAssignedGranted(q: Query, s: State, left: seq<Assigner>, cs: seq<Assigner>)
    requires (forall c <- left :: c in cs) && OnlyGranted(s.response, cs)
    ensures OnlyGranted(AllAssigned(q, s, left).response, cs)
    decreases |left|
  {
    hide OnlyGranted, Assigned;
    if left != [] {
      assert left[0] in left;
      AssignedGranted(q, s, left[0], cs);
      AllAssignedGranted(q, Assigned(q, s, left[0]), left[1..], cs);
    }
  }

  lemma LeftoverAnswerGranted(kind: Kind, o: Option, authoritative: bool, response: seq<Option>, cs: seq<Assigner>)
    requires IsIa(o) && OnlyGranted(response, cs)
    ensures var a := LeftoverAnswer(kind, o, authoritative); a.Some? ==> OnlyGranted(response + [a.value], cs)
    ensures var a := LeftoverPdAnswer(kind, o); a.Some? ==> OnlyGranted(response + [a.value], cs)
  {
    hide OnlyGranted;
    WithdrawnGranted(AddressesIn(o.options), PrefixesIn(o.options), cs);
    AppendGranted(response, o, Withdrawn(AddressesIn(o.options)), cs);
    AppendGranted(response, o, WithdrawnPrefixes(PrefixesIn(o.options)), cs);
    var statuses := [Status(STATUS_NO_ADDRS_AVAIL, "No addresses available"),
                     Status(STATUS_NO_BINDING, "No addresses assigned to you"),
                     Status(STATUS_NO_PREFIX_AVAIL, "No prefixes available"),
                     Status(STATUS_NO_BINDING, "No prefixes assigned to you")];
    AppendGranted(response, o, [statuses[0]], cs);
    AppendGranted(response, o, [statuses[1]], cs);
    AppendGranted(response, o, [statuses[2]], cs);
    AppendGranted(response, o, [statuses[3]], cs);
  }

  lemma {:induction false} RemoveGranted(options: seq<Option>, o: Option)
    requires o in options
    ensures forall x <- Remove(options, o) :: x in options
  {
    if options[0] != o {
      RemoveGranted(options[1..], o);
    }
  }

  lemma {:induction false} ForceGranted(options: seq<Option>, i: nat, status: Option, cs: seq<Assigner>)
    requires IsStatus(status) && OnlyGranted(options, cs)
    ensures OnlyGranted(ForceFrom(options, i, status), cs)
    decreases |options| - i
  {
    if i < |options| {
      if !IsStatus(options[i]) {
        ForceGranted(options, i + 1, status, cs);
      } else if options[i].leaf.status != status.leaf.status {
        RemoveGranted(options, options[i]);
        ForceGranted(Remove(options, options[i]), i + 1, status, cs);
      }
    }
  }

  lemma {:induction false} LeftoverGranted(kind: Kind, open: seq<Option>, response: seq<Option>, authoritative: bool,
      cs: seq<Assigner>)
    requires (forall o <- open :: IsIa(o)) && OnlyGranted(response, cs)
    ensures OnlyGranted(LeftoverNaTa(kind, open, response, authoritative), cs)
    decreases |open|
  {
    hide OnlyGranted, LeftoverAnswer, ForceFrom;
    if open != [] {
      assert IsIa(open[0]);
      LeftoverAnswerGranted(kind, open[0], authoritative, response, cs);
      ForceGranted(response, 0, NOT_ON_LINK, cs);
      var next := if kind.Confirm? then ForceFrom(response, 0, NOT_ON_LINK)
                  else
                    match LeftoverAnswer(kind, open[0], authoritative)
                    case None => response
                    case Some(a) => response + [a];
      LeftoverGranted(kind, open[1..], next, authoritative, cs);
    }
  }

  lemma {:induction false} LeftoverPdsGranted(kind: Kind, open: seq<Option>, response: seq<Option>, cs: seq<Assigner>)
    requires (forall o <- open :: IsIa(o)) && OnlyGranted(response, cs)
    ensures OnlyGranted(LeftoverPds(kind, open, response), cs)
    decreases |open|
  {
    hide OnlyGranted, LeftoverPdAnswer;
    if open != [] {
      assert IsIa(open[0]);
      LeftoverAnswerGranted(kind, open[0], true, response, cs);
      var next := match LeftoverPdAnswer(kind, open[0]) case None => response case Some(a) => response + [a];
      LeftoverPdsGranted(kind, open[1..], next, cs);
    }
  }

  /** No reply to any request gives an address or a prefix a lifetime that no assigner gave it. */
  lemma OnlyAssignmentsAreGranted(q: Query, start: seq<Option>, cs: seq<Assigner>, authoritative: bool)
    requires Keys(start) == [] && Answered(q, start, cs, authoritative).Some?
    ensures OnlyGranted(Answered(q, start, cs, authoritative).value, cs)
  {
    hide AllAssigned, LeftoverNaTa, LeftoverPds;
    NoKeysNoIas(start);
    AllAssignedGranted(q, State(start, []), cs, cs);
    var s := AllAssigned(q, State(start, []), cs);
    UnhandledExactly(q.options, s.handled, NATA);
    UnhandledExactly(q.options, s.handled, PD);
    var open, pds := Unhandled(q.options, s.handled, NATA), Unhandled(q.options, s.handled, PD);
    LeftoverGranted(q.kind, open, s.response, authoritative, cs);
    LeftoverPdsGranted(q.kind, pds, LeftoverNaTa(q.kind, open, s.response, authoritative), cs);
  }

  /** A renewed IA reports on the same addresses in the same order, and only the assigned one keeps a lifetime. */
  lemma {:induction false} RenewalKeepsAddresses(addresses: seq<Address>, c: Assigner, i: nat)
    requires i < |addresses|
    ensures AddressesIn(RenewedAddresses(addresses, c)) == addresses && |RenewedAddresses(addresses, c)| == |addresses|
    ensures c.address != Some(addresses[i]) ==> RenewedAddresses(addresses, c)[i] == AddressOption(addresses[i], 0, 0)
    ensures c.address == Some(addresses[i]) ==>
              RenewedAddresses(addresses, c)[i] == AddressOption(addresses[i], c.addressPreferred, c.addressValid)
  {
    var rest := addresses[1..];
    assert RenewedAddresses(addresses, c)[1..] == RenewedAddresses(rest, c);
    if rest != [] {
      RenewalKeepsAddresses(rest, c, if i == 0 then 0 else i - 1);
    }
  }

  predicate AsksFor(o: Option, address: Address) { IsNa(o) && address in AddressesIn(o.options) }

  /** A new address goes to an IA that asked for it, if one did, and otherwise to the first open one. */
  lemma {:induction false} AssignmentPrefersTheAsking(open: seq<Option>, all: seq<Option>, address: Address)
    requires (forall o <- open :: IsNa(o)) && forall o <- all :: IsNa(o)
    ensures (exists o <- open :: AsksFor(o, address)) ==>
              var found := FindNa(open, all, address);
              found.Some? && found.value in open && AsksFor(found.value, address)
    ensures (forall o <- open :: !AsksFor(o, address)) ==>
              FindNa(open, all, address) == if all == [] then None else Some(all[0])
  {
    if open != [] {
      assert IsNa(open[0]) && open == [open[0]] + open[1..];
      AssignmentPrefersTheAsking(open[1..], all, address);
    }
  }
}
