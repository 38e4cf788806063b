/** What a Release, a Decline, a Confirm, and a Solicit with Rapid Commit get back. */
module AnswersByKind {
  import opened Bytes
  import opened Wire
  import opened Collections
  import opened Statuses
  import opened Answers
  import opened AnswersProof

  // ---- Release and Decline ------------------------------------------------------------------------

  predicate Recognised(cs: seq<Assigner>, o: Option)
    requires IsIa(o)
  {
    exists c <- cs :: Recognises(c, o)
  }

  lemma {:induction false} MarkedExactly(open: seq<Option>, s: State, c: Assigner)
    requires forall o <- open :: IsIa(o)
    ensures MarkRecognised(open, s, c).response == s.response
    ensures forall o :: o in MarkRecognised(open, s, c).handled <==> o in s.handled || (o in open && Recognises(c, o))
    decreases |open|
  {
    hide Recognises;
    if open != [] {
      assert IsIa(open[0]) && open == [open[0]] + open[1..];
      MarkedExactly(open[1..], if Recognises(c, open[0]) then s.(handled := Mark(s.handled, open[0])) else s, c);
    }
  }

  predicate Marking(kind: Kind) { kind.Release? || kind.Decline? }

  lemma AssignedMarks(q: Query, s: State, c: Assigner)
    requires Marking(q.kind) && forall h <- s.handled :: IsIa(h)
    ensures Assigned(q, s, c).response == s.response
    ensures forall o | o in q.options && IsIa(o) :: o in Assigned(q, s, c).handled <==>
        o in s.handled || Recognises(c, o)
    ensures forall h <- Assigned(q, s, c).handled :: IsIa(h)
  {
    hide Recognises, MarkRecognised;
    UnhandledExactly(q.options, s.handled, NA);
    UnhandledExactly(q.options, s.handled, PD);
    var nas, pds := Unhandled(q.options, s.handled, NA), Unhandled(q.options, s.handled, PD);
    MarkedExactly(pds, s, c);
    MarkedExactly(nas, MarkRecognised(pds, s, c), c);
    forall o | o in q.options && IsIa(o) && !IsNa(o) && !IsPd(o) ensures !Recognises(c, o) {
      TemporaryIsUnknown(o, c);
    }
  }

  lemma TemporaryIsUnknown(o: Option, c: Assigner)
    requires IsIa(o) && o.header.IaTa?
    ensures !Recognises(c, o)
  {
  }

  lemma {:induction false} AllAssignedMark(q: Query, s: State, cs: seq<Assigner>)
    requires Marking(q.kind) && forall h <- s.handled :: IsIa(h)
    ensures AllAssigned(q, s, cs).response == s.response
    ensures forall o | o in q.options && IsIa(o) :: o in AllAssigned(q, s, cs).handled <==>
        o in s.handled || Recognised(cs, o)
    decreases |cs|
  {
    hide Recognises, Assigned;
    if cs != [] {
      AssignedMarks(q, s, cs[0]);
      AllAssignedMark(q, Assigned(q, s, cs[0]), cs[1..]);
      assert cs == [cs[0]] + cs[1..];
    }
  }

  /** An IA with nothing in it but a NoBinding status. */
  predicate IsNoBinding(o: Option) {
    IsIa(o) && |o.options| == 1 && IsStatusOf(o.options[0], STATUS_NO_BINDING)
  }

  ghost predicate OnlyNoBinding(options: seq<Option>) {
    forall o <- options :: IsIa(o) ==> IsNoBinding(o)
  }

  lemma {:induction false} LeftoversAreNoBinding(kind: Kind, open: seq<Option>, response: seq<Option>)
    requires Marking(kind) && (forall o <- open :: IsIa(o)) && OnlyNoBinding(response)
    ensures OnlyNoBinding(LeftoverNaTa(kind, open, response, true)) && OnlyNoBinding(LeftoverPds(kind, open, response))
    decreases |open|
  {
    if open != [] {
      assert IsIa(open[0]);
      var text := Status(STATUS_NO_BINDING, "No addresses assigned to you");
      assert IsNoBinding(AnswerTo(open[0], [text]));
      LeftoversAreNoBinding(kind, open[1..], response + [AnswerTo(open[0], [text])]);
      if kind.Release? {
        var pdText := Status(STATUS_NO_BINDING, "No prefixes assigned to you");
        assert IsNoBinding(AnswerTo(open[0], [pdText]));
        LeftoversAreNoBinding(kind, open[1..], response + [AnswerTo(open[0], [pdText])]);
      } else {
        LeftoversAreNoBinding(kind, open[1..], response);
      }
    }
  }

  /**
   A Release or a Decline gets a NoBinding IA for exactly the IAs that no handler recognises, one
   each, and no other IA (sections 18.2.6 and 18.2.7 of RFC 3315).
   */
  lemma NoBindingForTheUnrecognised(q: Query, start: seq<Option>, cs: seq<Assigner>)
    requires Validated(q) && Marking(q.kind) && Keys(start) == []
    ensures Answered(q, start, cs, true).Some?
    ensures var answer := Answered(q, start, cs, true).value;
            && AllDistinct(Keys(answer)) && OnlyNoBinding(answer)
            && (forall k <- Keys(answer) :: k in Keys(q.options))
            && forall o <- q.options :: IsIa(o) ==> (KeyOf(o) in Keys(answer) <==> !Recognised(cs, o))
  {
    hide Recognised, AllAssigned, LeftoverNaTa, LeftoverPds, WithStatus;
    var s := AllAssigned(q, State(start, []), cs);
    AllAssignedMark(q, State(start, []), cs);
    AnsweredKeys(q, start, cs, true);
    OpenKeys(q, s);
    var open, pds := Unhandled(q.options, s.handled, NATA), Unhandled(q.options, s.handled, PD);
    UnhandledExactly(q.options, s.handled, NATA);
    UnhandledExactly(q.options, s.handled, PD);
    var answer := Answered(q, start, cs, true).value;
    assert Keys(answer) == Keys(open) + Keys(pds) by {
      assert [] + Keys(open) == Keys(open);
    }
    forall k <- Keys(answer)
      ensures k in Keys(q.options) && forall o | o in q.options && IsIa(o) && KeyOf(o) == k :: o !in s.handled
    {
      var o := ListedKey(if k in Keys(open) then open else pds, k);
      KeyIsListed(q.options, o);
      forall p | p in q.options && IsIa(p) && KeyOf(p) == k ensures p !in s.handled {
        KeyNamesOne(q.options, o, p);
      }
    }
    forall o | o in q.options && IsIa(o) && o !in s.handled ensures KeyOf(o) in Keys(answer) {
      KeyIsListed(if IsPd(o) then pds else open, o);
    }
    AnswerIsNoBinding(q, start, cs);
  }

  lemma {:induction false} NoKeysNoIas(options: seq<Option>)
    requires Keys(options) == []
    ensures forall o <- options :: !IsIa(o)
  {
    forall o | o in options ensures !IsIa(o) {
      if IsIa(o) {
        KeyIsListed(options, o);
      }
    }
  }

  lemma AnswerIsNoBinding(q: Query, start: seq<Option>, cs: seq<Assigner>)
    requires Marking(q.kind) && Keys(start) == []
    ensures Answered(q, start, cs, true).Some? && OnlyNoBinding(Answered(q, start, cs, true).value)
  {
    hide AllAssigned, LeftoverNaTa, LeftoverPds;
    AllAssignedMark(q, State(start, []), cs);
    NoKeysNoIas(start);
    var s := AllAssigned(q, State(start, []), cs);
    var open, pds := Unhandled(q.options, s.handled, NATA), Unhandled(q.options, s.handled, PD);
    UnhandledExactly(q.options, s.handled, NATA);
    UnhandledExactly(q.options, s.handled, PD);
    LeftoversAreNoBinding(q.kind, open, start);
    LeftoversAreNoBinding(q.kind, pds, LeftoverNaTa(q.kind, open, start, true));
  }

  // ---- Confirm -----------------------------------------------------------------------------------

  lemma AssignedConfirm(q: Query, s: State, c: Assigner)
    requires q.kind.Confirm?
    ensures Assigned(q, s, c).response == s.response
  {
    UnhandledExactly(q.options, s.handled, NA);
    MarkedExactly(Unhandled(q.options, s.handled, NA), s, c);
  }

  lemma {:induction false} AllAssignedConfirm(q: Query, s: State, cs: seq<Assigner>)
    requires q.kind.Confirm?
    ensures AllAssigned(q, s, cs).response == s.response
    decreases |cs|
  {
    hide Assigned;
    if cs != [] {
      AssignedConfirm(q, s, cs[0]);
      AllAssignedConfirm(q, Assigned(q, s, cs[0]), cs[1..]);
    }
  }

  lemma {:induction false} FirstForce(options: seq<Option>, i: nat)
    requires i <= |options| && StatusesOf(options) == []
    ensures ForceFrom(options, i, NOT_ON_LINK) == options + [NOT_ON_LINK]
    decreases |options| - i
  {
    NoStatus(options);
    if i < |options| {
      FirstForce(options, i + 1);
    }
  }

  lemma {:induction false} NextForce(options: seq<Option>, i: nat)
    requires i <= |options| && StatusesOf(options) == []
    ensures ForceFrom(options + [NOT_ON_LINK], i, NOT_ON_LINK) == options + [NOT_ON_LINK]
    decreases |options| - i
  {
    NoStatus(options);
    if i < |options| {
      NextForce(options, i + 1);
    }
  }

  lemma {:induction false} ForcedByAll(open: seq<Option>, options: seq<Option>, forced: bool)
    requires StatusesOf(options) == [] && forall o <- open :: IsIa(o)
    ensures LeftoverNaTa(Confirm, open, if forced then options + [NOT_ON_LINK] else options, true) ==
            if forced || open != [] then options + [NOT_ON_LINK] else options
    decreases |open|
  {
    if open != [] {
      FirstForce(options, 0);
      NextForce(options, 0);
      ForcedByAll(open[1..], options, true);
    }
  }

  lemma {:induction false} NoPdsInConfirm(open: seq<Option>, response: seq<Option>)
    requires forall o <- open :: IsIa(o)
    ensures LeftoverPds(Confirm, open, response) == response
    decreases |open|
  {
    if open != [] {
      assert IsIa(open[0]);
      NoPdsInConfirm(open[1..], response);
    }
  }

  /**
   The reply to a Confirm adds exactly one top-level status to a response without one: NotOnLink if
   an IA_NA or IA_TA was left unhandled, and Success otherwise (section 18.2.2 of RFC 3315).
   */
  lemma ConfirmHasOneStatus(q: Query, start: seq<Option>, cs: seq<Assigner>)
    requires q.kind.Confirm? && StatusesOf(start) == [] && HasResponse(q)
    ensures Answered(q, start, cs, true).Some?
    ensures var open := Unhandled(q.options, AllAssigned(q, State(start, []), cs).handled, NATA);
            Answered(q, start, cs, true).value ==
            start + [if open != [] then NOT_ON_LINK else Status(STATUS_SUCCESS, "Assignments confirmed")]
    ensures |StatusesOf(Answered(q, start, cs, true).value)| == 1
  {
    hide AllAssigned;
    AllAssignedConfirm(q, State(start, []), cs);
    var s := AllAssigned(q, State(start, []), cs);
    var open, pds := Unhandled(q.options, s.handled, NATA), Unhandled(q.options, s.handled, PD);
    UnhandledExactly(q.options, s.handled, NATA);
    UnhandledExactly(q.options, s.handled, PD);
    ForcedByAll(open, start, false);
    NoPdsInConfirm(pds, LeftoverNaTa(q.kind, open, start, true));
    var status := if open != [] then NOT_ON_LINK else Status(STATUS_SUCCESS, "Assignments confirmed");
    StatusesConcat(start, [status]);
    assert [status][1..] == [];
  }

  // ---- Rapid Commit --------------------------------------------------------------------------------

  /** An IA that gives the client something: exactly one address or prefix, and no status. */
  predicate Assigns(o: Option) {
    IsIa(o) && |o.options| == 1 && o.options[0].Container?
        && (o.options[0].header.IaAddress? || o.options[0].header.IaPrefix?)
  }

  ghost predicate OnlyAssignments(options: seq<Option>) {
    forall o <- options :: IsIa(o) ==> Assigns(o)
  }

  lemma SolicitAssigns(q: Query, s: State, c: Assigner)
    requires q.kind.Solicit? && OnlyAssignments(s.response)
    ensures OnlyAssignments(Assigned(q, s, c).response)
  {
    hide AddressesIn, PrefixesIn, FindNa, FindPd, Mark;
    PrefixAssigns(q, s, c);
    AddressAssigns(q, AssignPrefix(q, s, c), c);
  }

  lemma PrefixAssigns(q: Query, s: State, c: Assigner)
    requires OnlyAssignments(s.response)
    ensures OnlyAssignments(AssignPrefix(q, s, c).response)
  {
    if c.prefix.Some? {
      UnhandledExactly(q.options, s.handled, PD);
      var open := Unhandled(q.options, s.handled, PD);
      FoundPd(open, open, c.prefix.value);
    }
  }

  lemma AddressAssigns(q: Query, s: State, c: Assigner)
    requires OnlyAssignments(s.response)
    ensures OnlyAssignments(AssignAddress(q, s, c).response)
  {
    if c.address.Some? {
      UnhandledExactly(q.options, s.handled, NA);
      var open := Unhandled(q.options, s.handled, NA);
      FoundNa(open, open, c.address.value);
    }
  }

  lemma {:induction false} AllSolicitsAssign(q: Query, s: State, cs: seq<Assigner>)
    requires q.kind.Solicit? && OnlyAssignments(s.response)
    ensures OnlyAssignments(AllAssigned(q, s, cs).response)
    decreases |cs|
  {
    hide Assigned, OnlyAssignments;
    if cs != [] {
      SolicitAssigns(q, s, cs[0]);
      AllSolicitsAssign(q, Assigned(q, s, cs[0]), cs[1..]);
    }
  }

  const IA := (o: Option) => IsIa(o)

  /** The first status option of an IA. */
  function FirstStatus(options: seq<Option>): Maybe<u16> {
    if options == [] then None
    else if IsStatus(options[0]) then Some(options[0].leaf.status)
    else FirstStatus(options[1..])
  }

  predicate Refuses(o: Option) {
    IsIa(o) && FirstStatus(o.options) == Some(if IsPd(o) then STATUS_NO_PREFIX_AVAIL else STATUS_NO_ADDRS_AVAIL)
  }

  const MSG_ADVERTISE: byte := 2
  const MSG_REPLY: byte := 7

  /** `RapidCommitHandler.post`: upgrade an Advertise to a Reply, unless it contains or hides a refusal. */
  function Committed(q: Query, handled: seq<Option>, response: Message, allowed: bool, rejections: bool): Message {
    if !allowed || !q.kind.Solicit? || Leaf(RapidCommit) !in q.options || !response.ClientServer?
        || response.kind != MSG_ADVERTISE then response
    else if !rejections
        && (Unhandled(q.options, handled, IA) != [] || exists o <- response.options :: Refuses(o)) then response
    else ClientServer(MSG_REPLY, response.transactionId, [Leaf(RapidCommit)] + response.options)
  }

  /** The handler itself: first look at the IAs with addresses, then at those with prefixes. */
  method RapidCommitPost(q: Query, handled: seq<Option>, response: Message, allowed: bool, rejections: bool)
    returns (r: Message)
    ensures r == Committed(q, handled, response, allowed, rejections)
  {
    hide Unhandled, FirstStatus;
    if !allowed || !q.kind.Solicit? || Leaf(RapidCommit) !in q.options {
      return response;
    }
    if !response.ClientServer? || response.kind != MSG_ADVERTISE {
      return response;
    }
    if !rejections {
      if Unhandled(q.options, handled, IA) != [] {
        return response;
      }
      for i := 0 to |response.options|
        invariant forall o <- response.options[..i] :: IsPd(o) || !Refuses(o)
      {
        var option := response.options[i];
        if IsIa(option) && !IsPd(option) && FirstStatus(option.options) == Some(STATUS_NO_ADDRS_AVAIL) {
          assert Refuses(option) && option in response.options;
          return response;
        }
      }
      for i := 0 to |response.options|
        invariant forall o <- response.options[..i] :: !IsPd(o) || !Refuses(o)
      {
        var option := response.options[i];
        if IsPd(option) && FirstStatus(option.options) == Some(STATUS_NO_PREFIX_AVAIL) {
          assert Refuses(option) && option in response.options;
          return response;
        }
      }
    }
    return ClientServer(MSG_REPLY, response.transactionId, [Leaf(RapidCommit)] + response.options);
  }

  /**
   Without rejections and with static assignment as the only assigner, a Solicit is upgraded exactly
   when every IA in it was assigned something. Then every IA of the request has an answer, every
   answer assigns, and the Advertise's transaction id and options are kept in order.
   */
  lemma RapidCommitAssignsEverything(q: Query, start: seq<Option>, cs: seq<Assigner>, transactionId: bytes)
    requires Validated(q) && q.kind.Solicit? && Leaf(RapidCommit) in q.options && Keys(start) == []
    ensures Answered(q, start, cs, true).Some?
    ensures var handled := AllAssigned(q, State(start, []), cs).handled;
            var advertise := ClientServer(MSG_ADVERTISE, transactionId, Answered(q, start, cs, true).value);
            var sent := Committed(q, handled, advertise, true, false);
            && (sent != advertise <==> forall o <- q.options :: IsIa(o) ==> o in handled)
            && (sent != advertise ==>
                  && sent == ClientServer(MSG_REPLY, transactionId, [Leaf(RapidCommit)] + advertise.options)
                  && OnlyAssignments(sent.options)
                  && AllDistinct(Keys(advertise.options))
                  && forall k :: k in Keys(advertise.options) <==> k in Keys(q.options))
  {
    hide AllAssigned, OnlyAssignments, Keys, Refuses;
    EveryIaIsAnsweredOnce(q, start, cs, true);
    var s := AllAssigned(q, State(start, []), cs);
    StartAssigns(start);
    AllSolicitsAssign(q, State(start, []), cs);
    UnhandledExactly(q.options, s.handled, IA);
    UnhandledExactly(q.options, s.handled, NATA);
    UnhandledExactly(q.options, s.handled, PD);
    if forall o <- q.options :: IsIa(o) ==> o in s.handled {
      HeadIsMember(Unhandled(q.options, s.handled, IA));
      HeadIsMember(Unhandled(q.options, s.handled, NATA));
      HeadIsMember(Unhandled(q.options, s.handled, PD));
      assert Answered(q, start, cs, true).value == s.response;
      AssignmentsDoNotRefuse(s.response);
    } else {
      var o :| o in q.options && IsIa(o) && o !in s.handled;
      assert o in Unhandled(q.options, s.handled, IA);
    }
  }

  lemma StartAssigns(start: seq<Option>)
    requires Keys(start) == []
    ensures OnlyAssignments(start)
  {
    NoKeysNoIas(start);
  }

  lemma AssignmentsDoNotRefuse(options: seq<Option>)
    requires OnlyAssignments(options)
    ensures (forall o <- options :: !Refuses(o)) && OnlyAssignments([Leaf(RapidCommit)] + options)
  {
    forall o <- options ensures !Refuses(o) {
      if IsIa(o) {
        assert Assigns(o) && o.options[1..] == [];
        assert FirstStatus(o.options[1..]) == None;
        assert FirstStatus(o.options) == None;
      }
    }
  }
}
