/**
 What a client is told, in terms of the options themselves: when there is an answer at all, what each
 identity association in it holds, and when a Solicit is answered with a Reply.
 */
module AnswersExactly {
  import opened Bytes
  import opened Wire
  import opened Collections
  import opened Statuses
  import opened Answers
  import opened AnswersHeld
  import opened AnswersProof
  import opened AnswersByKind

  // ---- Reading the options --------------------------------------------------------------------------

  predicate AsksForAddresses(o: Option) { o.Container? && (o.header.IaNa? || o.header.IaTa?) }

  predicate IsAssociation(o: Option) { AsksForAddresses(o) || AsPd(o) }

  predicate HoldsNothing(o: Option)
    requires o.Container?
  {
    forall sub <- o.options :: !(sub.Container? && (sub.header.IaAddress? || sub.header.IaPrefix?))
  }

  /** What the assigning handlers have marked. */
  function Marked(q: Query, start: seq<Option>, cs: seq<Assigner>): seq<Option> {
    AllAssigned(q, State(start, []), cs).handled
  }

  lemma {:induction false} NothingHeld(options: seq<Option>)
    ensures AddressesIn(options) == [] && PrefixesIn(options) == [] <==>
              forall sub <- options :: !(sub.Container? && (sub.header.IaAddress? || sub.header.IaPrefix?))
  {
    if options != [] {
      NothingHeld(options[1..]);
      assert options == [options[0]] + options[1..];
    }
  }

  // ---- When there is no answer -------------------------------------------------------------------------

  /**
   The server stays silent just in these cases: a Confirm without any address or prefix, or, when it
   is not authoritative, a Confirm or Rebind with an association that no handler has marked.
   */
  ghost predicate Silent(q: Query, marked: seq<Option>, authoritative: bool) {
    || (q.kind == Confirm && forall o <- q.options :: IsAssociation(o) ==> HoldsNothing(o))
    || (!authoritative && q.kind == Confirm && exists o <- q.options :: AsksForAddresses(o) && o !in marked)
    || (!authoritative && q.kind == Rebind && exists o <- q.options :: IsAssociation(o) && o !in marked)
  }

  lemma SilentIff(q: Query, start: seq<Option>, cs: seq<Assigner>, authoritative: bool)
    ensures Answered(q, start, cs, authoritative).None? <==> Silent(q, Marked(q, start, cs), authoritative)
  {
    var handled := Marked(q, start, cs);
    var open, pds := Unhandled(q.options, handled, NATA), Unhandled(q.options, handled, PD);
    UnhandledExactly(q.options, handled, NATA);
    UnhandledExactly(q.options, handled, PD);
    HeadIsMember(open);
    HeadIsMember(pds);
    HeadIsMember(open + pds);
    ResponseIff(q);
    hide AllAssigned, LeftoverNaTa, LeftoverPds, WithStatus, HoldsNothing, HasResponse, Unhandled;
    assert forall o :: NATA(o) <==> AsksForAddresses(o);
    assert forall o :: PD(o) <==> AsPd(o);
    assert open + pds != [] <==> open != [] || pds != [];
    if o :| o in q.options && IsAssociation(o) && o !in handled {
      assert o in open || o in pds;
    }
    if o :| o in q.options && AsksForAddresses(o) && o !in handled {
      assert o in open;
    }
  }

  lemma ResponseIff(q: Query)
    ensures HasResponse(q) <==> !(q.kind == Confirm && forall o <- q.options :: IsAssociation(o) ==> HoldsNothing(o))
  {
    forall o <- q.options ensures IsIa(o) <==> IsAssociation(o) {
    }
    forall o <- q.options
      ensures IsIa(o) ==> (AddressesIn(o.options) != [] || PrefixesIn(o.options) != [] <==> !HoldsNothing(o))
    {
      if IsIa(o) {
        NothingHeld(o.options);
      }
    }
  }

  // ---- What the associations that nobody marked get -------------------------------------------------------

  /** An association of the same kind and IAID, without timers. */
  predicate SameAssociation(answer: Option, o: Option) {
    && o.Container? && answer.Container?
    && match o.header
       case IaNa(iaid, _, _) => answer.header == IaNa(iaid, 0, 0)
       case IaTa(iaid) => answer.header == IaTa(iaid)
       case IaPd(iaid, _, _) => answer.header == IaPd(iaid, 0, 0)
       case _ => false
  }

  predicate OnlyStatus(options: seq<Option>, code: int) {
    |options| == 1 && options[0].Leaf? && options[0].leaf.StatusCode? && options[0].leaf.status == code
  }

  /** Every address that `reported` holds, in order, without lifetime. */
  predicate WithdrawsAddresses(options: seq<Option>, reported: seq<Address>) {
    && |options| == |reported|
    && forall i | 0 <= i < |options| :: options[i] == Container(IaAddress(reported[i], 0, 0), [])
  }

  predicate WithdrawsPrefixes(options: seq<Option>, reported: seq<Network>) {
    && |options| == |reported|
    && forall i | 0 <= i < |options| ::
         options[i] == Container(IaPrefix(0, 0, reported[i].length, reported[i].address), [])
  }

  /** What section 18.2 of RFC 3315 and section 12.2 of RFC 3633 have the server say of an unknown association. */
  predicate IsToldOff(kind: Kind, o: Option, answer: Option, authoritative: bool) {
    && SameAssociation(answer, o)
    && match kind
       case Solicit => OnlyStatus(answer.options, if o.header.IaPd? then 6 else 2)
       case Request => OnlyStatus(answer.options, if o.header.IaPd? then 6 else 2)
       case Renew =>
         if o.header.IaPd? || !authoritative then OnlyStatus(answer.options, 3)
         else WithdrawsAddresses(answer.options, AddressesIn(o.options))
       case Rebind =>
         if o.header.IaPd? then WithdrawsPrefixes(answer.options, PrefixesIn(o.options))
         else WithdrawsAddresses(answer.options, AddressesIn(o.options))
       case Release => OnlyStatus(answer.options, 3)
       case Decline => OnlyStatus(answer.options, 3)
       case _ => false
  }

  lemma {:induction false} WithdrawnExactly(addresses: seq<Address>, prefixes: seq<Network>)
    ensures WithdrawsAddresses(Withdrawn(addresses), addresses)
    ensures WithdrawsPrefixes(WithdrawnPrefixes(prefixes), prefixes)
    decreases |addresses| + |prefixes|
  {
    if addresses != [] {
      WithdrawnExactly(addresses[1..], []);
      assert Withdrawn(addresses)[1..] == Withdrawn(addresses[1..]);
    }
    if prefixes != [] {
      WithdrawnExactly([], prefixes[1..]);
      assert WithdrawnPrefixes(prefixes)[1..] == WithdrawnPrefixes(prefixes[1..]);
    }
  }

  lemma LeftoverIsToldOff(kind: Kind, o: Option, authoritative: bool)
    requires AsksForAddresses(o) && kind != Confirm && kind != OtherKind
    ensures var a := LeftoverAnswer(kind, o, authoritative);
            a.Some? && (kind != Rebind || authoritative ==> IsToldOff(kind, o, a.value, authoritative))
  {
    hide WithdrawsAddresses;
    WithdrawnExactly(AddressesIn(o.options), []);
  }

  lemma LeftoverPdIsToldOff(kind: Kind, o: Option, authoritative: bool)
    requires AsPd(o) && kind != Confirm && kind != Decline && kind != OtherKind
    ensures var a := LeftoverPdAnswer(kind, o); a.Some? && IsToldOff(kind, o, a.value, authoritative)
  {
    hide WithdrawsPrefixes;
    WithdrawnExactly([], PrefixesIn(o.options));
  }

  lemma {:induction false} LeftoverNaTaHolds(kind: Kind, open: seq<Option>, response: seq<Option>, authoritative: bool)
    requires (forall o <- open :: IsIa(o)) && kind != Confirm
    ensures var after := LeftoverNaTa(kind, open, response, authoritative);
            && (forall x <- response :: x in after)
            && forall o <- open ::
                 var a := LeftoverAnswer(kind, o, authoritative); a.Some? ==> a.value in after
    decreases |open|
  {
    hide LeftoverAnswer;
    if open != [] {
      assert IsIa(open[0]) && open == [open[0]] + open[1..];
      var a := LeftoverAnswer(kind, open[0], authoritative);
      LeftoverNaTaHolds(kind, open[1..], if a.Some? then response + [a.value] else response, authoritative);
    }
  }

  lemma {:induction false} LeftoverPdsHold(kind: Kind, open: seq<Option>, response: seq<Option>)
    requires forall o <- open :: IsIa(o)
    ensures var after := LeftoverPds(kind, open, response);
            && (forall x <- response :: x in after)
            && forall o <- open :: var a := LeftoverPdAnswer(kind, o); a.Some? ==> a.value in after
    decreases |open|
  {
    hide LeftoverPdAnswer;
    if open != [] {
      assert IsIa(open[0]) && open == [open[0]] + open[1..];
      var a := LeftoverPdAnswer(kind, open[0]);
      LeftoverPdsHold(kind, open[1..], if a.Some? then response + [a.value] else response);
    }
  }

  /** What the answer keeps: all that the handlers put in, and the answer to everything they left. */
  lemma AnswerHolds(q: Query, start: seq<Option>, cs: seq<Assigner>, authoritative: bool)
    requires q.kind != Confirm && Answered(q, start, cs, authoritative).Some?
    ensures var s, answer := AllAssigned(q, State(start, []), cs), Answered(q, start, cs, authoritative).value;
            && (forall x <- s.response :: x in answer)
            && (forall o <- q.options :: AsksForAddresses(o) && o !in s.handled ==>
                  var a := LeftoverAnswer(q.kind, o, authoritative); a.Some? ==> a.value in answer)
            && (forall o <- q.options :: AsPd(o) && o !in s.handled ==>
                  var a := LeftoverPdAnswer(q.kind, o); a.Some? ==> a.value in answer)
  {
    hide AllAssigned, LeftoverAnswer, LeftoverPdAnswer, LeftoverNaTa, LeftoverPds, Unhandled, MustStaySilent;
    var s := AllAssigned(q, State(start, []), cs);
    var open, pds := Unhandled(q.options, s.handled, NATA), Unhandled(q.options, s.handled, PD);
    UnhandledExactly(q.options, s.handled, NATA);
    UnhandledExactly(q.options, s.handled, PD);
    forall o <- open ensures IsIa(o) {
      assert NATA(o);
    }
    forall o <- pds ensures IsIa(o) {
      assert PD(o);
    }
    LeftoverNaTaHolds(q.kind, open, s.response, authoritative);
    LeftoverPdsHold(q.kind, pds, LeftoverNaTa(q.kind, open, s.response, authoritative));
    assert forall o :: NATA(o) <==> AsksForAddresses(o);
    assert forall o :: PD(o) <==> AsPd(o);
  }

  /** Each association that no handler has marked is told off in the answer. */
  lemma UnmarkedIsToldOff(q: Query, start: seq<Option>, cs: seq<Assigner>, authoritative: bool, o: Option)
    requires q.kind != Confirm && q.kind != OtherKind && Answered(q, start, cs, authoritative).Some?
    requires o in q.options && IsAssociation(o) && o !in Marked(q, start, cs)
    requires !(q.kind == Decline && AsPd(o))
    ensures exists a <- Answered(q, start, cs, authoritative).value :: IsToldOff(q.kind, o, a, authoritative)
  {
    hide AllAssigned, LeftoverAnswer, LeftoverPdAnswer, Answered, IsToldOff;
    AnswerHolds(q, start, cs, authoritative);
    SilentIff(q, start, cs, authoritative);
    if AsksForAddresses(o) {
      LeftoverIsToldOff(q.kind, o, authoritative);
      assert LeftoverAnswer(q.kind, o, authoritative).value in Answered(q, start, cs, authoritative).value;
    } else {
      LeftoverPdIsToldOff(q.kind, o, authoritative);
      assert LeftoverPdAnswer(q.kind, o).value in Answered(q, start, cs, authoritative).value;
    }
  }

  /**
   The one status of the reply to a Confirm is 4, NotOnLink, if an association with addresses is left,
   and 0 otherwise.
   */
  lemma ConfirmIsToldOff(q: Query, start: seq<Option>, cs: seq<Assigner>)
    requires q.kind == Confirm && StatusesOf(start) == []
    requires exists o <- q.options :: IsAssociation(o) && !HoldsNothing(o)
    ensures Answered(q, start, cs, true).Some?
    ensures var left := exists o <- q.options :: AsksForAddresses(o) && o !in Marked(q, start, cs);
            var statuses := StatusesOf(Answered(q, start, cs, true).value);
            OnlyStatus(statuses, if left then 4 else 0)
  {
    hide AllAssigned, Answered, HoldsNothing, StatusesOf, HasResponse;
    ResponseIff(q);
    ConfirmHasOneStatus(q, start, cs);
    var handled := Marked(q, start, cs);
    UnhandledExactly(q.options, handled, NATA);
    HeadIsMember(Unhandled(q.options, handled, NATA));
    assert forall o :: NATA(o) <==> AsksForAddresses(o);
    var last := if Unhandled(q.options, handled, NATA) != [] then NOT_ON_LINK
                else Status(STATUS_SUCCESS, "Assignments confirmed");
    StatusesConcat(start, [last]);
    OneStatus(last);
  }

  /** Without a status of its own a reply to a Confirm, Release or Decline gets Success; no other reply changes. */
  lemma StatusIsAdded(kind: Kind, response: seq<Option>)
    ensures var r := WithStatus(kind, response);
            if (kind == Confirm || kind == Release || kind == Decline)
               && forall o <- response :: !(o.Leaf? && o.leaf.StatusCode?)
            then |r| == |response| + 1 && response <= r && OnlyStatus(r[|response|..], 0)
            else r == response
  {
    hide StatusesOf;
    NoStatusIff(response);
  }

  lemma {:induction false} NoStatusIff(response: seq<Option>)
    ensures StatusesOf(response) == [] <==> forall o <- response :: !(o.Leaf? && o.leaf.StatusCode?)
  {
    if response != [] {
      NoStatusIff(response[1..]);
      assert response == [response[0]] + response[1..];
    }
  }

  lemma OneStatus(status: Option)
    requires IsStatus(status)
    ensures StatusesOf([status]) == [status] && [] + [status] == [status]
  {
    assert [status][1..] == [];
  }

  // ---- When a Solicit is answered with a Reply ---------------------------------------------------------------

  /** The first status among the options is this one. */
  ghost predicate FirstStatusIs(options: seq<Option>, code: int) {
    exists i: nat | i < |options| ::
      options[i].Leaf? && options[i].leaf.StatusCode? && options[i].leaf.status == code
      && forall j: nat | j < i :: !(options[j].Leaf? && options[j].leaf.StatusCode?)
  }

  lemma {:induction false} FirstStatusExactly(options: seq<Option>, code: u16)
    ensures FirstStatus(options) == Some(code) <==> FirstStatusIs(options, code)
  {
    if options != [] {
      FirstStatusExactly(options[1..], code);
      if IsStatus(options[0]) {
        if FirstStatus(options) == Some(code) {
          assert FirstStatusIs(options, code);
        }
      } else {
        if FirstStatusIs(options, code) {
          var i: nat :| i < |options| && options[i].Leaf? && options[i].leaf.StatusCode?
                        && options[i].leaf.status == code
                        && forall j: nat | j < i :: !(options[j].Leaf? && options[j].leaf.StatusCode?);
          assert options[1..][i - 1] == options[i];
          assert forall j: nat | j < i - 1 :: options[1..][j] == options[j + 1];
        }
        if FirstStatusIs(options[1..], code) {
          var rest := options[1..];
          var i: nat :| i < |rest| && rest[i].Leaf? && rest[i].leaf.StatusCode? && rest[i].leaf.status == code
                        && forall j: nat | j < i :: !(rest[j].Leaf? && rest[j].leaf.StatusCode?);
          assert options[i + 1] == rest[i];
          assert forall j: nat | j < i + 1 && j > 0 :: options[j] == rest[j - 1];
        }
      }
    }
  }

  /** An answered association that refuses: NoAddrsAvail is 2, NoPrefixAvail 6. */
  ghost predicate IsRefused(o: Option) {
    IsAssociation(o) && FirstStatusIs(o.options, if o.header.IaPd? then 6 else 2)
  }

  lemma RefusesExactly(o: Option)
    ensures Refuses(o) <==> IsRefused(o)
  {
    hide FirstStatus, FirstStatusIs;
    if IsAssociation(o) {
      FirstStatusExactly(o.options, if o.header.IaPd? then 6 else 2);
    }
  }

  /**
   Rapid commit turns a response into a Reply just if it is allowed, the client asked for it in a
   Solicit, the response is an Advertise, and either rejections may be committed or there are none:
   every association is marked and no answered one refuses.
   */
  lemma RapidCommitIff(q: Query, handled: seq<Option>, response: Message, allowed: bool, rejections: bool)
    ensures var r := Committed(q, handled, response, allowed, rejections);
            && (r != response <==>
                  && allowed && q.kind == Solicit && Leaf(RapidCommit) in q.options
                  && response.ClientServer? && response.kind == 2
                  && (rejections || ((forall o <- q.options :: IsAssociation(o) ==> o in handled)
                                     && forall o <- response.options :: !IsRefused(o))))
            && (r != response ==>
                  r == ClientServer(7, response.transactionId, [Leaf(RapidCommit)] + response.options))
  {
    hide Unhandled, Refuses, IsRefused;
    var open := Unhandled(q.options, handled, IA);
    UnhandledExactly(q.options, handled, IA);
    HeadIsMember(open);
    assert forall o :: IA(o) <==> IsAssociation(o);
    if o :| o in q.options && IsAssociation(o) && o !in handled {
      assert o in open;
    }
    if response.ClientServer? {
      forall o <- response.options ensures Refuses(o) <==> IsRefused(o) {
        RefusesExactly(o);
      }
    }
  }
}
