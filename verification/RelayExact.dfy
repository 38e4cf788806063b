/** Which messages and options pass a relay chain, by their numbers, and what comes back to each relay. */
module RelayExact {
  import opened Bytes
  import opened Wire
  import opened Collections
  import opened RelayValues
  import opened RelayChain
  import W = WireFormat
  import S = RelayStore

  /**
   Each type of client-server message goes one way: Solicit, Request, Confirm, Renew, Rebind,
   Release, Decline, Information-request and Leasequery to the server, the others to the client.
   */
  lemma DirectionOfEachKind(kind: byte)
    ensures FromClient(kind) <==> kind == 1 || 3 <= kind <= 6 || 8 <= kind <= 9 || kind == 11 || kind == 14
    ensures 1 <= kind <= 11 || 14 <= kind <= 17 ==> (FromServer(kind) <==> !FromClient(kind))
    ensures kind == 12 ==> !FromServer(kind)
    ensures kind == 13 ==> FromServer(kind)
  {
  }

  /** The first relay-message option counts. */
  lemma {:induction false} FirstRelayedIff(options: seq<Option>, m: Message)
    ensures FirstRelayed(options) == Some(m) <==>
              exists i: nat | i < |options| ::
                options[i] == RelayMessage(m) && forall j: nat | j < i :: !options[j].RelayMessage?
  {
    if options != [] {
      var rest := options[1..];
      FirstRelayedIff(rest, m);
      if options[0].RelayMessage? {
        if FirstRelayed(options) == Some(m) {
          assert options[0] == RelayMessage(m);
        }
      } else {
        if FirstRelayed(rest) == Some(m) {
          var i: nat :| i < |rest| && rest[i] == RelayMessage(m) && forall j: nat | j < i :: !rest[j].RelayMessage?;
          assert options[i + 1] == RelayMessage(m);
          assert forall j: nat | 0 < j < i + 1 :: options[j] == rest[j - 1];
        }
        if i: nat :| i < |options| && options[i] == RelayMessage(m)
                     && forall j: nat | j < i :: !options[j].RelayMessage? {
          assert rest[i - 1] == RelayMessage(m);
          assert forall j: nat | j < i - 1 :: rest[j] == options[j + 1];
        }
      }
    }
  }

  /**
   `m` is `request` as its relays have passed it on: the first relay has put it in a relay-forward
   message (12), the next one that message, and so on.
   */
  ghost predicate IsChain(m: Message, relays: seq<Message>, request: Message) {
    && !(request.Relay? && request.kind == 12)
    && (forall r <- relays :: r.Relay? && r.kind == 12)
    && (if relays == [] then m == request
        else m == relays[|relays| - 1] && FirstRelayed(relays[0].options) == Some(request))
    && forall i | 0 < i < |relays| :: FirstRelayed(relays[i].options) == Some(relays[i - 1])
  }

  /** Splitting finds the one chain that a message is. */
  lemma {:induction false} SplitIsExact(m: Message, relays: seq<Message>, request: Message)
    ensures IsChain(m, relays, request) <==> Relays(m) == relays && Innermost(m) == Some(request)
    decreases m
  {
    hide FirstRelayed, Relays, Innermost;
    if IsRelayForward(m) {
      OneRelayIn(m);
      var n, inner := |relays| - 1, FirstRelayed(m.options);
      if relays != [] && inner.Some? {
        SplitIsExact(inner.value, relays[..n], request);
        LongerChain(m, relays, request);
        LastOf(relays, Relays(inner.value), m);
      } else if relays != [] && IsChain(m, relays, request) {
        OutermostHolds(m, relays, request);
      }
    } else {
      NoRelayIn(m);
    }
  }

  lemma LastOf(relays: seq<Message>, others: seq<Message>, m: Message)
    requires relays != []
    ensures relays == others + [m] <==> relays[|relays| - 1] == m && relays[..|relays| - 1] == others
  {
  }

  lemma OutermostHolds(m: Message, relays: seq<Message>, request: Message)
    requires relays != [] && IsChain(m, relays, request)
    ensures m.Relay? && FirstRelayed(m.options).Some?
  {
    hide FirstRelayed;
    var n := |relays| - 1;
    assert m == relays[n] && relays[n] in relays;
    var inner := FirstRelayed(relays[n].options);
    assert n == 0 || inner == Some(relays[n - 1]);
  }

  lemma LongerChain(m: Message, relays: seq<Message>, request: Message)
    requires relays != [] && IsRelayForward(m) && FirstRelayed(m.options).Some?
    ensures var n := |relays| - 1;
            IsChain(m, relays, request) <==>
              relays[n] == m && IsChain(FirstRelayed(m.options).value, relays[..n], request)
  {
    hide FirstRelayed;
    var n := |relays| - 1;
    assert relays == relays[..n] + [relays[n]];
  }

  /**
   A relay-reply has room for the relayed message (9), Authentication (11), Interface-Id (18),
   Remote-Id (37), Subscriber-Id (38), a link-layer address (79), and what has no class at all.
   */
  lemma MayContainIff(code: u16)
    ensures MayContain(code) <==>
              || code == 9 || code == 11 || code == 18 || code == 37 || code == 38 || code == 79
              || !W.TakenCode(code)
  {
    W.TakenIsRegistered(code);
  }

  lemma OfCodeStep(a: seq<Option>, code: u16)
    ensures OptionsOfCode(a, code)
         == if a == [] then [] else (if W.CodeOf(a[0]) == code then [a[0]] else []) + OptionsOfCode(a[1..], code)
  {
    hide OptionCode, W.CodeOf;
    if a != [] {
      W.OptionIsFormat(a[0]);
    }
  }

  /** The options of a code are all of those, in order. */
  lemma {:induction false} OfCodeMembers(options: seq<Option>, code: u16)
    ensures forall o :: o in OptionsOfCode(options, code) <==> o in options && W.CodeOf(o) == code
  {
    hide OptionsOfCode, W.CodeOf;
    OfCodeStep(options, code);
    if options != [] {
      OfCodeMembers(options[1..], code);
      assert options == [options[0]] + options[1..];
    }
  }

  lemma {:induction false} OfCodeConcat(a: seq<Option>, b: seq<Option>, code: u16)
    ensures OptionsOfCode(a + b, code) == OptionsOfCode(a, code) + OptionsOfCode(b, code)
  {
    hide OptionsOfCode, W.CodeOf;
    OfCodeStep(a, code);
    OfCodeStep(a + b, code);
    if a == [] {
      assert a + b == b;
    } else {
      OfCodeConcat(a[1..], b, code);
      assert (a + b)[1..] == a[1..] + b && (a + b)[0] == a[0];
      var head := if W.CodeOf(a[0]) == code then [a[0]] else [];
      Associative(head, OptionsOfCode(a[1..], code), OptionsOfCode(b, code));
    }
  }

  /** The Interface-Id of a relay comes back to it in front of the reply, and no other one with it. */
  lemma InterfaceIdComesBack(entries: seq<Entry>, forward: Message, before: seq<Option>, id: bytes, after: seq<Option>)
    requires forward.Relay? && forward.options == before + [Leaf(InterfaceId(id))] + after
    requires forall o <- before + after :: W.CodeOf(o) != 18
    ensures var r := Copied(entries, forward, 18);
            && r != [] && r[0] == Plain(Leaf(InterfaceId(id)))
            && forall i | 0 < i < |r| :: EntryCode(r[i]) != 18
  {
    hide Copied, OptionCode, OptionsOfCode, MayContain;
    var option := Leaf(InterfaceId(id));
    MayContainIff(18);
    CopiedByCode(entries, forward, 18);
    OnlyOneOfCode(before, option, after, 18);
    assert Plains([option]) == [Plain(option)];
    var r := Copied(entries, forward, 18);
    assert Plains([option]) <= r;
    assert r[0] == Plain(option);
  }

  lemma OnlyOneOfCode(before: seq<Option>, option: Option, after: seq<Option>, code: u16)
    requires W.CodeOf(option) == code && forall o <- before + after :: W.CodeOf(o) != code
    ensures OptionsOfCode(before + [option] + after, code) == [option]
  {
    hide OptionsOfCode, W.CodeOf;
    OfCodeConcat(before + [option], after, code);
    OfCodeConcat(before, [option], code);
    OfCodeMembers(before, code);
    OfCodeMembers(after, code);
    OfCodeStep([option], code);
    OfCodeStep([], code);
    assert [option][1..] == [];
    HeadIsMember(OptionsOfCode(before, code));
    HeadIsMember(OptionsOfCode(after, code));
  }

  // ---- What a relay asks to have echoed ---------------------------------------------------------------

  predicate Has(forward: Message, code: u16)
    requires forward.Relay?
  {
    exists o <- forward.options :: W.CodeOf(o) == code
  }

  /** A requested code ends the work if its option is there, is not in the reply yet, and may not be. */
  predicate Stops(entries: seq<Entry>, forward: Message, code: u16)
    requires forward.Relay?
  {
    !HasCode(entries, code) && Has(forward, code) && !MayContain(code)
  }

  /** The code is requested, and nothing requested before it ends the work. */
  ghost predicate IsReached(entries: seq<Entry>, forward: Message, requested: seq<u16>, code: u16)
    requires forward.Relay?
  {
    exists i: nat | i < |requested| ::
      requested[i] == code && forall j: nat | j < i :: !Stops(entries, forward, requested[j])
  }

  lemma ReachedStep(entries: seq<Entry>, forward: Message, requested: seq<u16>, code: u16)
    requires forward.Relay? && requested != []
    ensures IsReached(entries, forward, requested, code) <==>
              requested[0] == code
              || (!Stops(entries, forward, requested[0]) && IsReached(entries, forward, requested[1..], code))
  {
    hide Stops;
    var rest := requested[1..];
    if requested[0] != code {
      if IsReached(entries, forward, requested, code) {
        var i: nat :| i < |requested| && requested[i] == code
                      && forall j: nat | j < i :: !Stops(entries, forward, requested[j]);
        assert rest[i - 1] == code && forall j: nat | j < i - 1 :: rest[j] == requested[j + 1];
      }
      if !Stops(entries, forward, requested[0]) && IsReached(entries, forward, rest, code) {
        var i: nat :| i < |rest| && rest[i] == code && forall j: nat | j < i :: !Stops(entries, forward, rest[j]);
        assert requested[i + 1] == code && forall j: nat | 0 < j < i + 1 :: requested[j] == rest[j - 1];
      }
    }
  }

  lemma HasIff(forward: Message, code: u16)
    requires forward.Relay?
    ensures Has(forward, code) <==> OptionsOfCode(forward.options, code) != []
  {
    hide OptionsOfCode, W.CodeOf;
    var found := OptionsOfCode(forward.options, code);
    OfCodeMembers(forward.options, code);
    if found != [] {
      assert found[0] in found;
    }
  }

  lemma HasCodeOfMore(entries: seq<Entry>, found: seq<Option>, code: u16, c: u16)
    requires forall o <- found :: OptionCode(o) == code
    ensures HasCode(entries + Plains(found), c) <==> HasCode(entries, c) || (found != [] && c == code)
  {
    hide OptionCode;
    if found != [] {
      assert Plain(found[0]) == Plains(found)[0] && Plains(found)[0] in entries + Plains(found);
    }
    assert forall e <- Plains(found) :: e.Plain? && e.option in found;
    assert forall e :: e in entries + Plains(found) <==> e in entries || e in Plains(found);
  }

  lemma {:induction false} SameReached(entries: seq<Entry>, more: seq<Entry>, forward: Message, requested: seq<u16>,
      code: u16)
    requires forward.Relay? && forall c: u16 | !MayContain(c) :: HasCode(entries, c) <==> HasCode(more, c)
    ensures IsReached(entries, forward, requested, code) <==> IsReached(more, forward, requested, code)
  {
    hide HasCode, Has, MayContain;
    assert forall c: u16 :: Stops(entries, forward, c) <==> Stops(more, forward, c);
  }

  /**
   After an echo request the reply has an option of a code exactly if it had one before, or the relay sent
   one that may go back and the request reaches it.
   */
  lemma {:induction false} EchoedExactly(entries: seq<Entry>, forward: Message, requested: seq<u16>, code: u16)
    requires forward.Relay?
    ensures HasCode(Echoed(entries, forward, requested), code) <==>
              HasCode(entries, code)
              || (Has(forward, code) && MayContain(code) && IsReached(entries, forward, requested, code))
    decreases |requested|
  {
    hide HasCode, Has, MayContain, IsReached, OptionsOfCode, Stops;
    if requested == [] {
      NothingReached(entries, forward, code);
    } else {
      var c, rest := requested[0], requested[1..];
      var found := OptionsOfCode(forward.options, c);
      ReachedStep(entries, forward, requested, code);
      HasIff(forward, c);
      StopsIs(entries, forward, c);
      if HasCode(entries, c) {
        EchoedExactly(entries, forward, rest, code);
      } else if !(found != [] && !MayContain(c)) {
        var more := entries + Plains(found);
        forall x: u16 ensures HasCode(more, x) <==> HasCode(entries, x) || (found != [] && x == c) {
          HasCodeOfMore(entries, found, c, x);
        }
        SameReached(entries, more, forward, rest, code);
        EchoedExactly(more, forward, rest, code);
      }
    }
  }

  /** What is added is what the relay sent, and of a code that is added nothing is left out. */
  lemma {:induction false} EchoedMembers(entries: seq<Entry>, forward: Message, requested: seq<u16>)
    requires forward.Relay?
    ensures var r := Echoed(entries, forward, requested);
            && entries <= r
            && (forall e <- r :: e in entries || (e.Plain? && e.option in forward.options))
            && forall o <- forward.options | HasCode(r, OptionCode(o)) && !HasCode(entries, OptionCode(o)) ::
                 Plain(o) in r
    decreases |requested|
  {
    hide HasCode, MayContain, OptionsOfCode, OptionCode;
    if requested != [] {
      var c, rest := requested[0], requested[1..];
      var found := OptionsOfCode(forward.options, c);
      if HasCode(entries, c) {
        EchoedMembers(entries, forward, rest);
      } else if !(found != [] && !MayContain(c)) {
        var more := entries + Plains(found);
        OfCodeMembers(forward.options, c);
        forall x: u16 ensures HasCode(more, x) <==> HasCode(entries, x) || (found != [] && x == c) {
          HasCodeOfMore(entries, found, c, x);
        }
        EchoedMembers(more, forward, rest);
        FoundIsAdded(entries, forward, c);
      }
    }
  }

  lemma FoundIsAdded(entries: seq<Entry>, forward: Message, c: u16)
    requires forward.Relay?
    ensures var more := entries + Plains(OptionsOfCode(forward.options, c));
            && (forall o <- forward.options | OptionCode(o) == c :: Plain(o) in more)
            && forall e <- more :: e in entries || (e.Plain? && e.option in forward.options)
  {
    hide OptionsOfCode, OptionCode, W.CodeOf;
    var found := OptionsOfCode(forward.options, c);
    OfCodeMembers(forward.options, c);
    forall o <- forward.options | OptionCode(o) == c ensures Plain(o) in Plains(found) {
      W.OptionIsFormat(o);
      var i :| 0 <= i < |found| && found[i] == o;
      assert Plains(found)[i] == Plain(o);
    }
  }

  lemma NothingReached(entries: seq<Entry>, forward: Message, code: u16)
    requires forward.Relay?
    ensures !IsReached(entries, forward, [], code)
  {
  }

  lemma StopsIs(entries: seq<Entry>, forward: Message, c: u16)
    requires forward.Relay?
    ensures Stops(entries, forward, c) <==> !HasCode(entries, c) && Has(forward, c) && !MayContain(c)
  {
  }

  // ---- What is stored ----------------------------------------------------------------------------------

  /**
   An option is stored unless its code is configured as sensitive or it is one of Client Identifier, Server
   Identifier, IA_NA, IA_TA, IA Address, Option Request, Relay Message, Status Code, IA_PD and IA Prefix.
   */
  lemma StorableIff(o: Option, sensitive: seq<u16>)
    ensures S.IsStorable(o, sensitive) <==>
              && W.CodeOf(o) as u16 !in sensitive && (W.CodeOf(o) < 1 || 6 < W.CodeOf(o))
              && W.CodeOf(o) != 9 && W.CodeOf(o) != 13 && W.CodeOf(o) != 25 && W.CodeOf(o) != 26
  {
    W.OptionIsFormat(o);
    hide W.CodeOf, OptionCode;
  }

  /** All of these are stored, in order. */
  lemma {:induction false} StorableExactly(a: seq<Option>, b: seq<Option>, sensitive: seq<u16>)
    ensures forall o :: o in S.Storable(a, sensitive) <==> o in a && S.IsStorable(o, sensitive)
    ensures S.Storable(a + b, sensitive) == S.Storable(a, sensitive) + S.Storable(b, sensitive)
  {
    hide S.IsStorable;
    S.StorableConcat(a, b, sensitive);
    if a != [] {
      StorableExactly(a[1..], [], sensitive);
      assert a == [a[0]] + a[1..];
    }
  }
}
