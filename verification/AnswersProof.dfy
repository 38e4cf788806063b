/** What the answers to identity associations guarantee, for any number of assigning handlers. */
module AnswersProof {
  import opened Wire
  import opened Collections
  import opened Statuses
  import opened Answers

  // ---- Keys ------------------------------------------------------------------------------------

  lemma {:induction false} KeysConcat(a: seq<Option>, b: seq<Option>)
    ensures Keys(a + b) == Keys(a) + Keys(b)
  {
    if a == [] {
      assert a + b == b;
    } else {
      KeysConcat(a[1..], b);
      assert (a + b)[1..] == a[1..] + b && (a + b)[0] == a[0];
      var head := if IsIa(a[0]) then [KeyOf(a[0])] else [];
      assert head + (Keys(a[1..]) + Keys(b)) == (head + Keys(a[1..])) + Keys(b);
    }
  }

  lemma KeysSnoc(a: seq<Option>, o: Option)
    requires IsIa(o)
    ensures Keys(a + [o]) == Keys(a) + [KeyOf(o)]
  {
    KeysConcat(a, [o]);
    assert [o][1..] == [];
  }

  lemma {:induction false} KeyIsListed(options: seq<Option>, o: Option)
    requires o in options && IsIa(o)
    ensures KeyOf(o) in Keys(options)
  {
    if o != options[0] {
      KeyIsListed(options[1..], o);
    }
  }

  lemma {:induction false} ListedKey(options: seq<Option>, k: Key) returns (o: Option)
    requires k in Keys(options)
    ensures o in options && IsIa(o) && KeyOf(o) == k
  {
    if IsIa(options[0]) && KeyOf(options[0]) == k {
      o := options[0];
    } else {
      o := ListedKey(options[1..], k);
    }
  }

  /** With unique keys, a key names one option. */
  lemma {:induction false} KeyNamesOne(options: seq<Option>, o: Option, p: Option)
    requires AllDistinct(Keys(options)) && o in options && p in options && IsIa(o) && IsIa(p) && KeyOf(o) == KeyOf(p)
    ensures o == p
  {
    var rest := Keys(options[1..]);
    TailUnique(options);
    if o == options[0] && p != o {
      KeyIsListed(options[1..], p);
    } else if p == options[0] && p != o {
      KeyIsListed(options[1..], o);
    } else if o != options[0] {
      KeyNamesOne(options[1..], o, p);
    }
  }

  lemma TailUnique(options: seq<Option>)
    requires options != [] && AllDistinct(Keys(options))
    ensures AllDistinct(Keys(options[1..]))
    ensures IsIa(options[0]) ==> KeyOf(options[0]) !in Keys(options[1..])
  {
    if IsIa(options[0]) {
      assert Keys(options)[1..] == Keys(options[1..]) && Keys(options)[0] == KeyOf(options[0]);
      assert forall i | 0 <= i < |Keys(options[1..])| :: Keys(options[1..])[i] == Keys(options)[i + 1];
    } else {
      assert Keys(options) == Keys(options[1..]);
    }
  }

  /** What is unhandled keeps its order, so its keys are unique too. */
  lemma {:induction false} UnhandledKeys(options: seq<Option>, handled: seq<Option>, wanted: Option -> bool)
    requires AllDistinct(Keys(options)) && forall o :: wanted(o) ==> IsIa(o)
    ensures AllDistinct(Keys(Unhandled(options, handled, wanted))) && AllDistinct(Unhandled(options, handled, wanted))
    ensures forall k <- Keys(Unhandled(options, handled, wanted)) :: k in Keys(options)
  {
    if options != [] {
      TailUnique(options);
      UnhandledKeys(options[1..], handled, wanted);
      var rest := Unhandled(options[1..], handled, wanted);
      if wanted(options[0]) && options[0] !in handled {
        assert Unhandled(options, handled, wanted) == [options[0]] + rest;
        assert Keys([options[0]] + rest) == [KeyOf(options[0])] + Keys(rest);
        DistinctConcat([KeyOf(options[0])], Keys(rest));
        if options[0] in rest {
          KeyIsListed(rest, options[0]);
        }
        DistinctConcat([options[0]], rest);
      } else {
        assert Unhandled(options, handled, wanted) == rest;
      }
    }
  }

  // ---- Assigning handlers answer what they mark -------------------------------------------------

  /** What `validate` guarantees of a request: unique IAIDs, and no delegated prefixes in a Decline. */
  predicate Validated(q: Query) {
    AllDistinct(Keys(q.options)) && (q.kind.Decline? ==> forall o <- q.options :: !IsPd(o))
  }

  /** The answers so far are exactly those to the handled options, one each. */
  ghost predicate InStep(q: Query, s: State) {
    && AllDistinct(Keys(s.response))
    && (forall h <- s.handled :: h in q.options && IsIa(h))
    && (forall k :: k in Keys(s.response) <==> k in Keys(s.handled))
  }

  lemma AnswerKeepsStep(q: Query, s: State, o: Option, answer: Option)
    requires Validated(q) && InStep(q, s) && o in q.options && IsIa(o) && o !in s.handled
    requires IsIa(answer) && KeyOf(answer) == KeyOf(o)
    ensures InStep(q, Answer(s, o, answer))
  {
    KeysSnoc(s.response, answer);
    KeysSnoc(s.handled, o);
    if KeyOf(o) in Keys(s.handled) {
      var h := ListedKey(s.handled, KeyOf(o));
      KeyNamesOne(q.options, h, o);
      assert false;
    }
    DistinctConcat(Keys(s.response), [KeyOf(o)]);
  }

  /** The open options a handler walks over: of the request, unhandled, each once. */
  ghost predicate Open(q: Query, s: State, open: seq<Option>) {
    AllDistinct(open) && forall o <- open :: o in q.options && IsIa(o) && o !in s.handled
  }

  lemma OpenTail(q: Query, s: State, open: seq<Option>, after: State)
    requires open != [] && Open(q, s, open) && (forall h <- after.handled :: h in s.handled || h == open[0])
    ensures Open(q, after, open[1..]) && IsIa(open[0]) && open[0] in q.options && open[0] !in s.handled
  {
    assert open[0] in open;
    assert forall i | 0 <= i < |open| - 1 :: open[1..][i] == open[i + 1];
  }

  lemma UnhandledIsOpen(q: Query, s: State, wanted: Option -> bool)
    requires Validated(q) && forall o :: wanted(o) ==> IsIa(o)
    ensures Open(q, s, Unhandled(q.options, s.handled, wanted))
  {
    UnhandledKeys(q.options, s.handled, wanted);
    UnhandledExactly(q.options, s.handled, wanted);
  }

  lemma {:induction false} RenewPdsStep(q: Query, open: seq<Option>, s: State, c: Assigner)
    requires Validated(q) && InStep(q, s) && Open(q, s, open) && forall o <- open :: IsPd(o)
    ensures InStep(q, RenewPds(open, s, c))
    ensures forall h <- RenewPds(open, s, c).handled :: h in s.handled || IsPd(h)
    decreases |open|
  {
    hide InStep, Open, Recognises;
    if open != [] {
      var o := open[0];
      assert IsPd(o);
      var answer := AnswerTo(o, RenewedPrefixes(PrefixesIn(o.options), c));
      var next := if Recognises(c, o) then Answer(s, o, answer) else s;
      OpenTail(q, s, open, next);
      AnswerKeepsStep(q, s, o, answer);
      RenewPdsStep(q, open[1..], next, c);
    }
  }

  lemma {:induction false} RenewNasStep(q: Query, open: seq<Option>, s: State, c: Assigner)
    requires Validated(q) && InStep(q, s) && Open(q, s, open) && forall o <- open :: IsNa(o)
    ensures InStep(q, RenewNas(open, s, c))
    decreases |open|
  {
    hide InStep, Open;
    if open != [] {
      var o := open[0];
      assert IsNa(o);
      var answer := AnswerTo(o, RenewedAddresses(AddressesIn(o.options), c));
      OpenTail(q, s, open, Answer(s, o, answer));
      AnswerKeepsStep(q, s, o, answer);
      RenewNasStep(q, open[1..], Answer(s, o, answer), c);
    }
  }

  lemma AssignKeepsStep(q: Query, s: State, c: Assigner)
    requires Validated(q) && InStep(q, s)
    ensures InStep(q, AssignPrefix(q, s, c)) && InStep(q, AssignAddress(q, s, c))
  {
    hide InStep;
    UnhandledExactly(q.options, s.handled, PD);
    UnhandledExactly(q.options, s.handled, NA);
    var pds, nas := Unhandled(q.options, s.handled, PD), Unhandled(q.options, s.handled, NA);
    if c.prefix.Some? {
      FoundPd(pds, pds, c.prefix.value);
      match FindPd(pds, pds, c.prefix.value) {
        case None =>
        case Some(o) =>
          assert o in pds;
          AnswerKeepsStep(q, s, o, AnswerTo(o, [PrefixOption(c.prefix.value, c.prefixPreferred, c.prefixValid)]));
      }
    }
    if c.address.Some? {
      FoundNa(nas, nas, c.address.value);
      match FindNa(nas, nas, c.address.value) {
        case None =>
        case Some(o) =>
          assert o in nas;
          AnswerKeepsStep(q, s, o, AnswerTo(o, [AddressOption(c.address.value, c.addressPreferred, c.addressValid)]));
      }
    }
  }

  predicate Answering(kind: Kind) { kind.Solicit? || kind.Request? || kind.Renew? || kind.Rebind? }

  lemma AssignedKeepsStep(q: Query, s: State, c: Assigner)
    requires Validated(q) && Answering(q.kind) && InStep(q, s)
    ensures InStep(q, Assigned(q, s, c))
  {
    hide InStep, AssignPrefix, AssignAddress, Validated, Open, RenewPds, RenewNas;
    UnhandledExactly(q.options, s.handled, PD);
    UnhandledExactly(q.options, s.handled, NA);
    var pds, nas := Unhandled(q.options, s.handled, PD), Unhandled(q.options, s.handled, NA);
    AssignKeepsStep(q, s, c);
    AssignKeepsStep(q, AssignPrefix(q, s, c), c);
    UnhandledIsOpen(q, s, PD);
    UnhandledIsOpen(q, s, NA);
    RenewPdsStep(q, pds, s, c);
    StillOpen(q, s, RenewPds(pds, s, c), nas);
    RenewNasStep(q, nas, RenewPds(pds, s, c), c);
  }

  lemma StillOpen(q: Query, s: State, after: State, nas: seq<Option>)
    requires Open(q, s, nas) && (forall o <- nas :: IsNa(o)) && forall h <- after.handled :: h in s.handled || IsPd(h)
    ensures Open(q, after, nas)
  {
  }

  lemma {:induction false} AllAssignedKeepStep(q: Query, s: State, cs: seq<Assigner>)
    requires Validated(q) && Answering(q.kind) && InStep(q, s)
    ensures InStep(q, AllAssigned(q, s, cs))
    decreases |cs|
  {
    hide InStep, Assigned, Validated;
    if cs != [] {
      AssignedKeepsStep(q, s, cs[0]);
      AllAssignedKeepStep(q, Assigned(q, s, cs[0]), cs[1..]);
    }
  }

  // ---- The handlers for what is left over --------------------------------------------------------

  lemma LeftoverAnswerKey(kind: Kind, o: Option, authoritative: bool)
    requires IsIa(o) && (Answering(kind) || kind.Release? || kind.Decline?)
    ensures var answer := LeftoverAnswer(kind, o, authoritative);
            answer.Some? && IsIa(answer.value) && KeyOf(answer.value) == KeyOf(o)
  {
  }

  lemma LeftoverPdAnswerKey(kind: Kind, o: Option)
    requires IsIa(o) && (Answering(kind) || kind.Release?)
    ensures var answer := LeftoverPdAnswer(kind, o);
            answer.Some? && IsIa(answer.value) && KeyOf(answer.value) == KeyOf(o)
  {
  }

  lemma {:induction false} LeftoverNaTaKeys(kind: Kind, open: seq<Option>, response: seq<Option>, authoritative: bool)
    requires forall o <- open :: IsIa(o)
    requires Answering(kind) || kind.Release? || kind.Decline?
    ensures Keys(LeftoverNaTa(kind, open, response, authoritative)) == Keys(response) + Keys(open)
    decreases |open|
  {
    if open == [] {
    } else {
      assert IsIa(open[0]);
      LeftoverAnswerKey(kind, open[0], authoritative);
      hide LeftoverAnswer;
      var answer := LeftoverAnswer(kind, open[0], authoritative).value;
      KeysSnoc(response, answer);
      LeftoverNaTaKeys(kind, open[1..], response + [answer], authoritative);
      assert Keys(response) + ([KeyOf(open[0])] + Keys(open[1..]))
          == (Keys(response) + [KeyOf(open[0])]) + Keys(open[1..]);
    }
  }

  lemma {:induction false} LeftoverPdKeys(kind: Kind, open: seq<Option>, response: seq<Option>)
    requires forall o <- open :: IsIa(o)
    requires Answering(kind) || kind.Release? || open == []
    ensures Keys(LeftoverPds(kind, open, response)) == Keys(response) + Keys(open)
    decreases |open|
  {
    if open == [] {
    } else {
      assert IsIa(open[0]);
      LeftoverPdAnswerKey(kind, open[0]);
      hide LeftoverPdAnswer;
      var answer := LeftoverPdAnswer(kind, open[0]).value;
      KeysSnoc(response, answer);
      LeftoverPdKeys(kind, open[1..], response + [answer]);
      assert Keys(response) + ([KeyOf(open[0])] + Keys(open[1..]))
          == (Keys(response) + [KeyOf(open[0])]) + Keys(open[1..]);
    }
  }

  lemma WithStatusKeys(kind: Kind, response: seq<Option>)
    ensures Keys(WithStatus(kind, response)) == Keys(response)
  {
    var status := Status(STATUS_SUCCESS, SuccessText(kind));
    KeysConcat(response, [status]);
    assert [status][1..] == [];
  }

  /** The keys of the whole answer: those given, then the open addresses, then the open prefixes. */
  lemma AnsweredKeys(q: Query, start: seq<Option>, cs: seq<Assigner>, authoritative: bool)
    requires Validated(q) && (Answering(q.kind) || q.kind.Release? || q.kind.Decline?)
    requires Answered(q, start, cs, authoritative).Some?
    ensures var s := AllAssigned(q, State(start, []), cs);
            Keys(Answered(q, start, cs, authoritative).value) ==
            Keys(s.response) + Keys(Unhandled(q.options, s.handled, NATA)) + Keys(Unhandled(q.options, s.handled, PD))
  {
    hide AllAssigned, LeftoverNaTa, LeftoverPds, WithStatus;
    var s := AllAssigned(q, State(start, []), cs);
    UnhandledExactly(q.options, s.handled, NATA);
    UnhandledExactly(q.options, s.handled, PD);
    var open, pds := Unhandled(q.options, s.handled, NATA), Unhandled(q.options, s.handled, PD);
    if pds != [] {
      assert pds[0] in pds;
    }
    LeftoverNaTaKeys(q.kind, open, s.response, authoritative);
    LeftoverPdKeys(q.kind, pds, LeftoverNaTa(q.kind, open, s.response, authoritative));
    WithStatusKeys(q.kind, LeftoverPds(q.kind, pds, LeftoverNaTa(q.kind, open, s.response, authoritative)));
  }

  /** Open addresses and open prefixes have different keys, and each list has unique ones. */
  lemma OpenKeys(q: Query, s: State)
    requires Validated(q)
    ensures AllDistinct(Keys(Unhandled(q.options, s.handled, NATA)) + Keys(Unhandled(q.options, s.handled, PD)))
  {
    UnhandledKeys(q.options, s.handled, NATA);
    UnhandledKeys(q.options, s.handled, PD);
    UnhandledExactly(q.options, s.handled, NATA);
    UnhandledExactly(q.options, s.handled, PD);
    var open, pds := Unhandled(q.options, s.handled, NATA), Unhandled(q.options, s.handled, PD);
    forall k <- Keys(open) ensures k !in Keys(pds) {
      var o := ListedKey(open, k);
      if k in Keys(pds) {
        var p := ListedKey(pds, k);
      }
    }
    DistinctConcat(Keys(open), Keys(pds));
  }

  /**
   A Solicit, Request, Renew or Rebind gets exactly one IA of the same kind and IAID for each IA
   it contains, and no other IA, whatever the handlers assign. An authoritative server always answers.
   */
  lemma EveryIaIsAnsweredOnce(q: Query, start: seq<Option>, cs: seq<Assigner>, authoritative: bool)
    requires Validated(q) && Answering(q.kind) && Keys(start) == []
    ensures authoritative ==> Answered(q, start, cs, authoritative).Some?
    ensures Answered(q, start, cs, authoritative).Some? ==>
              var keys := Keys(Answered(q, start, cs, authoritative).value);
              AllDistinct(keys) && forall k :: k in keys <==> k in Keys(q.options)
  {
    if Answered(q, start, cs, authoritative).Some? {
      AnsweredOnce(q, start, cs, authoritative);
    }
  }

  lemma AnsweredOnce(q: Query, start: seq<Option>, cs: seq<Assigner>, authoritative: bool)
    requires Validated(q) && Answering(q.kind) && Keys(start) == []
    requires Answered(q, start, cs, authoritative).Some?
    ensures var keys := Keys(Answered(q, start, cs, authoritative).value);
            AllDistinct(keys) && forall k :: k in keys <==> k in Keys(q.options)
  {
    hide AllAssigned, Answered, InStep, Keys, Unhandled, Validated;
    assert InStep(q, State(start, [])) by { StartInStep(q, start); }
    AllAssignedKeepStep(q, State(start, []), cs);
    AnsweredKeys(q, start, cs, authoritative);
    var s := AllAssigned(q, State(start, []), cs);
    OpenKeys(q, s);
    PartitionOfKeys(q, s);
    var open, pds := Keys(Unhandled(q.options, s.handled, NATA)), Keys(Unhandled(q.options, s.handled, PD));
    var given := Keys(s.response);
    assert given + open + pds == given + (open + pds);
    DistinctConcat(given, open + pds);
    hide AllDistinct;
    assert forall k :: k in given + (open + pds) <==> k in given || k in open + pds;
  }

  lemma StartInStep(q: Query, start: seq<Option>)
    requires Keys(start) == []
    ensures InStep(q, State(start, []))
  {
  }

  /** Each key of the request is answered already, or belongs to an open option, not both. */
  lemma PartitionOfKeys(q: Query, s: State)
    requires Validated(q) && InStep(q, s)
    ensures AllDistinct(Keys(s.response))
    ensures var open := Keys(Unhandled(q.options, s.handled, NATA)) + Keys(Unhandled(q.options, s.handled, PD));
            (forall k <- Keys(s.response) :: k !in open) && forall k :: k in Keys(q.options) <==>
                k in Keys(s.response) || k in open
  {
    UnhandledExactly(q.options, s.handled, NATA);
    UnhandledExactly(q.options, s.handled, PD);
    UnhandledKeys(q.options, s.handled, NATA);
    UnhandledKeys(q.options, s.handled, PD);
    var nata, pds := Unhandled(q.options, s.handled, NATA), Unhandled(q.options, s.handled, PD);
    forall k <- Keys(s.response) ensures k !in Keys(nata) + Keys(pds) && k in Keys(q.options) {
      var h := ListedKey(s.handled, k);
      KeyIsListed(q.options, h);
      if k in Keys(nata) {
        var o := ListedKey(nata, k);
        KeyNamesOne(q.options, h, o);
      }
      if k in Keys(pds) {
        var o := ListedKey(pds, k);
        KeyNamesOne(q.options, h, o);
      }
    }
    forall k <- Keys(q.options) ensures k in Keys(s.response) || k in Keys(nata) + Keys(pds) {
      var o := ListedKey(q.options, k);
      if o in s.handled {
        KeyIsListed(s.handled, o);
      } else if IsPd(o) {
        KeyIsListed(pds, o);
      } else {
        KeyIsListed(nata, o);
      }
    }
  }
}
