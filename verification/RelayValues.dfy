/** Relay chains as message values: how a chain nests, is split, and is answered. */
module RelayValues {
  import opened Bytes
  import opened Wire
  import opened Collections

  /** `get_option_of_type(RelayMessageOption)` on a list of options, and the message inside. */
  function FirstRelayed(options: seq<Option>): (m: Maybe<Message>)
    ensures m.Some? ==> RelayMessage(m.value) in options
  {
    if options == [] then None
    else if options[0].RelayMessage? then Some(options[0].message)
    else FirstRelayed(options[1..])
  }

  predicate IsRelayForward(m: Message) { m.Relay? && m.kind == MSG_RELAY_FORW }

  /** The message types whose class has `from_client_to_server = True` and is a `ClientServerMessage`. */
  predicate FromClient(kind: byte) { kind in {1, 3, 4, 5, 6, 8, 9, 11, 14} }

  /** The message types whose class has `from_server_to_client = True`. */
  predicate FromServer(kind: byte) { kind in {2, 7, 10, 13, 15, 16, 17} }

  /** What a relay message contains is a smaller message. */
  lemma RelayedIsSmaller(m: Message)
    requires !m.UnknownMessage? && FirstRelayed(m.options).Some?
    ensures m decreases to FirstRelayed(m.options).value
  {
    var inner := FirstRelayed(m.options).value;
    var i :| 0 <= i < |m.options| && m.options[i] == RelayMessage(inner);
    assert m.options[i] decreases to inner;
  }

  /** The message a chain of relay-forward messages was sent for, if it ends in one. */
  function Innermost(m: Message): Maybe<Message>
    decreases m
  {
    if IsRelayForward(m) then
      match FirstRelayed(m.options)
      case None => None
      case Some(inner) => RelayedIsSmaller(m); Innermost(inner)
    else Some(m)
  }

  /** The relay-forward messages around the innermost one, the relay closest to the client first. */
  function Relays(m: Message): (chain: seq<Message>)
    ensures forall r <- chain :: IsRelayForward(r)
    ensures IsRelayForward(m) ==> chain != [] && chain[|chain| - 1] == m
    ensures !IsRelayForward(m) ==> chain == []
    decreases m
  {
    if IsRelayForward(m) then
      match FirstRelayed(m.options)
      case None => [m]
      case Some(inner) => RelayedIsSmaller(m); Relays(inner) + [m]
    else []
  }

  /** Whether `split_relay_chain` accepts what it finds inside: a client message it could decode. */
  predicate IsRequest(m: Maybe<Message>) {
    m.Some? && m.value.ClientServer? && FromClient(m.value.kind)
  }

  lemma OneRelayIn(m: Message)
    requires IsRelayForward(m)
    ensures var inner := FirstRelayed(m.options);
            && Relays(m) == (if inner.Some? then Relays(inner.value) else []) + [m]
            && Innermost(m) == (if inner.Some? then Innermost(inner.value) else None)
            && (inner.Some? ==> (m decreases to inner.value))
  {
    if FirstRelayed(m.options).Some? {
      RelayedIsSmaller(m);
    }
  }

  lemma NoRelayIn(m: Message)
    requires !IsRelayForward(m)
    ensures Relays(m) == [] && Innermost(m) == Some(m)
  {
  }

  /** `split_relay_chain`: the request and its relays, or nothing at all. */
  method SplitRelayChain(message: Message) returns (request: Maybe<Message>, relays: seq<Message>)
    ensures if IsRequest(Innermost(message)) then request == Innermost(message) && relays == Relays(message)
            else request == None && relays == []
  {
    hide Relays, Innermost, FirstRelayed, FromClient;
    relays := [];
    var current := Some(message);
    assert Relays(message) == Relays(message) + [];
    while current.Some? && IsRelayForward(current.value)
      invariant Relays(message) == (if current.Some? then Relays(current.value) else []) + relays
      invariant Innermost(message) == if current.Some? then Innermost(current.value) else None
      decreases current.Some?, if current.Some? then current.value else message
    {
      ghost var m, inner := current.value, FirstRelayed(current.value.options);
      OneRelayIn(m);
      ghost var outer := if inner.Some? then Relays(inner.value) else [];
      assert (outer + [m]) + relays == outer + ([m] + relays);
      relays := [current.value] + relays;
      current := FirstRelayed(current.value.options);
    }
    if current.Some? {
      NoRelayIn(current.value);
    }
    assert [] + relays == relays;
    if current.None? || !current.value.ClientServer? || !FromClient(current.value.kind) {
      return None, [];
    }
    return current, relays;
  }

  /** `reply` is a relay-reply that a relay agent can match with the relay-forward `forward` it sent. */
  predicate AnswersRelay(reply: Message, forward: Message) {
    && reply.Relay? && reply.kind == MSG_RELAY_REPL && forward.Relay?
    && reply.hopCount == forward.hopCount && reply.link == forward.link && reply.peer == forward.peer
  }

  function RelayedOptions(options: seq<Option>): seq<Option> {
    if options == [] then []
    else (if options[0].RelayMessage? then [options[0]] else []) + RelayedOptions(options[1..])
  }

  lemma {:induction false} OnlyRelayedIsFirst(options: seq<Option>, m: Message)
    requires RelayedOptions(options) == [RelayMessage(m)]
    ensures FirstRelayed(options) == Some(m)
  {
    if options[0].RelayMessage? {
      assert RelayedOptions(options)[0] == options[0];
    } else {
      assert RelayedOptions(options) == [] + RelayedOptions(options[1..]);
      OnlyRelayedIsFirst(options[1..], m);
    }
  }

  /**
   Section 20.3 of RFC 3315: unwrapping `m` from the outside gives one matching relay-reply for
   every relay the request came through, each with exactly one relay-message option, and then
   `response`.
   */
  predicate Unwraps(m: Message, relays: seq<Message>, response: Message)
    decreases |relays|
  {
    if relays == [] then m == response
    else
      && AnswersRelay(m, relays[|relays| - 1])
      && RelayedOptions(m.options) != []
      && RelayedOptions(m.options)[0].RelayMessage?
      && RelayedOptions(m.options) == [RelayMessage(RelayedOptions(m.options)[0].message)]
      && Unwraps(RelayedOptions(m.options)[0].message, relays[..|relays| - 1], response)
  }

  /** Unwrapping finds exactly one response: the chain carries no other message. */
  lemma {:induction false} UnwrapsOneResponse(m: Message, relays: seq<Message>, x: Message, y: Message)
    requires Unwraps(m, relays, x) && Unwraps(m, relays, y)
    ensures x == y
    decreases |relays|
  {
    if relays == [] {
    } else {
      UnwrapsOneResponse(RelayedOptions(m.options)[0].message, relays[..|relays| - 1], x, y);
    }
  }
}
