/**
 The outgoing half of a transaction: a chain of relay-reply objects whose innermost payload is
 replaced in place, after handlers have rewritten the option lists along the chain.
 */
module RelayChain {
  import opened Bytes
  import opened Wire
  import opened Collections
  import opened RelayValues

  /** What a relay-message option object holds. */
  datatype Payload = Nothing | Response(message: Message) | Nested(reply: RelayReply)

  /** A `RelayMessageOption` object in an outgoing chain; its message is overwritten in place. */
  class RelayBox {
    var relayed: Payload

    constructor (relayed: Payload)
      ensures this.relayed == relayed
    {
      this.relayed := relayed;
    }
  }

  /** An element of an outgoing option list: an ordinary option, or a relay-message option object. */
  datatype Entry = Plain(option: Option) | Boxed(box: RelayBox)

  function EntryCode(e: Entry): u16 {
    if e.Plain? then OptionCode(e.option) else OPTION_RELAY_MSG
  }

  function RelayEntries(entries: seq<Entry>): seq<Entry> {
    if entries == [] then []
    else (if EntryCode(entries[0]) == OPTION_RELAY_MSG then [entries[0]] else []) + RelayEntries(entries[1..])
  }

  function WithoutCode(entries: seq<Entry>, code: u16): seq<Entry> {
    if entries == [] then []
    else (if EntryCode(entries[0]) == code then [] else [entries[0]]) + WithoutCode(entries[1..], code)
  }

  function OptionsOfCode(options: seq<Option>, code: u16): (r: seq<Option>)
    ensures forall o <- r :: OptionCode(o) == code
  {
    if options == [] then []
    else (if OptionCode(options[0]) == code then [options[0]] else []) + OptionsOfCode(options[1..], code)
  }

  function Plains(options: seq<Option>): seq<Entry> {
    seq(|options|, i requires 0 <= i < |options| => Plain(options[i]))
  }

  lemma {:induction false} RelayEntriesConcat(a: seq<Entry>, b: seq<Entry>)
    ensures RelayEntries(a + b) == RelayEntries(a) + RelayEntries(b)
  {
    if a == [] {
      assert a + b == b;
    } else {
      RelayEntriesConcat(a[1..], b);
      assert (a + b)[1..] == a[1..] + b && (a + b)[0] == a[0];
      var head := if EntryCode(a[0]) == OPTION_RELAY_MSG then [a[0]] else [];
      hide EntryCode;
      assert head + (RelayEntries(a[1..]) + RelayEntries(b)) == (head + RelayEntries(a[1..])) + RelayEntries(b);
    }
  }

  lemma {:induction false} RelayEntriesWithoutCode(entries: seq<Entry>, code: u16)
    requires code != OPTION_RELAY_MSG
    ensures RelayEntries(WithoutCode(entries, code)) == RelayEntries(entries)
  {
    if entries == [] {
    } else {
      RelayEntriesWithoutCode(entries[1..], code);
      if EntryCode(entries[0]) == code {
        assert WithoutCode(entries, code) == WithoutCode(entries[1..], code);
      } else {
        RelayEntriesConcat([entries[0]], WithoutCode(entries[1..], code));
        assert [entries[0]][1..] == [];
      }
    }
  }

  lemma {:induction false} NoRelayEntries(options: seq<Option>)
    requires forall o <- options :: OptionCode(o) != OPTION_RELAY_MSG
    ensures RelayEntries(Plains(options)) == []
  {
    if options == [] {
    } else {
      NoRelayEntries(options[1..]);
      assert Plains(options)[1..] == Plains(options[1..]);
    }
  }

  /** The entries as options, with `inner` as the message of every relay-message option object. */
  function Options(entries: seq<Entry>, inner: Message): seq<Option> {
    if entries == [] then []
    else [if entries[0].Plain? then entries[0].option else RelayMessage(inner)] + Options(entries[1..], inner)
  }

  lemma {:induction false} OptionsRelayed(entries: seq<Entry>, box: RelayBox, inner: Message)
    requires RelayEntries(entries) == [Boxed(box)]
    ensures RelayedOptions(Options(entries, inner)) == [RelayMessage(inner)]
  {
    var rest := entries[1..];
    if EntryCode(entries[0]) == OPTION_RELAY_MSG {
      assert RelayEntries(entries)[0] == entries[0];
      assert RelayEntries(entries)[1..] == RelayEntries(rest) == [];
      OptionsWithoutRelayed(rest, inner);
    } else {
      assert RelayEntries(rest) == [Boxed(box)];
      OptionsRelayed(rest, box, inner);
    }
  }

  lemma {:induction false} OptionsWithoutRelayed(entries: seq<Entry>, inner: Message)
    requires RelayEntries(entries) == []
    ensures RelayedOptions(Options(entries, inner)) == []
  {
    if entries == [] {
    } else {
      assert EntryCode(entries[0]) != OPTION_RELAY_MSG;
      OptionsWithoutRelayed(entries[1..], inner);
    }
  }

  /** A `RelayReplyMessage` object. */
  class RelayReply {
    const hopCount: byte
    const link: Address
    const peer: Address
    var options: seq<Entry>

    constructor (hopCount: byte, link: Address, peer: Address, options: seq<Entry>)
      ensures this.hopCount == hopCount && this.link == link && this.peer == peer && this.options == options
    {
      this.hopCount := hopCount;
      this.link := link;
      this.peer := peer;
      this.options := options;
    }
  }

  predicate Mirrors(reply: RelayReply, forward: Message) {
    forward.Relay? && reply.hopCount == forward.hopCount && reply.link == forward.link && reply.peer == forward.peer
  }

  /** The codes `RelayReplyMessage` may contain: its own, those of any message, and unregistered ones. */
  predicate MayContain(code: u16) {
    code in {OPTION_RELAY_MSG, OPTION_AUTH, OPTION_INTERFACE_ID, 37, 38, 79} || !RegisteredCode(code)
  }

  // ---- The option lists that the two relay handlers leave behind -----------------------------

  /** `CopyRelayOptionHandler.handle_relay`. */
  function Copied(entries: seq<Entry>, forward: Message, code: u16): seq<Entry>
    requires forward.Relay?
  {
    if MayContain(code) then Plains(OptionsOfCode(forward.options, code)) + WithoutCode(entries, code) else entries
  }

  lemma CopiedRelayEntries(entries: seq<Entry>, forward: Message, code: u16)
    requires forward.Relay? && code != OPTION_RELAY_MSG
    ensures RelayEntries(Copied(entries, forward, code)) == RelayEntries(entries)
  {
    if MayContain(code) {
      RelayEntriesConcat(Plains(OptionsOfCode(forward.options, code)), WithoutCode(entries, code));
      NoRelayEntries(OptionsOfCode(forward.options, code));
      RelayEntriesWithoutCode(entries, code);
    }
  }

  lemma WithoutStep(entries: seq<Entry>, code: u16)
    requires entries != []
    ensures WithoutCode(entries, code)
         == (if EntryCode(entries[0]) == code then [] else [entries[0]]) + WithoutCode(entries[1..], code)
  {
  }

  lemma {:induction false} WithoutConcat(a: seq<Entry>, b: seq<Entry>, code: u16)
    ensures WithoutCode(a + b, code) == WithoutCode(a, code) + WithoutCode(b, code)
  {
    if a == [] {
      assert a + b == b;
    } else {
      WithoutStep(a, code);
      WithoutStep(a + b, code);
      hide WithoutCode, EntryCode;
      WithoutConcat(a[1..], b, code);
      assert (a + b)[1..] == a[1..] + b && (a + b)[0] == a[0];
      Associative(if EntryCode(a[0]) == code then [] else [a[0]], WithoutCode(a[1..], code), WithoutCode(b, code));
    }
  }

  lemma {:induction false} AllOfCode(options: seq<Option>, code: u16)
    requires forall o <- options :: OptionCode(o) == code
    ensures WithoutCode(Plains(options), code) == []
  {
    hide OptionCode;
    if options != [] {
      AllOfCode(options[1..], code);
      assert Plains(options)[1..] == Plains(options[1..]) && Plains(options)[0] == Plain(options[0]);
    }
  }

  lemma {:induction false} NoneOfCode(entries: seq<Entry>, code: u16)
    ensures forall e <- WithoutCode(entries, code) :: EntryCode(e) != code
    ensures WithoutCode(WithoutCode(entries, code), code) == WithoutCode(entries, code)
  {
    hide EntryCode;
    if entries != [] {
      NoneOfCode(entries[1..], code);
      var rest := WithoutCode(entries[1..], code);
      if EntryCode(entries[0]) == code {
        assert WithoutCode(entries, code) == rest;
      } else {
        assert WithoutCode(entries, code) == [entries[0]] + rest && ([entries[0]] + rest)[1..] == rest;
      }
    }
  }

  /** After copying, the entries of the code are the copies in front, and the others are untouched. */
  lemma CopiedByCode(entries: seq<Entry>, forward: Message, code: u16)
    requires forward.Relay?
    ensures WithoutCode(Copied(entries, forward, code), code) == WithoutCode(entries, code)
    ensures MayContain(code) ==>
              var copies, after := Plains(OptionsOfCode(forward.options, code)), Copied(entries, forward, code);
              copies <= after && forall i | |copies| <= i < |after| :: EntryCode(after[i]) != code
  {
    hide WithoutCode, OptionsOfCode, EntryCode;
    var own, others := Plains(OptionsOfCode(forward.options, code)), WithoutCode(entries, code);
    if MayContain(code) {
      WithoutConcat(own, others, code);
      AllOfCode(OptionsOfCode(forward.options, code), code);
      NoneOfCode(entries, code);
      assert [] + others == others;
      forall i | |own| <= i < |own + others| ensures EntryCode((own + others)[i]) != code {
        assert (own + others)[i] in others;
      }
    }
  }

  predicate HasCode(entries: seq<Entry>, code: u16) {
    exists e <- entries :: EntryCode(e) == code
  }

  /**
   `RelayEchoRequestOptionHandler.handle_relay` over the rest of the requested codes. The source
   stops altogether at the first requested option that the reply may not contain.
   */
  function Echoed(entries: seq<Entry>, forward: Message, requested: seq<u16>): seq<Entry>
    requires forward.Relay?
    decreases |requested|
  {
    if requested == [] then entries
    else if HasCode(entries, requested[0]) then Echoed(entries, forward, requested[1..])
    else
      var found := OptionsOfCode(forward.options, requested[0]);
      if found != [] && !MayContain(requested[0]) then entries
      else Echoed(entries + Plains(found), forward, requested[1..])
  }

  /** An echo request cannot smuggle in a second relay-message option: the reply always has one already. */
  lemma {:induction false} EchoedRelayEntries(entries: seq<Entry>, forward: Message, requested: seq<u16>)
    requires forward.Relay? && RelayEntries(entries) != []
    ensures RelayEntries(Echoed(entries, forward, requested)) == RelayEntries(entries)
    ensures entries <= Echoed(entries, forward, requested)
    decreases |requested|
  {
    if requested == [] {
    } else if HasCode(entries, requested[0]) {
      EchoedRelayEntries(entries, forward, requested[1..]);
    } else {
      var found := OptionsOfCode(forward.options, requested[0]);
      if found == [] || MayContain(requested[0]) {
        RelayEntryHasCode(entries);
        RelayEntriesConcat(entries, Plains(found));
        NoRelayEntries(found);
        EchoedRelayEntries(entries + Plains(found), forward, requested[1..]);
      }
    }
  }

  lemma {:induction false} RelayEntryHasCode(entries: seq<Entry>)
    requires RelayEntries(entries) != []
    ensures HasCode(entries, OPTION_RELAY_MSG)
  {
    if EntryCode(entries[0]) == OPTION_RELAY_MSG {
      assert entries[0] in entries;
    } else {
      RelayEntryHasCode(entries[1..]);
      var e :| e in entries[1..] && EntryCode(e) == OPTION_RELAY_MSG;
      assert e in entries;
    }
  }

  /** The codes requested by the first echo-request option, if there is one. */
  function EchoRequest(options: seq<Option>): Maybe<seq<u16>> {
    if options == [] then None
    else
      match options[0]
      case Leaf(CodeList(code, codes)) => if code == OPTION_ERO then Some(codes) else EchoRequest(options[1..])
      case _ => EchoRequest(options[1..])
  }

  datatype Handler = CopyOption(code: u16) | EchoRequestHandler

  function Handled(h: Handler, entries: seq<Entry>, forward: Message): seq<Entry>
    requires forward.Relay?
  {
    match h
    case CopyOption(code) => Copied(entries, forward, code)
    case EchoRequestHandler =>
      match EchoRequest(forward.options) case None => entries case Some(codes) => Echoed(entries, forward, codes)
  }

  /** The one handler that would take the relay-message option itself for an option to copy. */
  predicate Harmless(h: Handler) {
    h.CopyOption? ==> h.code != OPTION_RELAY_MSG
  }

  lemma HandledRelayEntries(h: Handler, entries: seq<Entry>, forward: Message)
    requires Harmless(h) && forward.Relay? && RelayEntries(entries) != []
    ensures RelayEntries(Handled(h, entries, forward)) == RelayEntries(entries)
  {
    match h {
      case CopyOption(code) => CopiedRelayEntries(entries, forward, code);
      case EchoRequestHandler =>
        match EchoRequest(forward.options) {
          case None =>
          case Some(codes) => EchoedRelayEntries(entries, forward, codes);
        }
    }
  }

  /**
   A misuse that nothing in the repository commits: `CopyRelayOptionHandler(RelayMessageOption)`
   would echo the client's own message back instead of the response.
   */
  lemma CopyingTheRelayOptionReplacesTheResponse(box: RelayBox, request: Message, link: Address, peer: Address)
    ensures var forward := Relay(MSG_RELAY_FORW, 0, link, peer, [RelayMessage(request)]);
            RelayEntries(Copied([Boxed(box)], forward, OPTION_RELAY_MSG)) == [Plain(RelayMessage(request))]
  {
    var forward := Relay(MSG_RELAY_FORW, 0, link, peer, [RelayMessage(request)]);
    assert forward.options[1..] == [] && [Boxed(box)][1..] == [];
    assert OptionsOfCode(forward.options, OPTION_RELAY_MSG) == [RelayMessage(request)];
    assert Plains([RelayMessage(request)]) == [Plain(RelayMessage(request))];
    assert WithoutCode([Boxed(box)], OPTION_RELAY_MSG) == [];
    assert Copied([Boxed(box)], forward, OPTION_RELAY_MSG) == [Plain(RelayMessage(request))];
  }

  /** A relay handler leaves the chain alone, whatever relays and options it meets, if and only if it is harmless. */
  lemma HandlerKeepsTheChainIff(h: Handler, box: RelayBox)
    ensures (forall entries, forward | ForwardMeets(entries, forward, box) ::
               RelayEntries(Handled(h, entries, forward)) == RelayEntries(entries)) <==> Harmless(h)
  {
    hide Handled, RelayEntries;
    if Harmless(h) {
      forall entries, forward | ForwardMeets(entries, forward, box)
        ensures RelayEntries(Handled(h, entries, forward)) == RelayEntries(entries)
      {
        HandledRelayEntries(h, entries, forward);
      }
    } else {
      var zero: Address := seq(16, _ => 0);
      var request := ClientServer(1, [0, 0, 0], []);
      var forward := Relay(MSG_RELAY_FORW, 0, zero, zero, [RelayMessage(request)]);
      OneEntry(box);
      CopyingTheRelayOptionReplacesTheResponse(box, request, zero, zero);
      assert ForwardMeets([Boxed(box)], forward, box);
      HandledIsCopied([Boxed(box)], forward);
    }
  }

  /** A relay-forward, and a reply's options with `box` as their one relay-message option. */
  predicate ForwardMeets(entries: seq<Entry>, forward: Message, box: RelayBox) {
    forward.Relay? && RelayEntries(entries) == [Boxed(box)]
  }

  lemma HandledIsCopied(entries: seq<Entry>, forward: Message)
    requires forward.Relay?
    ensures Handled(CopyOption(OPTION_RELAY_MSG), entries, forward) == Copied(entries, forward, OPTION_RELAY_MSG)
  {
  }

  // ---- The bundle ------------------------------------------------------------------------------

  /** The messages of `responses` that a server may send. */
  function Sendable(responses: seq<Message>): seq<Message> {
    if responses == [] then []
    else (if FromServer(responses[0].kind) then [responses[0]] else []) + Sendable(responses[1..])
  }

  /** Distinct reply objects answer `relays` one for one, and each has a box of its own. */
  ghost predicate ChainShape(replies: seq<RelayReply>, boxes: seq<RelayBox>, relays: seq<Message>) {
    && |replies| == |boxes| <= |relays|
    && AllDistinct(replies) && AllDistinct(boxes)
    && forall i | 0 <= i < |replies| :: Mirrors(replies[i], relays[i])
  }

  /** Each box but the first holds the reply before it. */
  ghost predicate ChainNested(replies: seq<RelayReply>, boxes: seq<RelayBox>)
    reads boxes
  {
    && |replies| == |boxes|
    && (forall i | 0 < i < |boxes| :: boxes[i].relayed == Nested(replies[i - 1]))
    && (boxes != [] ==> !boxes[0].relayed.Nested?)
  }

  /** The one relay-message option of each reply is its box. */
  ghost predicate ChainBoxed(replies: seq<RelayReply>, boxes: seq<RelayBox>)
    reads replies
  {
    && |replies| == |boxes|
    && forall i | 0 <= i < |replies| :: RelayEntries(replies[i].options) == [Boxed(boxes[i])]
  }

  ghost predicate ChainValid(replies: seq<RelayReply>, boxes: seq<RelayBox>, relays: seq<Message>)
    reads replies, boxes
  {
    ChainShape(replies, boxes, relays) && ChainNested(replies, boxes) && ChainBoxed(replies, boxes)
  }

  /** The first `n` relay-replies of a chain as the message that `save` walks, `response` innermost. */
  function Tree(replies: seq<RelayReply>, n: nat, response: Message): Message
    requires n <= |replies|
    reads replies
  {
    if n == 0 then response
    else
      var r := replies[n - 1];
      Relay(MSG_RELAY_REPL, r.hopCount, r.link, r.peer, Options(r.options, Tree(replies, n - 1, response)))
  }

  lemma {:induction false} TreeUnwraps(replies: seq<RelayReply>, boxes: seq<RelayBox>, relays: seq<Message>, n: nat,
      response: Message)
    requires ChainValid(replies, boxes, relays) && n <= |replies|
    ensures Unwraps(Tree(replies, n, response), relays[..n], response)
    decreases n
  {
    if n == 0 {
    } else {
      TreeUnwraps(replies, boxes, relays, n - 1, response);
      OptionsRelayed(replies[n - 1].options, boxes[n - 1], Tree(replies, n - 1, response));
      assert relays[..n][..n - 1] == relays[..n - 1] && relays[..n][n - 1] == relays[n - 1];
    }
  }

  lemma {:induction false} SendableSnoc(responses: seq<Message>, m: Message)
    ensures Sendable(responses + [m]) == Sendable(responses) + if FromServer(m.kind) then [m] else []
  {
    if responses == [] {
      assert [m][1..] == [];
    } else {
      SendableSnoc(responses[1..], m);
      assert (responses + [m])[1..] == responses[1..] + [m] && (responses + [m])[0] == responses[0];
      var head := if FromServer(responses[0].kind) then [responses[0]] else [];
      var last := if FromServer(m.kind) then [m] else [];
      hide FromServer;
      assert head + (Sendable(responses[1..]) + last) == (head + Sendable(responses[1..])) + last;
    }
  }

  // ---- Reading and writing through the objects ---------------------------------------------------

  lemma {:induction false} FirstRelayEntry(entries: seq<Entry>, i: nat)
    requires i < |entries| && EntryCode(entries[i]) == OPTION_RELAY_MSG
    requires forall k | 0 <= k < i :: EntryCode(entries[k]) != OPTION_RELAY_MSG
    ensures RelayEntries(entries) != [] && RelayEntries(entries)[0] == entries[i]
  {
    if i == 0 {
    } else {
      FirstRelayEntry(entries[1..], i - 1);
    }
  }

  lemma {:induction false} NoFirstRelayEntry(entries: seq<Entry>)
    requires forall e <- entries :: EntryCode(e) != OPTION_RELAY_MSG
    ensures RelayEntries(entries) == []
  {
    if entries == [] {
    } else {
      NoFirstRelayEntry(entries[1..]);
    }
  }

  /** The `relayed_message` getter. */
  method GetRelayed(reply: RelayReply, ghost box: RelayBox) returns (p: Payload)
    requires RelayEntries(reply.options) == [Boxed(box)]
    ensures p == box.relayed
  {
    for i := 0 to |reply.options|
      invariant forall k | 0 <= k < i :: EntryCode(reply.options[k]) != OPTION_RELAY_MSG
    {
      if EntryCode(reply.options[i]) == OPTION_RELAY_MSG {
        FirstRelayEntry(reply.options, i);
        return reply.options[i].box.relayed;
      }
    }
    NoFirstRelayEntry(reply.options);
    assert false;
    p := Nothing;
  }

  /** The `relayed_message` setter: overwrite in the first relay-message option object, or append a new one. */
  method SetRelayed(reply: RelayReply, payload: Payload)
    requires |RelayEntries(reply.options)| <= 1 && forall e <- RelayEntries(reply.options) :: e.Boxed?
    modifies if RelayEntries(reply.options) == [] then {reply} else {RelayEntries(reply.options)[0].box}
    ensures var found := RelayEntries(old(reply.options));
            if found != [] then
              reply.options == old(reply.options) && found[0].box.relayed == payload
            else
              && |reply.options| == |old(reply.options)| + 1
              && reply.options[..|old(reply.options)|] == old(reply.options)
              && reply.options[|old(reply.options)|].Boxed? && fresh(reply.options[|old(reply.options)|].box)
              && reply.options[|old(reply.options)|].box.relayed == payload
  {
    for i := 0 to |reply.options|
      invariant reply.options == old(reply.options)
      invariant forall k | 0 <= k < i :: EntryCode(reply.options[k]) != OPTION_RELAY_MSG
    {
      if EntryCode(reply.options[i]) == OPTION_RELAY_MSG {
        FirstRelayEntry(reply.options, i);
        assert reply.options[i] in RelayEntries(reply.options);
        reply.options[i].box.relayed := payload;
        return;
      }
    }
    NoFirstRelayEntry(reply.options);
    var box := new RelayBox(payload);
    reply.options := reply.options + [Boxed(box)];
  }

  /** What `save` reads when it follows the objects from `p` inwards. */
  method ReadBack(p: Payload, ghost replies: seq<RelayReply>, ghost boxes: seq<RelayBox>, ghost relays: seq<Message>,
      ghost n: nat, ghost response: Message)
    returns (m: Message)
    requires ChainValid(replies, boxes, relays) && n <= |replies|
    requires p == if n == 0 then Response(response) else Nested(replies[n - 1])
    requires n > 0 ==> boxes[0].relayed == Response(response)
    ensures m == Tree(replies, n, response)
    decreases n
  {
    if p.Response? {
      return p.message;
    }
    var inner := GetRelayed(p.reply, boxes[n - 1]);
    var innerMessage := ReadBack(inner, replies, boxes, relays, n - 1, response);
    m := Relay(MSG_RELAY_REPL, p.reply.hopCount, p.reply.link, p.reply.peer, Options(p.reply.options, innerMessage));
  }

  /**
   `CopyRelayOptionHandler.handle_relay`: afterwards the reply's options of the class are those of the
   incoming relay, in front, and all other entries stand in their order.
   */
  method CopyRelayOption(code: u16, forward: Message, reply: RelayReply)
    requires forward.Relay?
    modifies reply`options
    ensures reply.options == Copied(old(reply.options), forward, code)
    ensures !MayContain(code) ==> reply.options == old(reply.options)
    ensures MayContain(code) ==>
              var copies := Plains(OptionsOfCode(forward.options, code));
              copies <= reply.options
              && forall i | |copies| <= i < |reply.options| :: EntryCode(reply.options[i]) != code
    ensures WithoutCode(reply.options, code) == WithoutCode(old(reply.options), code)
    ensures code != OPTION_RELAY_MSG ==> RelayEntries(reply.options) == RelayEntries(old(reply.options))
  {
    if code != OPTION_RELAY_MSG {
      CopiedRelayEntries(reply.options, forward, code);
    }
    CopiedByCode(reply.options, forward, code);
    if !MayContain(code) {
      return;
    }
    reply.options := WithoutCode(reply.options, code);
    reply.options := Plains(OptionsOfCode(forward.options, code)) + reply.options;
  }

  lemma {:induction false} OptionsOfCodeSnoc(options: seq<Option>, o: Option, code: u16)
    ensures OptionsOfCode(options + [o], code)
         == OptionsOfCode(options, code) + if OptionCode(o) == code then [o] else []
  {
    if options == [] {
      assert [o][1..] == [];
    } else {
      OptionsOfCodeSnoc(options[1..], o, code);
      assert (options + [o])[1..] == options[1..] + [o] && (options + [o])[0] == options[0];
      var head := if OptionCode(options[0]) == code then [options[0]] else [];
      var last := if OptionCode(o) == code then [o] else [];
      hide OptionCode;
      Associative(head, OptionsOfCode(options[1..], code), last);
    }
  }

  /** Append the incoming options of one requested code, unless the reply may not contain them. */
  method EchoCode(code: u16, forward: Message, reply: RelayReply) returns (stop: bool)
    requires forward.Relay?
    modifies reply`options
    ensures var found := OptionsOfCode(forward.options, code);
            if found != [] && !MayContain(code) then stop && reply.options == old(reply.options)
            else !stop && reply.options == old(reply.options) + Plains(found)
  {
    var options := forward.options;
    assert options[..0] == [] && reply.options + Plains([]) == reply.options;
    for j := 0 to |options|
      invariant reply.options == old(reply.options) + Plains(OptionsOfCode(options[..j], code))
      invariant OptionsOfCode(options[..j], code) != [] ==> MayContain(code)
    {
      assert options[..j + 1] == options[..j] + [options[j]];
      OptionsOfCodeSnoc(options[..j], options[j], code);
      if OptionCode(options[j]) == code {
        if !MayContain(code) {
          CodeIsFound(options, j, code);
          return true;
        }
        reply.options := reply.options + [Plain(options[j])];
      }
    }
    assert options[..|options|] == options;
    return false;
  }

  lemma {:induction false} CodeIsFound(options: seq<Option>, j: nat, code: u16)
    requires j < |options| && OptionCode(options[j]) == code
    ensures OptionsOfCode(options, code) != []
  {
    if j > 0 {
      CodeIsFound(options[1..], j - 1, code);
    }
  }

  method EchoRelayOptions(requested: seq<u16>, forward: Message, reply: RelayReply)
    requires forward.Relay?
    modifies reply`options
    ensures reply.options == Echoed(old(reply.options), forward, requested)
  {
    hide OptionsOfCode, MayContain, HasCode;
    for i := 0 to |requested|
      invariant Echoed(old(reply.options), forward, requested) == Echoed(reply.options, forward, requested[i..])
    {
      assert requested[i..][1..] == requested[i + 1..];
      if !HasCode(reply.options, requested[i]) {
        var stop := EchoCode(requested[i], forward, reply);
        if stop {
          return;
        }
      }
    }
  }

  method HandleRelay(h: Handler, forward: Message, reply: RelayReply)
    requires forward.Relay?
    modifies reply`options
    ensures reply.options == Handled(h, old(reply.options), forward)
  {
    match h {
      case CopyOption(code) => CopyRelayOption(code, forward, reply);
      case EchoRequestHandler =>
        var ero := EchoRequest(forward.options);
        if ero.Some? {
          EchoRelayOptions(ero.value, forward, reply);
        }
    }
  }

  /**
   `RelayForwardMessage.wrap_response`: build the whole reply chain for `forward`, innermost last
   built into `chain[0]`.
   */
  method WrapResponse(forward: Message, response: Payload)
    returns (reply: RelayReply, ghost chain: seq<RelayReply>, ghost boxes: seq<RelayBox>)
    requires IsRelayForward(forward) && !response.Nested? && IsRequest(Innermost(forward))
    ensures |chain| == |Relays(forward)| && ChainValid(chain, boxes, Relays(forward))
    ensures chain[|chain| - 1] == reply && boxes[0].relayed == response
    ensures |boxes| == |chain| && fresh(chain) && fresh(boxes)
    decreases forward
  {
    hide ChainValid, RelayEntries;
    var inner := FirstRelayed(forward.options).value;
    RelayedIsSmaller(forward);
    var payload := response;
    chain, boxes := [], [];
    if IsRelayForward(inner) {
      var nested;
      nested, chain, boxes := WrapResponse(inner, response);
      payload := Nested(nested);
    }
    var box := new RelayBox(payload);
    reply := new RelayReply(forward.hopCount, forward.link, forward.peer, [Boxed(box)]);
    OneEntry(box);
    if chain == [] {
      EmptyChain([]);
    }
    ChainExtend(chain, boxes, Relays(inner), reply, box, forward);
    chain, boxes := chain + [reply], boxes + [box];
  }

  lemma ChainExtend(replies: seq<RelayReply>, boxes: seq<RelayBox>, relays: seq<Message>, reply: RelayReply,
      box: RelayBox, forward: Message)
    requires ChainValid(replies, boxes, relays) && |replies| == |relays|
    requires reply !in replies && box !in boxes && Mirrors(reply, forward)
    requires RelayEntries(reply.options) == [Boxed(box)]
    requires if replies == [] then !box.relayed.Nested? else box.relayed == Nested(replies[|replies| - 1])
    ensures ChainValid(replies + [reply], boxes + [box], relays + [forward])
  {
    hide RelayEntries, Mirrors, AllDistinct;
    DistinctSnoc(replies, reply);
    DistinctSnoc(boxes, box);
  }

  /** Walk the chain from its outermost object inwards, inserting each one in front of a list. */
  method Unchain(outer: RelayReply, ghost chain: seq<RelayReply>, ghost boxes: seq<RelayBox>,
      ghost relays: seq<Message>)
    returns (list: seq<RelayReply>)
    requires ChainValid(chain, boxes, relays) && chain != [] && chain[|chain| - 1] == outer
    ensures list == chain
  {
    hide RelayEntries, ChainShape, ChainNested, ChainBoxed;
    list := [];
    var current := Nested(outer);
    ghost var left := |chain|;
    assert chain[left..] == [];
    while current.Nested?
      invariant 0 <= left <= |chain| && list == chain[left..]
      invariant if left > 0 then current == Nested(chain[left - 1]) else !current.Nested?
      decreases left
    {
      list := [current.reply] + list;
      left := left - 1;
      OneFurtherIn(chain, boxes, relays, left);
      current := GetRelayed(current.reply, boxes[left]);
    }
    assert chain[0..] == chain;
  }

  lemma OneFurtherIn(chain: seq<RelayReply>, boxes: seq<RelayBox>, relays: seq<Message>, i: nat)
    requires ChainValid(chain, boxes, relays) && i < |chain|
    ensures |boxes| == |chain| && RelayEntries(chain[i].options) == [Boxed(boxes[i])]
    ensures if i > 0 then boxes[i].relayed == Nested(chain[i - 1]) else !boxes[i].relayed.Nested?
    ensures [chain[i]] + chain[i + 1..] == chain[i..]
  {
    hide RelayEntries, ChainShape;
  }

  class Bundle {
    /** The relays the request came through, closest to the client first. */
    const incoming: seq<Message>
    /** The message of the client itself. */
    const request: Maybe<Message>
    /** The wrapped message as received, when it was accepted. */
    const wrapped: Message
    var responses: seq<Message>
    /** Whether `outgoing_relay_messages` is a list (it is `None` at first). */
    var created: bool
    var outgoing: seq<RelayReply>
    ghost var boxes: seq<RelayBox>

    ghost predicate Valid()
      reads this, outgoing, boxes
    {
      && request == (if IsRequest(Innermost(wrapped)) then Innermost(wrapped) else None)
      && incoming == (if IsRequest(Innermost(wrapped)) then Relays(wrapped) else [])
      && (forall r <- responses :: r.ClientServer?)
      && ChainValid(outgoing, boxes, incoming)
      && (if created then |outgoing| == |incoming| else outgoing == [])
    }

    constructor (message: Message)
      ensures Valid() && wrapped == message && responses == [] && !created
    {
      wrapped := message;
      var client, relays := SplitRelayChain(message);
      request, incoming := client, relays;
      responses, created, outgoing, boxes := [], false, [], [];
    }

    /** The `response` property: replace the first response, or all of them by nothing. */
    method SetResponse(response: Maybe<Message>)
      requires Valid() && (response.Some? ==> response.value.ClientServer?)
      modifies this`responses
      ensures Valid() && (response.None? <==> responses == [])
      ensures response.Some? ==>
          responses[0] == response.value && |responses| == if old(responses) == [] then 1 else |old(responses)|
      ensures response.Some? ==> forall i | 0 < i < |responses| :: responses[i] == old(responses)[i]
    {
      hide ChainValid, IsRequest, Innermost, Relays;
      match response {
        case None => responses := [];
        case Some(m) => responses := if responses == [] then [m] else responses[0 := m];
      }
    }

    /** A handler that answers with several messages (`bundle.responses = MessagesList(…)`). */
    method SetResponses(messages: seq<Message>)
      requires Valid() && forall m <- messages :: m.ClientServer?
      modifies this`responses
      ensures Valid() && responses == messages
    {
      hide ChainValid, IsRequest, Innermost, Relays;
      responses := messages;
    }

    method CreateOutgoingRelayMessages()
      requires Valid()
      modifies this`outgoing, this`boxes, this`created
      ensures Valid() && created && fresh(outgoing) && fresh(boxes)
    {
      hide ChainValid, IsRequest;
      created := true;
      if incoming == [] {
        outgoing, boxes := [], [];
        EmptyChain(incoming);
      } else {
        var payload := if responses == [] then Nothing else Response(responses[0]);
        ghost var chain, chainBoxes;
        var outer: RelayReply;
        outer, chain, chainBoxes := WrapResponse(incoming[|incoming| - 1], payload);
        outgoing := Unchain(outer, chain, chainBoxes, incoming);
        boxes := chainBoxes;
      }
    }

    /** The relay handler loop: pair incoming with outgoing relay messages and rewrite each option list. */
    method RunHandler(h: Handler)
      requires Valid() && Harmless(h)
      modifies outgoing
      ensures Valid()
      ensures forall i | 0 <= i < |outgoing| :: outgoing[i].options == Handled(h, old(outgoing[i].options), incoming[i])
    {
      hide Handled, RelayEntries, ChainShape, ChainNested, IsRequest, Innermost, Relays;
      if !created || |incoming| != |outgoing| {
        return;
      }
      Distinct(outgoing, boxes, incoming);
      for i := 0 to |outgoing|
        invariant forall k | 0 <= k < i :: outgoing[k].options == Handled(h, old(outgoing[k].options), incoming[k])
        invariant forall k | i <= k < |outgoing| :: outgoing[k].options == old(outgoing[k].options)
        invariant ChainValid(outgoing, boxes, incoming)
      {
        HandledRelayEntries(h, outgoing[i].options, incoming[i]);
        HandleRelay(h, incoming[i], outgoing[i]);
      }
    }

    /** One step of the generator: put `response` into the existing chain and read what is yielded. */
    method Wrap(response: Message) returns (message: Message)
      requires Valid() && |outgoing| == |incoming|
      modifies boxes
      ensures Valid() && Unwraps(message, incoming, response)
    {
      hide RelayEntries, Tree, Unwraps, ChainValid;
      Distinct(outgoing, boxes, incoming);
      if outgoing != [] {
        SetFirst(response);
      }
      TreeUnwraps(outgoing, boxes, incoming, |outgoing|, response);
      assert incoming[..|outgoing|] == incoming;
      var outer := if outgoing != [] then Nested(outgoing[|outgoing| - 1]) else Response(response);
      message := ReadBack(outer, outgoing, boxes, incoming, |outgoing|, response);
    }

    method SetFirst(response: Message)
      requires Valid() && outgoing != []
      modifies boxes[0]
      ensures Valid() && boxes[0].relayed == Response(response)
    {
      hide RelayEntries, ChainShape;
      Distinct(outgoing, boxes, incoming);
      ghost var entries := RelayEntries(outgoing[0].options);
      assert entries == [Boxed(boxes[0])] && forall e <- entries :: e == entries[0];
      SetRelayed(outgoing[0], Response(response));
    }

    /** The `outgoing_messages` generator: one message per sendable response, each read as it is yielded. */
    method OutgoingMessages() returns (sent: seq<Message>)
      requires Valid()
      modifies this`outgoing, this`boxes, this`created, boxes
      ensures Valid() && |sent| == |Sendable(responses)|
      ensures forall k | 0 <= k < |sent| :: Unwraps(sent[k], incoming, Sendable(responses)[k])
    {
      hide ChainValid, Unwraps, IsRequest;
      if incoming != [] && outgoing == [] {
        CreateOutgoingRelayMessages();
      }
      sent := [];
      for i := 0 to |responses|
        invariant Valid() && |outgoing| == |incoming|
        invariant boxes == old(boxes) || fresh(boxes)
        invariant |sent| == |Sendable(responses[..i])|
        invariant forall k | 0 <= k < |sent| :: Unwraps(sent[k], incoming, Sendable(responses[..i])[k])
      {
        SendableSnoc(responses[..i], responses[i]);
        assert responses[..i + 1] == responses[..i] + [responses[i]];
        if FromServer(responses[i].kind) {
          var message := Wrap(responses[i]);
          sent := sent + [message];
        }
      }
      assert responses[..|responses|] == responses;
    }
  }

  lemma Distinct(replies: seq<RelayReply>, boxes: seq<RelayBox>, relays: seq<Message>)
    requires ChainValid(replies, boxes, relays)
    ensures |boxes| == |replies| <= |relays|
    ensures forall i, j | 0 <= i < j < |replies| :: replies[i] != replies[j]
    ensures forall i, j | 0 <= i < j < |boxes| :: boxes[i] != boxes[j]
    ensures forall i | 0 <= i < |replies| :: relays[i].Relay?
  {
    hide ChainNested, ChainBoxed;
  }

  lemma OneEntry(box: RelayBox)
    ensures RelayEntries([Boxed(box)]) == [Boxed(box)]
  {
    assert [Boxed(box)][1..] == [];
  }

  lemma EmptyChain(relays: seq<Message>)
    ensures ChainValid([], [], relays)
  {
  }

  // ---- Any transaction ---------------------------------------------------------------------------

  /** What handlers do to the bundle after its response has been initialised. */
  datatype Action = Relayed(handler: Handler) | Replace(response: Maybe<Message>) | Answer(responses: seq<Message>)

  predicate Allowed(action: Action) {
    match action
    case Relayed(handler) => Harmless(handler)
    case Replace(response) => response.Some? ==> response.value.ClientServer?
    case Answer(responses) => forall r <- responses :: r.ClientServer?
  }

  function After(responses: seq<Message>, action: Action): seq<Message> {
    match action
    case Relayed(_) => responses
    case Replace(None) => []
    case Replace(Some(m)) => if responses == [] then [m] else responses[0 := m]
    case Answer(answers) => answers
  }

  function FinalResponses(responses: seq<Message>, actions: seq<Action>): seq<Message>
    decreases |actions|
  {
    if actions == [] then responses else FinalResponses(After(responses, actions[0]), actions[1..])
  }

  /** The handler phase: any handlers in any order, each of which may replace the response. */
  method Perform(bundle: Bundle, actions: seq<Action>)
    requires bundle.Valid() && forall a <- actions :: Allowed(a)
    modifies bundle`responses, bundle.outgoing
    ensures bundle.Valid() && bundle.responses == FinalResponses(old(bundle.responses), actions)
  {
    hide Bundle.Valid;
    for i := 0 to |actions|
      invariant bundle.Valid()
      invariant FinalResponses(old(bundle.responses), actions) == FinalResponses(bundle.responses, actions[i..])
    {
      assert actions[i..][1..] == actions[i + 1..] && Allowed(actions[i]);
      match actions[i] {
        case Relayed(handler) => bundle.RunHandler(handler);
        case Replace(response) =>
          ghost var before := bundle.responses;
          bundle.SetResponse(response);
          assert bundle.responses == After(before, actions[i]);
        case Answer(responses) => bundle.SetResponses(responses);
      }
    }
  }

  /**
   A whole transaction: initialise the response, build the plain reply chain, let any handlers
   run and replace the response any number of times, then send. A message without a request
   that could be read gets no answer.
   */
  method Transact(message: Message, first: Message, actions: seq<Action>) returns (sent: seq<Message>)
    requires first.ClientServer? && forall a <- actions :: Allowed(a)
    ensures !IsRequest(Innermost(message)) ==> sent == []
    ensures IsRequest(Innermost(message)) ==>
              var final := Sendable(FinalResponses([first], actions));
              |sent| == |final| && forall k | 0 <= k < |sent| :: Unwraps(sent[k], Relays(message), final[k])
  {
    hide ChainValid, Sendable, Unwraps, Innermost, Relays, FinalResponses, Allowed;
    var bundle := new Bundle(message);
    if bundle.request == None {
      return [];
    }
    bundle.SetResponse(Some(first));
    assert bundle.responses == [first];
    bundle.CreateOutgoingRelayMessages();
    Perform(bundle, actions);
    sent := bundle.OutgoingMessages();
  }
}
