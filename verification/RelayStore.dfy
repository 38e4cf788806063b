/**
 What the lease store keeps of a relay chain and of option lists, and what it gives back: the
 relays without the client's own message, and only options that may be stored.
 */
module RelayStore {
  import opened Bytes
  import opened Wire
  import opened Collections
  import opened LeafCodec
  import opened Codec
  import opened CodecRoundTrip
  import opened CodecLoops
  import opened RelayValues

  /** The codes that `filter_storable_options` drops besides the configured sensitive ones. */
  const UNSTORABLE: set<u16> :=
    {OPTION_CLIENTID, OPTION_SERVERID, OPTION_RELAY_MSG, OPTION_ORO, OPTION_IA_NA, OPTION_IA_TA, OPTION_IA_PD,
     OPTION_IAADDR, OPTION_IAPREFIX, OPTION_STATUS_CODE}

  predicate IsStorable(option: Option, sensitive: seq<u16>) {
    OptionCode(option) !in sensitive && OptionCode(option) !in UNSTORABLE
  }

  /** `filter_storable_options`. */
  function Storable(options: seq<Option>, sensitive: seq<u16>): seq<Option> {
    if options == [] then []
    else (if IsStorable(options[0], sensitive) then [options[0]] else []) + Storable(options[1..], sensitive)
  }

  lemma {:induction false} StorableMembers(options: seq<Option>, sensitive: seq<u16>)
    ensures forall o <- Storable(options, sensitive) :: o in options && IsStorable(o, sensitive)
  {
    if options != [] {
      StorableMembers(options[1..], sensitive);
    }
  }

  function WithOptions(m: Message, options: seq<Option>): (r: Message)
    requires IsRelayForward(m)
    ensures IsRelayForward(r)
  {
    Relay(m.kind, m.hopCount, m.link, m.peer, options)
  }

  /** `relayed_message` of a relay-forward. */
  function Relayed(m: Message): Maybe<Message> { if IsRelayForward(m) then FirstRelayed(m.options) else None }

  /** The chain as it is stored. */
  function Stored(m: Message, sensitive: seq<u16>): (r: Message)
    requires IsRelayForward(m)
    ensures IsRelayForward(r)
    decreases m
  {
    var kept := Storable(m.options, sensitive);
    match FirstRelayed(m.options)
    case None => WithOptions(m, kept)
    case Some(inner) =>
      RelayedIsSmaller(m);
      if IsRelayForward(inner) then WithOptions(m, kept + [RelayMessage(Stored(inner, sensitive))])
      else WithOptions(m, kept)
  }

  // ---- What is kept, and what is not -----------------------------------------------------------------

  /** `stored` is what is to be kept of `relay`: its hop count and addresses, and its storable options in order. */
  predicate Keeps(stored: Message, relay: Message, sensitive: seq<u16>) {
    && IsRelayForward(stored) && IsRelayForward(relay)
    && stored.hopCount == relay.hopCount && stored.link == relay.link && stored.peer == relay.peer
    && Storable(stored.options, sensitive) == Storable(relay.options, sensitive)
    && |stored.options| <= |Storable(relay.options, sensitive)| + 1
    && forall o <- stored.options :: IsStorable(o, sensitive) || (o.RelayMessage? && IsRelayForward(o.message))
  }

  function KeptOf(option: Option, sensitive: seq<u16>): seq<Option> {
    if IsStorable(option, sensitive) then [option] else []
  }

  lemma StorableStep(options: seq<Option>, sensitive: seq<u16>)
    ensures Storable(options, sensitive)
         == if options == [] then [] else KeptOf(options[0], sensitive) + Storable(options[1..], sensitive)
  {
  }

  lemma {:induction false} StorableConcat(a: seq<Option>, b: seq<Option>, sensitive: seq<u16>)
    ensures Storable(a + b, sensitive) == Storable(a, sensitive) + Storable(b, sensitive)
  {
    hide Storable, KeptOf;
    StorableStep(a, sensitive);
    if a == [] {
      assert a + b == b;
    } else {
      StorableConcat(a[1..], b, sensitive);
      StorableStep(a + b, sensitive);
      assert (a + b)[1..] == a[1..] + b && (a + b)[0] == a[0];
      Associative(KeptOf(a[0], sensitive), Storable(a[1..], sensitive), Storable(b, sensitive));
    }
  }

  lemma {:induction false} StorableTwice(options: seq<Option>, sensitive: seq<u16>)
    ensures Storable(Storable(options, sensitive), sensitive) == Storable(options, sensitive)
    ensures FirstRelayed(Storable(options, sensitive)) == None
  {
    if options != [] {
      StorableTwice(options[1..], sensitive);
      if IsStorable(options[0], sensitive) {
        assert Storable(options, sensitive)[1..] == Storable(options[1..], sensitive);
      } else {
        assert Storable(options, sensitive) == Storable(options[1..], sensitive);
      }
    }
  }

  lemma {:induction false} FirstRelayedConcat(a: seq<Option>, m: Message)
    requires FirstRelayed(a) == None
    ensures FirstRelayed(a + [RelayMessage(m)]) == Some(m)
  {
    if a == [] {
      assert a + [RelayMessage(m)] == [RelayMessage(m)];
    } else {
      FirstRelayedConcat(a[1..], m);
      assert (a + [RelayMessage(m)])[1..] == a[1..] + [RelayMessage(m)];
    }
  }

  /**
   As many relays as came in, each with what is to be kept of its counterpart, and nothing
   inside the innermost one: never the client's own message.
   */
  lemma {:induction false} StoredKeepsTheRelays(m: Message, sensitive: seq<u16>)
    requires IsRelayForward(m)
    ensures var stored, relays := Relays(Stored(m, sensitive)), Relays(m);
            && |stored| == |relays|
            && (forall i | 0 <= i < |relays| :: Keeps(stored[i], relays[i], sensitive))
    ensures Innermost(Stored(m, sensitive)) == None
    decreases m
  {
    hide Keeps;
    var kept := Storable(m.options, sensitive);
    StorableTwice(m.options, sensitive);
    StoredLink(m, sensitive);
    match FirstRelayed(m.options) {
      case None =>
      case Some(inner) =>
        RelayedIsSmaller(m);
        if IsRelayForward(inner) {
          StoredKeepsTheRelays(inner, sensitive);
          FirstRelayedConcat(kept, Stored(inner, sensitive));
        }
    }
  }

  lemma StoredLink(m: Message, sensitive: seq<u16>)
    requires IsRelayForward(m)
    ensures Keeps(Stored(m, sensitive), m, sensitive)
  {
    var kept := Storable(m.options, sensitive);
    StorableTwice(m.options, sensitive);
    StorableMembers(m.options, sensitive);
    if FirstRelayed(m.options).Some? && IsRelayForward(FirstRelayed(m.options).value) {
      RelayedIsSmaller(m);
      var last := [RelayMessage(Stored(FirstRelayed(m.options).value, sensitive))];
      StorableConcat(kept, last, sensitive);
      assert last[1..] == [];
      assert kept + [] == kept;
    }
  }

  // ---- Encoding: relays are copied from the outside in, each put into the one before ------------------

  /** A new `RelayForwardMessage` of the copy, and the one put into it with the `relayed_message` setter. */
  class RelayCopy {
    const hopCount: byte
    const link: Address
    const peer: Address
    const options: seq<Option>
    var relayed: RelayCopy?

    constructor (hopCount: byte, link: Address, peer: Address, options: seq<Option>)
      ensures this.hopCount == hopCount && this.link == link && this.peer == peer && this.options == options
      ensures relayed == null
    {
      this.hopCount, this.link, this.peer, this.options := hopCount, link, peer, options;
      relayed := null;
    }
  }

  /** Copies of `relays`, outermost first, each holding the next one. */
  ghost predicate Linked(copies: seq<RelayCopy>, relays: seq<Message>, sensitive: seq<u16>)
    reads copies
  {
    && |copies| == |relays| > 0
    && (forall i, j | 0 <= i < j < |copies| :: copies[i] != copies[j])
    && (forall i | 0 <= i < |copies| :: Copies(copies[i], relays[i], sensitive))
    && (forall i | 0 <= i < |copies| - 1 :: copies[i].relayed == copies[i + 1])
    && copies[|copies| - 1].relayed == null
  }

  predicate Copies(copy: RelayCopy, relay: Message, sensitive: seq<u16>) {
    && IsRelayForward(relay) && copy.hopCount == relay.hopCount && copy.link == relay.link && copy.peer == relay.peer
    && copy.options == Storable(relay.options, sensitive)
  }

  /** `relays` are the relay-forward messages of the chain from `m` inwards, down to what `current` is. */
  ghost predicate Descends(m: Message, relays: seq<Message>, current: Maybe<Message>) {
    && relays != [] && relays[0] == m
    && (forall r <- relays :: IsRelayForward(r))
    && (forall i | 0 <= i < |relays| - 1 :: Relayed(relays[i]) == Some(relays[i + 1]))
    && Relayed(relays[|relays| - 1]) == current
  }

  /** The copy from position `i` inwards as the message that `save` walks. */
  function CopyTree(copies: seq<RelayCopy>, i: nat): Message
    requires i < |copies|
    reads copies
    decreases |copies| - i
  {
    var c := copies[i];
    Relay(MSG_RELAY_FORW, c.hopCount, c.link, c.peer,
          c.options + if i + 1 < |copies| then [RelayMessage(CopyTree(copies, i + 1))] else [])
  }

  lemma {:induction false} CopyTreeIsStored(copies: seq<RelayCopy>, m: Message, relays: seq<Message>,
      end: Maybe<Message>, sensitive: seq<u16>, i: nat)
    requires Linked(copies, relays, sensitive) && Descends(m, relays, end) && i < |copies|
    requires end.Some? ==> !IsRelayForward(end.value)
    ensures CopyTree(copies, i) == Stored(relays[i], sensitive)
    decreases |copies| - i
  {
    assert Copies(copies[i], relays[i], sensitive);
    if i + 1 < |copies| {
      CopyTreeIsStored(copies, m, relays, end, sensitive, i + 1);
    } else {
      assert copies[i].options + [] == copies[i].options;
    }
  }

  lemma DescendsNext(m: Message, relays: seq<Message>, next: Message)
    requires IsRelayForward(next) && (if relays == [] then m == next else Descends(m, relays, Some(next)))
    ensures Descends(m, relays + [next], FirstRelayed(next.options))
  {
  }

  /** A copy of `relay`, put into the innermost of `copies` if there is one. */
  method PutInside(copies: seq<RelayCopy>, ghost relays: seq<Message>, relay: Message, sensitive: seq<u16>)
    returns (more: seq<RelayCopy>)
    requires IsRelayForward(relay) && |copies| == |relays| && (copies != [] ==> Linked(copies, relays, sensitive))
    modifies copies
    ensures |more| == |copies| + 1 && more[..|copies|] == copies && fresh(more[|copies|])
    ensures Linked(more, relays + [relay], sensitive)
  {
    hide Storable;
    var copy := new RelayCopy(relay.hopCount, relay.link, relay.peer, Storable(relay.options, sensitive));
    if copies != [] {
      copies[|copies| - 1].relayed := copy;
    }
    more := copies + [copy];
  }

  /** `encode_relay_messages`. */
  method EncodeRelayMessages(chain: Maybe<Message>, sensitive: seq<u16>) returns (r: Result<bytes>)
    ensures r == if chain.Some? && IsRelayForward(chain.value) then
                   var stored := Stored(chain.value, sensitive);
                   if EncodableMessage(stored) then Ok(SaveMessage(stored)) else Err(StructError)
                 else Ok([])
  {
    hide Stored, CopyTree, Linked, Descends;
    if chain.None? {
      return Ok([]);
    }
    var current := chain;
    var copies: seq<RelayCopy> := [];
    ghost var relays: seq<Message> := [];
    while current.Some? && IsRelayForward(current.value)
      invariant |copies| == |relays| && forall i | 0 <= i < |copies| :: fresh(copies[i])
      invariant copies == [] ==> current == chain
      invariant copies != [] ==> Linked(copies, relays, sensitive) && Descends(chain.value, relays, current)
      decreases current.Some?, if current.Some? then current.value else chain.value
    {
      var m := current.value;
      DescendsNext(chain.value, relays, m);
      copies := PutInside(copies, relays, m, sensitive);
      relays := relays + [m];
      current := FirstRelayed(m.options);
      if current.Some? {
        RelayedIsSmaller(m);
      }
    }
    if copies == [] {
      return Ok([]);
    }
    DescendsFrom(chain.value, relays, current);
    CopyTreeIsStored(copies, chain.value, relays, current, sensitive, 0);
    r := StoreMessage(CopyTree(copies, 0));
  }

  lemma DescendsFrom(m: Message, relays: seq<Message>, current: Maybe<Message>)
    requires Descends(m, relays, current)
    ensures relays != [] && relays[0] == m && IsRelayForward(m)
  {
  }

  /** `decode_relay_messages`: nothing for no data, otherwise whatever the data parses to. */
  method DecodeRelayMessages(data: bytes) returns (r: Result<Maybe<Message>>)
    ensures r == if data == [] then Ok(None)
                 else match ParseMessage(data, 0, 0) case Failed(e) => Err(e) case Parsed(_, m) => Ok(Some(m))
  {
    if data == [] {
      return Ok(None);
    }
    var parsed := LoadMessage(data, 0, 0);
    return match parsed case Failed(e) => Err(e) case Parsed(_, m) => Ok(Some(m));
  }

  // ---- Storing and reloading ---------------------------------------------------------------------------

  /** Leaving options out and moving the relayed message to the end takes no more room. */
  lemma {:induction false} StorableIsShorter(options: seq<Option>, sensitive: seq<u16>)
    ensures |SaveOptions(Storable(options, sensitive))|
            + (if FirstRelayed(options).Some? then 4 + |SaveMessage(FirstRelayed(options).value)| else 0)
            <= |SaveOptions(options)|
  {
    hide Codec.SaveMessage, Codec.OptionBody, Codec.SaveOption;
    if options != [] {
      StorableIsShorter(options[1..], sensitive);
      var kept := Storable(options, sensitive);
      if IsStorable(options[0], sensitive) {
        assert kept[0] == options[0] && kept[1..] == Storable(options[1..], sensitive);
        assert !options[0].RelayMessage?;
      } else {
        assert kept == Storable(options[1..], sensitive);
        if options[0].RelayMessage? {
          RelayOptionSize(options[0].message);
        }
      }
    }
  }

  lemma RelayOptionSize(m: Message)
    ensures |SaveOption(RelayMessage(m))| == 4 + |SaveMessage(m)| && OptionBody(RelayMessage(m)) == SaveMessage(m)
  {
  }

  lemma {:induction false} SaveOptionsConcat(a: seq<Option>, b: seq<Option>)
    ensures SaveOptions(a + b) == SaveOptions(a) + SaveOptions(b)
  {
    hide Codec.SaveOption;
    if a == [] {
      assert a + b == b;
    } else {
      SaveOptionsConcat(a[1..], b);
      assert (a + b)[1..] == a[1..] + b && (a + b)[0] == a[0];
      FirstSaved(a);
      FirstSaved(a + b);
      hide Codec.SaveOptions;
      Associative(SaveOption(a[0]), SaveOptions(a[1..]), SaveOptions(b));
    }
  }

  /** What could be sent over the wire can be stored. */
  lemma {:induction false} StoredIsProper(m: Message, sensitive: seq<u16>)
    requires IsRelayForward(m) && ProperMessage(m) && EncodableMessage(m)
    ensures var stored := Stored(m, sensitive);
            ProperMessage(stored) && EncodableMessage(stored) && |SaveMessage(stored)| <= |SaveMessage(m)|
    decreases m
  {
    hide Codec.SaveOptions, Codec.Proper, Codec.Encodable;
    var kept := Storable(m.options, sensitive);
    StorableIsShorter(m.options, sensitive);
    StorableMembers(m.options, sensitive);
    match FirstRelayed(m.options) {
      case None =>
      case Some(inner) =>
        RelayedIsSmaller(m);
        assert RelayMessage(inner) in m.options;
        RelayOptionIsProper(inner);
        if IsRelayForward(inner) {
          StoredIsProper(inner, sensitive);
          var stored := Stored(inner, sensitive);
          RelayOptionIsProper(stored);
          RelayOptionSize(stored);
          RelayOptionSize(inner);
          SaveOptionsConcat(kept, [RelayMessage(stored)]);
          SaveOne(RelayMessage(stored));
        }
    }
  }

  lemma SaveOne(option: Option)
    ensures SaveOptions([option]) == SaveOption(option)
  {
    assert [option][1..] == [];
    assert SaveOption(option) + [] == SaveOption(option);
  }

  lemma RelayOptionIsProper(m: Message)
    ensures Proper(RelayMessage(m)) <==> ProperMessage(m)
    ensures Encodable(RelayMessage(m)) <==> EncodableMessage(m) && |SaveMessage(m)| < 0x1_0000
  {
    hide Codec.SaveMessage, Codec.ProperMessage, Codec.EncodableMessage;
    RelayOptionSize(m);
  }

  /**
   Section 4.1.2.4 of RFC 5007: what comes back from the store has as many relays as went in,
   with their hop counts, addresses and storable options in order, and not the client's message.
   */
  method StoreAndReload(chain: Message, sensitive: seq<u16>) returns (reloaded: Maybe<Message>)
    requires IsRelayForward(chain) && ProperMessage(chain) && EncodableMessage(chain)
    ensures reloaded == Some(Stored(chain, sensitive))
    ensures var back, relays := Relays(reloaded.value), Relays(chain);
            |back| == |relays| && forall i | 0 <= i < |relays| :: Keeps(back[i], relays[i], sensitive)
    ensures Innermost(reloaded.value) == None
  {
    hide Codec.ParseMessage, Codec.SaveMessage, Codec.ProperMessage, Codec.EncodableMessage;
    hide Stored, Relays, Innermost, Keeps;
    var stored := Stored(chain, sensitive);
    StoredIsProper(chain, sensitive);
    StoredKeepsTheRelays(chain, sensitive);
    var data := EncodeRelayMessages(Some(chain), sensitive);
    SavedMessageComesBackIffProper(stored);
    SavedIsNotEmpty(stored);
    var r := DecodeRelayMessages(data.value);
    reloaded := r.value;
  }

  // ---- What the server wraps around a packet -------------------------------------------------------------

  /** A packet as the listener hands it over: its message, and what the internal relay adds. */
  datatype Received = Received(incoming: Message, link: Address, peer: Address, relayOptions: seq<Option>)

  /** The hop count of the relay message that the server wraps around it, which need not fit an octet. */
  function NextHop(incoming: Message): nat { if IsRelayForward(incoming) then incoming.hopCount as nat + 1 else 0 }

  function Wrapped(p: Received): Message
    requires NextHop(p.incoming) < 256
  {
    Relay(MSG_RELAY_FORW, NextHop(p.incoming) as byte, p.link, p.peer, p.relayOptions + [RelayMessage(p.incoming)])
  }

  /** `encode_relay_messages` on the relay message around a packet: saving starts with its hop count. */
  method RememberRelays(p: Received, sensitive: seq<u16>) returns (r: Result<bytes>)
    ensures NextHop(p.incoming) > 255 ==> r == Err(ValueError)
    ensures NextHop(p.incoming) <= 255 ==>
              var stored := Stored(Wrapped(p), sensitive);
              r == if EncodableMessage(stored) then Ok(SaveMessage(stored)) else Err(StructError)
  {
    hide Stored, Codec.EncodableMessage, Codec.SaveMessage;
    if NextHop(p.incoming) > 255 {
      return Err(ValueError);
    }
    r := EncodeRelayMessages(Some(Wrapped(p)), sensitive);
  }

  lemma WrappedIsProper(p: Received)
    requires ProperMessage(p.incoming) && EncodableMessage(p.incoming) && |SaveMessage(p.incoming)| < 0x1_0000
    requires NextHop(p.incoming) <= 255 && forall o <- p.relayOptions :: Proper(o) && Encodable(o)
    ensures ProperMessage(Wrapped(p)) && EncodableMessage(Wrapped(p))
  {
    hide Codec.SaveMessage;
    RelayOptionIsProper(p.incoming);
    hide Codec.Proper, Codec.Encodable;
    var all := p.relayOptions + [RelayMessage(p.incoming)];
    forall o <- all ensures Proper(o) && Encodable(o) {
      assert o in p.relayOptions || o == RelayMessage(p.incoming);
    }
  }

  /**
   The relays of a packet that was received can be stored and come back if and only if it did not
   come from a relay that sent the largest hop count, 255, which is a valid one.
   */
  method RememberAndReload(p: Received, sensitive: seq<u16>) returns (r: Result<Maybe<Message>>)
    requires ProperMessage(p.incoming) && EncodableMessage(p.incoming) && |SaveMessage(p.incoming)| < 0x1_0000
    requires forall o <- p.relayOptions :: Proper(o) && Encodable(o)
    ensures r.Ok? <==> !(IsRelayForward(p.incoming) && p.incoming.hopCount == 255)
    ensures r.Ok? ==> r.value == Some(Stored(Wrapped(p), sensitive))
    ensures r.Ok? ==>
              var back, relays := Relays(r.value.value), Relays(Wrapped(p));
              |back| == |relays| && (forall i | 0 <= i < |relays| :: Keeps(back[i], relays[i], sensitive))
                  && Innermost(r.value.value) == None
  {
    hide Stored, Relays, Innermost, Keeps;
    hide Codec.ProperMessage, Codec.EncodableMessage, Codec.SaveMessage, Codec.ParseMessage;
    var data := RememberRelays(p, sensitive);
    if data.Err? {
      if NextHop(p.incoming) <= 255 {
        WrappedIsProper(p);
        StoredIsProper(Wrapped(p), sensitive);
      }
      return Err(data.error);
    }
    WrappedIsProper(p);
    StoredIsProper(Wrapped(p), sensitive);
    StoredKeepsTheRelays(Wrapped(p), sensitive);
    var stored := Stored(Wrapped(p), sensitive);
    SavedMessageComesBackIffProper(stored);
    SavedIsNotEmpty(stored);
    r := DecodeRelayMessages(data.value);
  }

  // ---- Relay data of an answer ----------------------------------------------------------------------------

  /**
   `build_relay_data_option_from_relay_data` on what was stored for `chain`: the outer relay
   message was made inside the server, so its peer address and the relays in it are returned,
   or nothing if the request came through no relay.
   */
  function RelayData(reloaded: Maybe<Message>): Maybe<(Address, Message)> {
    if reloaded.None? || !reloaded.value.Relay? then None
    else
      match Relayed(reloaded.value)
      case None => None
      case Some(inner) => if IsRelayForward(inner) then Some((reloaded.value.peer, inner)) else None
  }

  /** The answer names the outermost real relay and what was stored of it. */
  lemma RelayDataOfStored(chain: Message, sensitive: seq<u16>)
    requires IsRelayForward(chain)
    ensures RelayData(Some(Stored(chain, sensitive)))
         == match Relayed(chain)
            case None => None
            case Some(inner) => if IsRelayForward(inner) then Some((chain.peer, Stored(inner, sensitive))) else None
  {
    StorableTwice(chain.options, sensitive);
    if FirstRelayed(chain.options).Some? && IsRelayForward(FirstRelayed(chain.options).value) {
      RelayedIsSmaller(chain);
      FirstRelayedConcat(Storable(chain.options, sensitive), Stored(FirstRelayed(chain.options).value, sensitive));
    }
  }

  // ---- Lists of options ---------------------------------------------------------------------------------

  /** `encode_options`. */
  method EncodeOptions(options: seq<Option>, sensitive: seq<u16>) returns (r: Result<bytes>)
    ensures var kept := Storable(options, sensitive);
            r == if forall o <- kept :: Encodable(o) then Ok(SaveOptions(kept)) else Err(StructError)
  {
    r := StoreOptions(Storable(options, sensitive));
  }

  /** `decode_options`: the length it passes is always the rest of the buffer, so it says nothing new. */
  method DecodeOptions(data: bytes) returns (r: Parsed<seq<Option>>)
    ensures r == ParseOptions(data, 0, |data|)
  {
    r := LoadOptions(data, 0, |data|);
  }

  /** A list of options through the store and back. */
  method StoreAndReloadOptions(options: seq<Option>, sensitive: seq<u16>) returns (reloaded: seq<Option>)
    requires forall o <- options :: Proper(o) && Encodable(o)
    ensures reloaded == Storable(options, sensitive)
  {
    hide Codec.Proper, Codec.Encodable, Codec.SaveOptions, Codec.ParseOptions, Storable;
    StorableMembers(options, sensitive);
    var data := EncodeOptions(options, sensitive);
    StoredOptionsComeBack(options, sensitive);
    var parsed := DecodeOptions(data.value);
    reloaded := parsed.value;
  }

  /** Option lists come back from the store as their storable options in order. */
  lemma StoredOptionsComeBack(options: seq<Option>, sensitive: seq<u16>)
    requires forall o <- options :: Proper(o) && Encodable(o)
    ensures var data := SaveOptions(Storable(options, sensitive));
            ParseOptions(data, 0, |data|) == Parsed(|data|, Storable(options, sensitive))
  {
    hide Codec.Proper, Codec.Encodable, Codec.SaveOptions, Codec.ParseOptions;
    StorableMembers(options, sensitive);
    OptionsRoundTrip(Storable(options, sensitive), SaveOptions(Storable(options, sensitive)), 0);
  }
}
