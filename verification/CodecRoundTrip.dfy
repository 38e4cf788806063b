/** Saving and loading undo each other, at any nesting depth. */
module CodecRoundTrip {
  import opened Bytes
  import opened Wire
  import opened LeafCodec
  import opened Codec

  // ---- Tree to octets to tree -----------------------------------------------------------

  /** The header of a saved option is read back, and its option-data stands behind it. */
  lemma SavedHeader(option: Option, b: bytes, p: nat)
    requires |OptionBody(option)| < 0x1_0000 && At(b, p, SaveOption(option))
    ensures var body := OptionBody(option);
            && p + 4 + |body| <= |b| && Read(b, p, 2) == OptionCode(option) && Read(b, p + 2, 2) == |body|
            && At(b, p + 4, body) && b[p + 4..p + 4 + |body|] == body && |SaveOption(option)| == 4 + |body|
  {
    hide Bytes.Pack, Bytes.Unpack, Bytes.Read, Bytes.At, Codec.OptionBody, Wire.OptionCode;
    var code, body := OptionCode(option), OptionBody(option);
    ReadField(b, p, code, 2, Pack(|body|, 2) + body);
    ReadField(b, p + 2, |body|, 2, body);
    SliceAt(b, p + 4, body);
  }

  lemma LeafOptionRoundTrip(leaf: Leaf, b: bytes, p: nat)
    requires Proper(Leaf(leaf)) && Encodable(Leaf(leaf)) && At(b, p, SaveOption(Leaf(leaf)))
    ensures ParseOption(b, p) == Parsed(|SaveOption(Leaf(leaf))|, Leaf(leaf))
  {
    hide Bytes.Pack, Bytes.Unpack, Bytes.Read, Bytes.At;
    hide LeafCodec.ParseLeaf, LeafCodec.LeafBody, LeafCodec.EncodableLeaf;
    hide Codec.SaveOption, Codec.ParseOptions, Codec.ParseMessage, Codec.ParseHeader;
    SavedHeader(Leaf(leaf), b, p);
    if leaf.Raw? {
      RawBody(leaf);
    } else {
      LeafRoundTrip(leaf, b, p + 4);
    }
  }

  /** Loading a saved option gives it back with its exact size, whatever stands around it in the buffer. */
  lemma {:induction false} OptionRoundTrip(option: Option, b: bytes, p: nat)
    requires Proper(option) && Encodable(option) && At(b, p, SaveOption(option))
    ensures ParseOption(b, p) == Parsed(|SaveOption(option)|, option)
    decreases option, 3
  {
    hide Bytes.Pack, Bytes.Unpack, Bytes.Read, Bytes.At;
    hide LeafCodec.ParseLeaf, LeafCodec.LeafBody, LeafCodec.EncodableLeaf;
    hide LeafCodec.ProperLeaf, LeafCodec.LeafLimits, Codec.SaveHeader;
    hide Codec.ParseHeader, Codec.SaveOption, Codec.SaveOptions;
    hide Codec.ParseOptions, Codec.ParseMessage;
    SavedHeader(option, b, p);
    match option {
      case Leaf(leaf) => LeafOptionRoundTrip(leaf, b, p);
      case Container(header, options) =>
        SaveHeaderLength(header);
        ContainerRoundTrip(header, options, b, p + 4);
      case RelayMessage(message) =>
        SavedIsNotEmpty(message);
        MessageRoundTrip(message, b, p + 4, |OptionBody(option)|);
    }
  }

  lemma SavedIsNotEmpty(m: Message)
    ensures SaveMessage(m) != []
  {
  }

  lemma {:induction false} ContainerRoundTrip(header: Header, options: seq<Option>, b: bytes, q: nat)
    requires ProperHeader(header) && At(b, q, OptionBody(Container(header, options)))
    requires forall o <- options :: Proper(o) && Encodable(o)
    ensures var h, body := HeaderLength(HeaderCode(header)), OptionBody(Container(header, options));
            && q + h <= q + |body| <= |b| && ParseHeader(b, HeaderCode(header), q) == Ok(header)
            && ParseOptions(b, q + h, q + |body|) == Parsed(|body| - h, options)
    decreases options, 2
  {
    hide Bytes.At, Codec.SaveHeader, Codec.ParseHeader, Codec.SaveOptions, Codec.ParseOptions, Codec.HeaderLength;
    SliceAt(b, q, OptionBody(Container(header, options)));
    AtSplit(b, q, SaveHeader(header), SaveOptions(options));
    SaveHeaderLength(header);
    HeaderRoundTrip(header, b, q);
    OptionsRoundTrip(options, b, q + HeaderLength(HeaderCode(header)));
  }

  lemma RawBody(leaf: Leaf)
    requires leaf.Raw?
    ensures LeafBody(leaf) == leaf.data
  {
  }

  lemma NothingSaved(b: bytes, p: nat)
    ensures SaveOptions([]) == [] && ParseOptions(b, p, p) == Parsed(0, [])
  {
    NextOption(b, p, p);
  }

  lemma FirstSaved(options: seq<Option>)
    requires options != []
    ensures SaveOptions(options) == SaveOption(options[0]) + SaveOptions(options[1..])
  {
    hide Codec.SaveOption;
  }

  lemma {:induction false} OptionsRoundTrip(options: seq<Option>, b: bytes, p: nat)
    requires forall o <- options :: Proper(o) && Encodable(o)
    requires At(b, p, SaveOptions(options))
    ensures ParseOptions(b, p, p + |SaveOptions(options)|) == Parsed(|SaveOptions(options)|, options)
    decreases options, 1
  {
    hide Bytes.At, Codec.SaveOption, Codec.ParseOption, Codec.SaveOptions;
    hide Codec.ParseOptions, Codec.Proper, Codec.Encodable;
    if options == [] {
      NothingSaved(b, p);
    } else {
      var first, rest := SaveOption(options[0]), SaveOptions(options[1..]);
      FirstSaved(options);
      NextOption(b, p, p + |SaveOptions(options)|);
      AtSplit(b, p, first, rest);
      OptionRoundTrip(options[0], b, p);
      OptionsRoundTrip(options[1..], b, p + |first|);
      SavedOptionSize(options[0]);
      assert options == [options[0]] + options[1..];
    }
  }

  lemma SavedOptionSize(option: Option)
    ensures |SaveOption(option)| == 4 + |OptionBody(option)|
  {
  }

  lemma ClientFields(kind: byte, transactionId: bytes, rest: bytes, b: bytes, p: nat)
    requires |transactionId| == 3 && At(b, p, [kind] + (transactionId + rest))
    ensures p + 4 <= |b| && b[p] == kind && Slice(b, p + 1, p + 4) == transactionId && At(b, p + 4, rest)
  {
    AtSplit(b, p, [kind], transactionId + rest);
    AtSplit(b, p + 1, transactionId, rest);
    SliceAt(b, p + 1, transactionId);
    assert b[p] == b[p..p + 1][0];
  }

  lemma RelayFields(kind: byte, hopCount: byte, link: Address, peer: Address, rest: bytes, b: bytes, p: nat)
    requires At(b, p, [kind, hopCount] + (link + (peer + rest)))
    ensures p + 34 <= |b| && b[p] == kind && b[p + 1] == hopCount
    ensures b[p + 2..p + 18] == link && b[p + 18..p + 34] == peer && At(b, p + 34, rest)
  {
    AtSplit(b, p, [kind, hopCount], link + (peer + rest));
    AtSplit(b, p + 2, link, peer + rest);
    AtSplit(b, p + 18, peer, rest);
    assert b[p] == b[p..p + 2][0] && b[p + 1] == b[p..p + 2][1];
  }

  /** Loading a saved message with its own length gives it back and uses exactly its octets. */
  lemma {:induction false} MessageRoundTrip(message: Message, b: bytes, p: nat, length: nat)
    requires ProperMessage(message) && EncodableMessage(message)
    requires At(b, p, SaveMessage(message)) && Limit(b, p, length) == |SaveMessage(message)|
    ensures ParseMessage(b, p, length) == Parsed(|SaveMessage(message)|, message)
    decreases message, 2
  {
    hide Bytes.At, Bytes.Slice, Bytes.Span, Codec.SaveOptions, Codec.ParseOptions, Codec.Proper, Codec.Encodable;
    match message {
      case ClientServer(kind, transactionId, options) =>
        ClientFields(kind, transactionId, SaveOptions(options), b, p);
        OptionsRoundTrip(options, b, p + 4);
      case Relay(kind, hopCount, link, peer, options) =>
        RelayFields(kind, hopCount, link, peer, SaveOptions(options), b, p);
        OptionsRoundTrip(options, b, p + 34);
      case UnknownMessage(kind, data) =>
        AtSplit(b, p, [kind], data);
        SliceAt(b, p, [kind]);
        SliceAt(b, p + 1, data);
        assert b[p] == b[p..p + 1][0];
    }
  }

  // ---- Octets to tree to octets ---------------------------------------------------------

  /**
   Every DUID and remote-id in the option at `p` is at least as long as the fixed fields its
   class reads: a walk over type and length fields that a caller can do before parsing.
   */
  predicate OptionFits(b: bytes, p: nat)
    decreases if p < |b| then |b| - p else 0, 0
  {
    p + 4 <= |b| &&
    var code, len := Read(b, p, 2), Read(b, p + 2, 2);
    if IsContainerCode(code) then OptionsFit(b, p + 4 + HeaderLength(code), p + 4 + len)
    else if code == OPTION_RELAY_MSG then MessageFits(b, p + 4, p + 4 + len)
    else if LeafCode(code) then LeafFits(b, code, p + 4, len)
    else true
  }

  predicate OptionsFit(b: bytes, p: nat, end: nat)
    decreases if p < |b| then |b| - p else 0, 1
  {
    end <= p || (OptionFits(b, p) && OptionsFit(b, p + 4 + Read(b, p + 2, 2), end))
  }

  predicate MessageFits(b: bytes, p: nat, end: nat)
    decreases if p < |b| then |b| - p else 0, 2
  {
    p < |b| &&
    if IsClientServerKind(b[p]) then OptionsFit(b, p + 4, end)
    else if IsRelayKind(b[p]) then OptionsFit(b, p + 34, end)
    else true
  }

  lemma ResavedConcat(s: bytes, t: bytes, b: bytes, p: nat, m: nat, n: nat, sFits: bool, tFits: bool)
    requires Resaved(s, b, p, m, sFits) && Resaved(t, b, p + m, n, tFits)
    ensures Resaved(s + t, b, p, m + n, sFits && tFits)
  {
    SplitAt(b, p, p + m, p + m + n);
  }

  /** The option header in front of option-data that was read with it. */
  lemma ResavedOption(body: bytes, b: bytes, p: nat, fits: bool)
    requires p + 4 <= |b| && Resaved(body, b, p + 4, Read(b, p + 2, 2), fits)
    ensures Resaved(Pack(Read(b, p, 2), 2) + (Pack(|body|, 2) + body), b, p, 4 + Read(b, p + 2, 2), fits)
  {
    hide Bytes.Pack, Bytes.Unpack, Bytes.Read;
    var code, len := Read(b, p, 2), Read(b, p + 2, 2);
    var s := Pack(code, 2) + (Pack(|body|, 2) + body);
    if |body| == len {
      WriteField(b, p + 2, 2, p + 4 + len);
      WriteField(b, p, 2, p + 4 + len);
    }
  }

  /** A parsed option saves to the octets it was parsed from exactly when `OptionFits`. */
  lemma {:induction false} OptionRewrite(b: bytes, p: nat)
    requires ParseOption(b, p).Parsed?
    ensures var Parsed(used, option) := ParseOption(b, p);
            && Proper(option) && Resaved(SaveOption(option), b, p, used, OptionFits(b, p))
            && (OptionFits(b, p) ==> Encodable(option))
    decreases if p < |b| then |b| - p else 0, 1
  {
    hide Bytes.Pack, Bytes.Unpack, Bytes.Read, LeafCodec.ParseLeaf, LeafCodec.LeafBody, LeafCodec.EncodableLeaf;
    hide LeafCodec.ProperLeaf, LeafCodec.LeafFits, Codec.SaveHeader, Codec.ParseHeader, Resaved, Codec.ProperHeader;
    var code, len, q := Read(b, p, 2), Read(b, p + 2, 2), p + 4;
    var option := ParseOption(b, p).value;
    match option {
      case Leaf(leaf) => LeafOptionRewrite(b, p);
      case Container(header, options) =>
        ContainerRewrite(b, p);
        ResavedOption(OptionBody(option), b, p, OptionFits(b, p));
      case RelayMessage(message) =>
        MessageRewrite(b, q, len);
        ResavedOption(OptionBody(option), b, p, OptionFits(b, p));
        ResavedLength(OptionBody(option), b, q, len, OptionFits(b, p));
    }
  }

  lemma {:induction false} ContainerRewrite(b: bytes, p: nat)
    requires ParseOption(b, p).Parsed? && ParseOption(b, p).value.Container?
    ensures var option := ParseOption(b, p).value;
            && OptionCode(option) == Read(b, p, 2) && Proper(option)
            && Resaved(OptionBody(option), b, p + 4, Read(b, p + 2, 2), OptionFits(b, p))
            && (OptionFits(b, p) ==> Encodable(option))
    decreases if p < |b| then |b| - p else 0, 0
  {
    hide Bytes.Pack, Bytes.Unpack, Bytes.Read, LeafCodec.ParseLeaf;
    hide Codec.SaveHeader, Codec.ParseHeader, Resaved, Codec.ProperHeader;
    hide Codec.SaveOptions, Codec.ParseOptions, Codec.ParseMessage, OptionsFit, MessageFits;
    var code, len, q := Read(b, p, 2), Read(b, p + 2, 2), p + 4;
    var Container(header, options) := ParseOption(b, p).value;
    var h := HeaderLength(code);
    HeaderRewrite(b, code, q);
    OptionsRewrite(b, q + h, q + len);
    ResavedContainer(header, options, b, q, h, len, OptionsFit(b, q + h, q + len));
    LengthsFit(b, p);
  }

  lemma LengthsFit(b: bytes, p: nat)
    requires p + 4 <= |b|
    ensures Read(b, p + 2, 2) < 0x1_0000
  {
    TwoOctets();
  }

  lemma ResavedContainer(header: Header, options: seq<Option>, b: bytes, q: nat, h: nat, len: nat, fits: bool)
    requires h <= len && q + h <= |b| && SaveHeader(header) == b[q..q + h]
    requires Resaved(SaveOptions(options), b, q + h, len - h, fits)
    ensures Resaved(OptionBody(Container(header, options)), b, q, len, fits)
    ensures fits ==> |OptionBody(Container(header, options))| == len
  {
    hide Codec.SaveHeader, Codec.SaveOptions;
    ResavedConcat(SaveHeader(header), SaveOptions(options), b, q, h, len - h, true, fits);
  }

  lemma ResavedLength(s: bytes, b: bytes, p: nat, used: nat, fits: bool)
    requires Resaved(s, b, p, used, fits)
    ensures fits ==> |s| == used
  {
  }

  lemma LeafOptionRewrite(b: bytes, p: nat)
    requires ParseOption(b, p).Parsed? && ParseOption(b, p).value.Leaf?
    ensures var Parsed(used, option) := ParseOption(b, p);
            && Proper(option) && Resaved(SaveOption(option), b, p, used, OptionFits(b, p))
            && (OptionFits(b, p) ==> Encodable(option))
  {
    hide Bytes.Pack, Bytes.Unpack, Bytes.Read, LeafCodec.ParseLeaf;
    var code, len, q := Read(b, p, 2), Read(b, p + 2, 2), p + 4;
    var option := ParseOption(b, p).value;
    if LeafCode(code) {
      hide LeafCodec.LeafBody, LeafCodec.LeafFits;
      LeafRewrite(b, code, q, len);
    }
    ResavedOption(LeafBody(option.leaf), b, p, OptionFits(b, p));
  }

  lemma {:induction false} OptionsRewrite(b: bytes, p: nat, end: nat)
    requires p <= end <= |b| && ParseOptions(b, p, end).Parsed?
    ensures var Parsed(used, options) := ParseOptions(b, p, end);
            && (forall o <- options :: Proper(o))
            && Resaved(SaveOptions(options), b, p, used, OptionsFit(b, p, end))
            && (OptionsFit(b, p, end) ==> forall o <- options :: Encodable(o))
    decreases if p < |b| then |b| - p else 0, 2
  {
    hide Bytes.Read, Codec.SaveOption, Codec.ParseOption, OptionFits, Codec.Proper, Codec.Encodable;
    if p == end {
    } else {
      var Parsed(used, option) := ParseOption(b, p);
      OptionRewrite(b, p);
      if p + used < end {
        OptionsRewrite(b, p + used, end);
      }
      var Parsed(more, options) := ParseOptions(b, p + used, end);
      ResavedConcat(SaveOption(option), SaveOptions(options), b, p, used, more, OptionFits(b, p),
          OptionsFit(b, p + used, end));
      assert ([option] + options)[1..] == options;
    }
  }

  lemma ResavedMessage(message: Message, fixed: bytes, b: bytes, p: nat, end: nat, fits: bool)
    requires match message
             case ClientServer(kind, transactionId, _) => fixed == [kind] + transactionId
             case Relay(kind, hopCount, link, peer, _) => fixed == [kind, hopCount] + link + peer
             case UnknownMessage(_, _) => false
    requires p + |fixed| <= end <= |b| && fixed == b[p..p + |fixed|]
    requires Resaved(SaveOptions(message.options), b, p + |fixed|, end - p - |fixed|, fits)
    ensures Resaved(SaveMessage(message), b, p, end - p, fits)
  {
    hide Codec.SaveOptions;
    ResavedConcat(fixed, SaveOptions(message.options), b, p, |fixed|, end - p - |fixed|, true, fits);
    assert SaveMessage(message) == fixed + SaveOptions(message.options);
  }

  lemma UnknownResaved(message: Message, b: bytes, p: nat, end: nat)
    requires p < end <= |b| && message == UnknownMessage(b[p], b[p + 1..end])
    ensures Resaved(SaveMessage(message), b, p, end - p, true)
  {
    assert SaveMessage(message) == b[p..end];
  }

  /** A message parsed in full saves to the octets it was parsed from exactly when `MessageFits`. */
  lemma {:induction false} MessageRewrite(b: bytes, p: nat, length: nat)
    requires p + Limit(b, p, length) <= |b|
    requires ParseMessage(b, p, length).Parsed? && ParseMessage(b, p, length).used == Limit(b, p, length)
    ensures var Parsed(used, message) := ParseMessage(b, p, length);
            && ProperMessage(message)
            && Resaved(SaveMessage(message), b, p, used, MessageFits(b, p, p + Limit(b, p, length)))
            && (MessageFits(b, p, p + Limit(b, p, length)) ==> EncodableMessage(message))
    decreases if p < |b| then |b| - p else 0, 3
  {
    hide Codec.SaveOptions, Codec.ParseOptions, OptionsFit, Codec.Proper;
    hide Codec.Encodable, Bytes.Span, Bytes.Slice, Resaved;
    var end := p + Limit(b, p, length);
    var message := ParseMessage(b, p, length).value;
    match message {
      case ClientServer(kind, transactionId, options) =>
        OptionsRewrite(b, p + 4, end);
        assert [kind] + transactionId == b[p..p + 4];
        ResavedMessage(message, [kind] + transactionId, b, p, end, OptionsFit(b, p + 4, end));
      case Relay(kind, hopCount, link, peer, options) =>
        OptionsRewrite(b, p + 34, end);
        assert [kind, hopCount] + link + peer == b[p..p + 34];
        ResavedMessage(message, [kind, hopCount] + link + peer, b, p, end, OptionsFit(b, p + 34, end));
      case UnknownMessage(kind, data) =>
        UnknownResaved(message, b, p, end);
    }
  }

  // ---- The two directions, each with its exact condition ----------------------------------

  /** Of all messages that `save` can encode, those that come back unchanged are exactly the proper ones. */
  lemma SavedMessageComesBackIffProper(message: Message)
    requires EncodableMessage(message)
    ensures ParseMessage(SaveMessage(message), 0, 0) == Parsed(|SaveMessage(message)|, message) <==>
        ProperMessage(message)
  {
    hide Codec.ParseMessage, Codec.SaveMessage, Codec.ProperMessage, Codec.EncodableMessage;
    var b := SaveMessage(message);
    if ProperMessage(message) {
      MessageRoundTrip(message, b, 0, 0);
    }
    if ParseMessage(b, 0, 0) == Parsed(|b|, message) {
      MessageRewrite(b, 0, 0);
    }
  }

  /**
   Of all buffers that are parsed in full, those that are saved unchanged are exactly those without
   cut-off fields.
   */
  lemma ParsedBufferComesBackIffItFits(b: bytes)
    requires ParseMessage(b, 0, 0).Parsed? && ParseMessage(b, 0, 0).used == |b|
    ensures SaveMessage(ParseMessage(b, 0, 0).value) == b <==> MessageFits(b, 0, |b|)
  {
    hide Codec.ParseMessage, Codec.SaveMessage, MessageFits, Codec.ProperMessage, Codec.EncodableMessage;
    MessageRewrite(b, 0, 0);
    assert b[0..|b|] == b;
  }

  /**
   A client identifier with a link-layer-plus-time DUID of four octets: the parser fills the
   time field from the option behind it, and saving gives a longer message.
   */
  const CUT_OFF_DUID: bytes := [11, 0, 0, 0, 0, 1, 0, 4, 0, 1, 0, 1, 0, 14, 0, 0]

  lemma CutOffDuidGrows()
    ensures var b := CUT_OFF_DUID;
            && ParseMessage(b, 0, 0).Parsed? && ParseMessage(b, 0, 0).used == |b|
            && |SaveMessage(ParseMessage(b, 0, 0).value)| > |b|
  {
    var b := CUT_OFF_DUID;
    Words(b, 4); Words(b, 6); Words(b, 8); Words(b, 12); Words(b, 14);
    CutOffOptions(b);
    assert ParseMessage(b, 0, 0).Parsed? && ParseMessage(b, 0, 0).used == |b| && !MessageFits(b, 0, |b|);
    hide *;
    MessageRewrite(b, 0, 0);
    WholeBufferGrows(SaveMessage(ParseMessage(b, 0, 0).value), b);
  }

  lemma WholeBufferGrows(s: bytes, b: bytes)
    requires Resaved(s, b, 0, |b|, false)
    ensures |s| > |b|
  {
  }

  lemma CutOffOptions(b: bytes)
    requires |b| == 16 && Read(b, 4, 2) == 1 && Read(b, 6, 2) == 4 && Read(b, 8, 2) == 1
    requires Read(b, 12, 2) == 14 && Read(b, 14, 2) == 0
    ensures ParseOptions(b, 4, 16).Parsed? && ParseOptions(b, 4, 16).used == 12 && !OptionsFit(b, 4, 16)
  {
    hide Bytes.Read, Bytes.Unpack, Bytes.Pack, Codec.ParseHeader, Codec.ParseMessage;
    assert ParseOption(b, 12) == Parsed(4, Leaf(RapidCommit));
    assert ParseOption(b, 4).Parsed? && ParseOption(b, 4).used == 8;
    assert !OptionFits(b, 4);
    assert ParseOptions(b, 16, 16) == Parsed(0, []);
    assert ParseOptions(b, 12, 16).Parsed? && ParseOptions(b, 12, 16).used == 4;
  }

  lemma Words(b: bytes, p: nat)
    requires p + 2 <= |b|
    ensures Read(b, p, 2) == b[p] as int * 256 + b[p + 1] as int
  {
    var s := b[p..p + 2];
    assert s[..1] == [b[p]] && s[..1][..0] == [];
    assert Unpack(s[..1]) == b[p] as int;
  }
}
