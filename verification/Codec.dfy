/**
 The nested wire format: messages contain options, IA options contain options, and a
 relay-message option contains a whole message again.

 `ParseOption`, `ParseOptions` and `ParseMessage` say what the `load_from` methods do with a
 buffer; `CodecLoops` has those methods with their loops.
 */
module Codec {
  import opened Bytes
  import opened Wire
  import opened LeafCodec

  /** The number of octets `load_from` reports as used, and the element it built. */
  datatype Parsed<+T> = Parsed(used: nat, value: T) | Failed(error: ParseError)

  // ---- Headers of container options ---------------------------------------------------

  /** The `min_length` a container class passes to `parse_option_header`: the size of its fixed fields. */
  function HeaderLength(code: int): nat {
    if code == OPTION_IA_NA || code == OPTION_IA_PD then 12
    else if code == OPTION_IA_TA then 4
    else if code == OPTION_IAADDR then 24
    else 25
  }

  function SaveHeader(header: Header): bytes {
    match header
    case IaNa(iaid, t1, t2) => iaid + (Pack(t1, 4) + Pack(t2, 4))
    case IaTa(iaid) => iaid
    case IaAddress(address, preferred, valid) => address + (Pack(preferred, 4) + Pack(valid, 4))
    case IaPd(iaid, t1, t2) => iaid + (Pack(t1, 4) + Pack(t2, 4))
    case IaPrefix(preferred, valid, prefixLength, network) =>
      Pack(preferred, 4) + (Pack(valid, 4) + ([prefixLength] + network))
  }

  /** No bit is set from bit `n` on. Octet `i` holds the bits from `8 * i`. */
  predicate ZeroBeyond(network: bytes, n: nat) {
    forall i: nat | i < |network| ::
      var keep := n - 8 * i;
      if keep <= 0 then network[i] == 0 else keep < 8 ==> network[i] as int % TwoTo(8 - keep) == 0
  }

  /** What `IPv6Network('address/length')` insists on: a length of at most 128 and no bit set beyond it. */
  predicate StrictNetwork(network: Address, prefixLength: byte) {
    prefixLength <= 128 && ZeroBeyond(network, prefixLength as nat)
  }

  predicate ProperHeader(header: Header) {
    header.IaPrefix? ==> StrictNetwork(header.network, header.prefixLength)
  }

  function ParseHeader(b: bytes, code: u16, p: nat): (r: Result<Header>)
    requires IsContainerCode(code) && p + HeaderLength(code) <= |b|
  {
    if code == OPTION_IA_NA then Ok(IaNa(b[p..p + 4], Read(b, p + 4, 4), Read(b, p + 8, 4)))
    else if code == OPTION_IA_TA then Ok(IaTa(b[p..p + 4]))
    else if code == OPTION_IAADDR then Ok(IaAddress(b[p..p + 16], Read(b, p + 16, 4), Read(b, p + 20, 4)))
    else if code == OPTION_IA_PD then Ok(IaPd(b[p..p + 4], Read(b, p + 4, 4), Read(b, p + 8, 4)))
    else if StrictNetwork(b[p + 9..p + 25], b[p + 8]) then
      Ok(IaPrefix(Read(b, p, 4), Read(b, p + 4, 4), b[p + 8], b[p + 9..p + 25]))
    else Err(ValueError)
  }

  lemma SaveHeaderLength(header: Header)
    ensures IsContainerCode(HeaderCode(header)) && |SaveHeader(header)| == HeaderLength(HeaderCode(header))
  {
  }

  lemma HeaderRoundTrip(header: Header, b: bytes, p: nat)
    requires ProperHeader(header) && At(b, p, SaveHeader(header))
    ensures p + HeaderLength(HeaderCode(header)) <= |b|
    ensures ParseHeader(b, HeaderCode(header), p) == Ok(header)
  {
    hide Bytes.Pack, Bytes.Unpack, Bytes.Read, Bytes.At, Bytes.Slice, StrictNetwork;
    SliceAt(b, p, SaveHeader(header));
    match header {
      case IaNa(iaid, t1, t2) =>
        AtSplit(b, p, iaid, Pack(t1, 4) + Pack(t2, 4));
        SliceAt(b, p, iaid);
        ReadTwo(b, p + 4, t1, t2);
      case IaTa(iaid) =>
      case IaAddress(address, preferred, valid) =>
        AtSplit(b, p, address, Pack(preferred, 4) + Pack(valid, 4));
        SliceAt(b, p, address);
        ReadTwo(b, p + 16, preferred, valid);
      case IaPd(iaid, t1, t2) =>
        AtSplit(b, p, iaid, Pack(t1, 4) + Pack(t2, 4));
        SliceAt(b, p, iaid);
        ReadTwo(b, p + 4, t1, t2);
      case IaPrefix(preferred, valid, prefixLength, network) =>
        ReadField(b, p, preferred, 4, Pack(valid, 4) + ([prefixLength] + network));
        ReadField(b, p + 4, valid, 4, [prefixLength] + network);
        AtSplit(b, p + 8, [prefixLength], network);
        SliceAt(b, p + 8, [prefixLength]);
        assert b[p + 8] == b[p + 8..p + 9][0];
        SliceAt(b, p + 9, network);
    }
  }

  lemma ReadTwo(b: bytes, p: nat, x: u32, y: u32)
    requires At(b, p, Pack(x, 4) + Pack(y, 4))
    ensures p + 8 <= |b| && Read(b, p, 4) == x && Read(b, p + 4, 4) == y
  {
    hide Bytes.Pack, Bytes.Unpack, Bytes.Read, Bytes.At;
    ReadField(b, p, x, 4, Pack(y, 4));
    assert Pack(y, 4) == Pack(y, 4) + [];
    ReadField(b, p + 4, y, 4, []);
  }

  lemma WriteTwo(b: bytes, p: nat)
    requires p + 8 <= |b|
    ensures Pack(Read(b, p, 4), 4) + Pack(Read(b, p + 4, 4), 4) == b[p..p + 8]
  {
    hide Bytes.Pack, Bytes.Unpack, Bytes.Read;
    WriteField(b, p, 4, p + 8);
    WriteField(b, p + 4, 4, p + 8);
  }

  lemma HeaderRewrite(b: bytes, code: u16, p: nat)
    requires IsContainerCode(code) && p + HeaderLength(code) <= |b| && ParseHeader(b, code, p).Ok?
    ensures var header := ParseHeader(b, code, p).value;
            && ProperHeader(header) && HeaderCode(header) == code
            && SaveHeader(header) == b[p..p + HeaderLength(code)]
  {
    hide Bytes.Pack, Bytes.Unpack, Bytes.Read, StrictNetwork;
    if code == OPTION_IAPREFIX {
      assert [b[p + 8]] + b[p + 9..p + 25] == b[p + 8..p + 25];
      WriteField(b, p + 4, 4, p + 25);
      WriteField(b, p, 4, p + 25);
    } else if code == OPTION_IAADDR {
      WriteTwo(b, p + 16);
      SplitAt(b, p, p + 16, p + 24);
    } else if code != OPTION_IA_TA {
      WriteTwo(b, p + 4);
      SplitAt(b, p, p + 4, p + 12);
    }
  }

  // ---- Parsing ------------------------------------------------------------------------

  /**
   `Option.parse` at `p`. It is given no length, so a sub-option is checked against the end of
   the whole buffer, not against the end of the option that contains it.
   */
  function ParseOption(b: bytes, p: nat): (r: Parsed<Option>)
    ensures r.Parsed? ==> p + 4 <= |b| && r.used == 4 + Read(b, p + 2, 2) && p + r.used <= |b|
    decreases if p < |b| then |b| - p else 0, 0
  {
    if p + 4 > |b| then Failed(StructError)
    else
      var code, len := Read(b, p, 2), Read(b, p + 2, 2);
      var q := p + 4;
      if IsContainerCode(code) then
        if len < HeaderLength(code) || q + len > |b| then Failed(ValueError)
        else
          match ParseHeader(b, code, q)
          case Err(e) => Failed(e)
          case Ok(header) =>
            match ParseOptions(b, q + HeaderLength(code), q + len)
            case Failed(e) => Failed(e)
            case Parsed(used, options) =>
              if used != len - HeaderLength(code) then Failed(ValueError)
              else Parsed(4 + len, Container(header, options))
      else if code == OPTION_RELAY_MSG then
        if len < 1 || q + len > |b| then Failed(ValueError)
        else
          match ParseMessage(b, q, len)
          case Failed(e) => Failed(e)
          case Parsed(used, message) =>
            if used != len then Failed(ValueError) else Parsed(4 + len, RelayMessage(message))
      else if LeafCode(code) then
        if !(LeafLimits(code).0 <= len <= LeafLimits(code).1) || q + len > |b| then Failed(ValueError)
        else
          match ParseLeaf(b, code, q, len)
          case Err(e) => Failed(e)
          case Ok(leaf) => Parsed(4 + len, Leaf(leaf))
      else if RegisteredCode(code) then Failed(UnmodelledClass)
      else if q + len > |b| then Failed(ValueError)
      else Parsed(4 + len, Leaf(Raw(code, b[q..q + len])))
  }

  /** The loop `while end > position`: options one after the other, the last of which may run past `end`. */
  function ParseOptions(b: bytes, p: nat, end: nat): (r: Parsed<seq<Option>>)
    ensures r.Parsed? && p <= end <= |b| ==> end <= p + r.used <= |b|
    ensures r.Parsed? && end <= p ==> r.used == 0
    decreases if p < |b| then |b| - p else 0, 1
  {
    if end <= p then Parsed(0, [])
    else
      match ParseOption(b, p)
      case Failed(e) => Failed(e)
      case Parsed(used, option) =>
        match ParseOptions(b, p + used, end)
        case Failed(e) => Failed(e)
        case Parsed(more, options) => Parsed(used + more, [option] + options)
  }

  /** One round of that loop. */
  lemma NextOption(b: bytes, p: nat, end: nat)
    ensures end <= p ==> ParseOptions(b, p, end) == Parsed(0, [])
    ensures p < end && ParseOption(b, p).Failed? ==> ParseOptions(b, p, end) == Failed(ParseOption(b, p).error)
    ensures p < end && ParseOption(b, p).Parsed? ==>
              var Parsed(used, option) := ParseOption(b, p);
              ParseOptions(b, p, end) ==
                match ParseOptions(b, p + used, end)
                case Failed(e) => Failed(e)
                case Parsed(more, rest) => Parsed(used + more, [option] + rest)
  {
    hide ParseOption;
  }

  /** The octets `load_from` may read: `length or (len(buffer) - offset)`, so a length of 0 means none was given. */
  function Limit(b: bytes, p: nat, length: nat): int {
    if length == 0 then |b| - p else length
  }

  /** `Message.parse(buffer, offset=p, length=length)`. */
  function ParseMessage(b: bytes, p: nat, length: nat): (r: Parsed<Message>)
    decreases if p < |b| then |b| - p else 0, 2
  {
    if p >= |b| then Failed(IndexError)
    else
      var kind := b[p];
      var end := p + Limit(b, p, length);
      if IsClientServerKind(kind) then
        match ParseOptions(b, p + 4, end)
        case Failed(e) => Failed(e)
        case Parsed(used, options) => Parsed(4 + used, ClientServer(kind, Slice(b, p + 1, p + 4), options))
      else if IsRelayKind(kind) then
        if p + 1 == |b| then Failed(IndexError)
        else if p + 34 > |b| then Failed(ValueError)
        else
          match ParseOptions(b, p + 34, end)
          case Failed(e) => Failed(e)
          case Parsed(used, options) =>
            Parsed(34 + used, Relay(kind, b[p + 1], b[p + 2..p + 18], b[p + 18..p + 34], options))
      else Parsed(end - p, UnknownMessage(kind, Slice(b, p + 1, end)))
  }

  // ---- Saving -------------------------------------------------------------------------

  /** The option-data of an option. */
  function OptionBody(option: Option): bytes
    decreases option, 0
  {
    match option
    case Leaf(leaf) => LeafBody(leaf)
    case Container(header, options) => SaveHeader(header) + SaveOptions(options)
    case RelayMessage(message) => SaveMessage(message)
  }

  function SaveOption(option: Option): bytes
    decreases option, 1
  {
    Pack(OptionCode(option), 2) + (Pack(|OptionBody(option)|, 2) + OptionBody(option))
  }

  function SaveOptions(options: seq<Option>): bytes
    decreases options, 2
  {
    if options == [] then [] else SaveOption(options[0]) + SaveOptions(options[1..])
  }

  function SaveMessage(message: Message): bytes
    decreases message, 3
  {
    match message
    case ClientServer(kind, transactionId, options) => [kind] + (transactionId + SaveOptions(options))
    case Relay(kind, hopCount, link, peer, options) => [kind, hopCount] + (link + (peer + SaveOptions(options)))
    case UnknownMessage(kind, data) => [kind] + data
  }

  /** Every length field inside can be packed in 16 bits: `save` does not raise. */
  predicate Encodable(option: Option)
    decreases option, 0
  {
    && |OptionBody(option)| < 0x1_0000
    && match option
       case Leaf(leaf) => EncodableLeaf(leaf)
       case Container(_, options) => forall o <- options :: Encodable(o)
       case RelayMessage(message) => EncodableMessage(message)
  }

  predicate EncodableMessage(message: Message)
    decreases message, 1
  {
    message.UnknownMessage? || forall o <- message.options :: Encodable(o)
  }

  /** Every code, kind and prefix inside fits the class that carries it. */
  predicate Proper(option: Option)
    decreases option, 0
  {
    match option
    case Leaf(leaf) => ProperLeaf(leaf)
    case Container(header, options) => ProperHeader(header) && forall o <- options :: Proper(o)
    case RelayMessage(message) => ProperMessage(message)
  }

  predicate ProperMessage(message: Message)
    decreases message, 1
  {
    match message
    case ClientServer(kind, transactionId, options) =>
      IsClientServerKind(kind) && |transactionId| == 3 && forall o <- options :: Proper(o)
    case Relay(kind, _, _, _, options) => IsRelayKind(kind) && forall o <- options :: Proper(o)
    case UnknownMessage(kind, _) => !IsClientServerKind(kind) && !IsRelayKind(kind)
  }
}
