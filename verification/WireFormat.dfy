/**
 The octets on the wire, written out: type and length fields, and every field at its place, as
 sections 6, 7, 9 and 22 of RFC 3315, sections 9 and 10 of RFC 3633, RFC 4649, RFC 4994 and section
 5.4.1 of RFC 5460 draw them. What the codec saves is this, and this is loaded again.
 */
module WireFormat {
  import opened Bytes
  import opened Arithmetic
  import opened Wire
  import opened LeafCodec
  import opened Codec
  import opened CodecRoundTrip

  // ---- Numbers ------------------------------------------------------------------------------------

  function Word(n: nat): bytes { [(n / 256 % 256) as byte, (n % 256) as byte] }

  function Long(n: u32): bytes {
    [(n / 0x100_0000) as byte, (n / 0x1_0000 % 256) as byte, (n / 256 % 256) as byte, (n % 256) as byte]
  }

  lemma PackIsWord(n: nat)
    ensures Pack(n, 2) == Word(n)
  {
    assert Pack(n / 256 / 256, 0) == [];
    assert Pack(n / 256, 1) == [(n / 256 % 256) as byte];
  }

  lemma PackIsLong(n: u32)
    ensures Pack(n, 4) == Long(n)
  {
    var h := n / 256 / 256;
    PackIsWord(h);
    assert Pack(n / 256, 3) == Word(h) + [(n / 256 % 256) as byte];
    assert Pack(n, 4) == Word(h) + [(n / 256 % 256) as byte] + [(n % 256) as byte];
    assert h == n / 0x1_0000 && h / 256 == n / 0x100_0000;
  }

  // ---- The formats ----------------------------------------------------------------------------------

  function DuidFormat(duid: Duid): bytes {
    match duid
    case LinkLayerTimeDuid(hardware, time, llAddress) => [0, 1] + Word(hardware) + Long(time) + llAddress
    case EnterpriseDuid(number, identifier) => [0, 2] + Long(number) + identifier
    case LinkLayerDuid(hardware, llAddress) => [0, 3] + Word(hardware) + llAddress
    case UnknownDuid(kind, data) => Word(kind) + data
  }

  function CodesFormat(codes: seq<u16>): bytes {
    if codes == [] then [] else Word(codes[0]) + CodesFormat(codes[1..])
  }

  function ClassesFormat(classes: seq<bytes>): bytes {
    if classes == [] then [] else Word(|classes[0]|) + classes[0] + ClassesFormat(classes[1..])
  }

  function VendorFormat(vs: seq<(u16, bytes)>): bytes {
    if vs == [] then [] else Word(vs[0].0) + Word(|vs[0].1|) + vs[0].1 + VendorFormat(vs[1..])
  }

  /** The option-code. */
  function CodeOf(option: Option): nat {
    match option
    case Leaf(Raw(code, _)) => code
    case Leaf(DuidOption(code, _)) => code
    case Leaf(CodeList(code, _)) => code
    case Leaf(Preference(_)) => 7
    case Leaf(ElapsedTime(_)) => 8
    case Leaf(Authentication(_, _, _, _, _)) => 11
    case Leaf(ServerUnicast(_)) => 12
    case Leaf(StatusCode(_, _)) => 13
    case Leaf(RapidCommit) => 14
    case Leaf(UserClass(_)) => 15
    case Leaf(VendorClass(_, _)) => 16
    case Leaf(VendorOptions(_, _)) => 17
    case Leaf(InterfaceId(_)) => 18
    case Leaf(ReconfigureMessage(_)) => 19
    case Leaf(ReconfigureAccept) => 20
    case Leaf(RemoteId(_, _)) => 37
    case Container(IaNa(_, _, _), _) => 3
    case Container(IaTa(_), _) => 4
    case Container(IaAddress(_, _, _), _) => 5
    case Container(IaPd(_, _, _), _) => 25
    case Container(IaPrefix(_, _, _, _), _) => 26
    case RelayMessage(_) => 9
  }

  function LeafFormat(leaf: Leaf): bytes {
    match leaf
    case Raw(_, data) => data
    case DuidOption(_, duid) => DuidFormat(duid)
    case CodeList(_, codes) => CodesFormat(codes)
    case Preference(preference) => [preference]
    case ElapsedTime(elapsed) => Word(elapsed)
    case Authentication(protocol, algorithm, rdm, replay, info) => [protocol] + [algorithm] + [rdm] + replay + info
    case ServerUnicast(server) => server
    case StatusCode(status, text) => Word(status) + text
    case RapidCommit => []
    case UserClass(classes) => ClassesFormat(classes)
    case VendorClass(number, classes) => Long(number) + ClassesFormat(classes)
    case VendorOptions(number, vs) => Long(number) + VendorFormat(vs)
    case InterfaceId(interfaceId) => interfaceId
    case ReconfigureMessage(msgType) => [msgType]
    case ReconfigureAccept => []
    case RemoteId(number, remoteId) => Long(number) + remoteId
  }

  function FixedFormat(header: Header): bytes {
    match header
    case IaNa(iaid, t1, t2) => iaid + Long(t1) + Long(t2)
    case IaTa(iaid) => iaid
    case IaAddress(address, preferred, valid) => address + Long(preferred) + Long(valid)
    case IaPd(iaid, t1, t2) => iaid + Long(t1) + Long(t2)
    case IaPrefix(preferred, valid, prefixLength, network) => Long(preferred) + Long(valid) + [prefixLength] + network
  }

  /** The option-data. */
  function DataOf(option: Option): bytes
    decreases option, 0
  {
    match option
    case Leaf(leaf) => LeafFormat(leaf)
    case Container(header, options) => FixedFormat(header) + OptionsFormat(options)
    case RelayMessage(message) => MessageFormat(message)
  }

  function OptionFormat(option: Option): bytes
    decreases option, 1
  {
    Word(CodeOf(option)) + Word(|DataOf(option)|) + DataOf(option)
  }

  function OptionsFormat(options: seq<Option>): bytes
    decreases options, 2
  {
    if options == [] then [] else OptionFormat(options[0]) + OptionsFormat(options[1..])
  }

  function MessageFormat(message: Message): bytes
    decreases message, 3
  {
    match message
    case ClientServer(kind, transactionId, options) => [kind] + transactionId + OptionsFormat(options)
    case Relay(kind, hopCount, link, peer, options) => [kind] + [hopCount] + link + peer + OptionsFormat(options)
    case UnknownMessage(kind, data) => [kind] + data
  }

  // ---- What is saved has this format ------------------------------------------------------------------

  lemma DuidIsFormat(duid: Duid)
    ensures SaveDuid(duid) == DuidFormat(duid)
  {
    hide Bytes.Pack;
    PackIsWord(1);
    PackIsWord(2);
    PackIsWord(3);
    match duid {
      case LinkLayerTimeDuid(hardware, time, _) => PackIsWord(hardware); PackIsLong(time);
      case EnterpriseDuid(number, _) => PackIsLong(number);
      case LinkLayerDuid(hardware, _) => PackIsWord(hardware);
      case UnknownDuid(kind, _) => PackIsWord(kind);
    }
  }

  lemma {:induction false} CodesAreFormat(codes: seq<u16>)
    ensures SaveCodes(codes) == CodesFormat(codes)
  {
    hide Bytes.Pack;
    if codes != [] {
      PackIsWord(codes[0]);
      CodesAreFormat(codes[1..]);
    }
  }

  lemma {:induction false} ClassesAreFormat(classes: seq<bytes>)
    ensures SaveClasses(classes) == ClassesFormat(classes)
  {
    hide Bytes.Pack;
    if classes != [] {
      PackIsWord(|classes[0]|);
      ClassesAreFormat(classes[1..]);
    }
  }

  lemma {:induction false} VendorIsFormat(vs: seq<(u16, bytes)>)
    ensures SaveVendorOptions(vs) == VendorFormat(vs)
  {
    hide Bytes.Pack;
    if vs != [] {
      PackIsWord(vs[0].0);
      PackIsWord(|vs[0].1|);
      VendorIsFormat(vs[1..]);
    }
  }

  lemma LeafIsFormat(leaf: Leaf)
    ensures LeafBody(leaf) == LeafFormat(leaf) && LeafOptionCode(leaf) == CodeOf(Leaf(leaf))
  {
    hide Bytes.Pack, SaveDuid, SaveCodes, SaveClasses, SaveVendorOptions;
    hide DuidFormat, CodesFormat, ClassesFormat, VendorFormat, Word, Long;
    match leaf {
      case DuidOption(_, duid) => DuidIsFormat(duid);
      case CodeList(_, codes) => CodesAreFormat(codes);
      case ElapsedTime(elapsed) => PackIsWord(elapsed);
      case StatusCode(status, _) => PackIsWord(status);
      case UserClass(classes) => ClassesAreFormat(classes);
      case VendorClass(number, classes) => PackIsLong(number); ClassesAreFormat(classes);
      case VendorOptions(number, vs) => PackIsLong(number); VendorIsFormat(vs);
      case RemoteId(number, _) => PackIsLong(number);
      case _ =>
    }
  }

  lemma HeaderIsFormat(header: Header)
    ensures SaveHeader(header) == FixedFormat(header) && HeaderCode(header) == CodeOf(Container(header, []))
  {
    hide Bytes.Pack, Long;
    match header {
      case IaNa(_, t1, t2) => PackIsLong(t1); PackIsLong(t2);
      case IaTa(_) =>
      case IaAddress(_, preferred, valid) => PackIsLong(preferred); PackIsLong(valid);
      case IaPd(_, t1, t2) => PackIsLong(t1); PackIsLong(t2);
      case IaPrefix(preferred, valid, _, _) => PackIsLong(preferred); PackIsLong(valid);
    }
  }

  lemma {:induction false} OptionIsFormat(option: Option)
    ensures SaveOption(option) == OptionFormat(option) && OptionBody(option) == DataOf(option)
    ensures OptionCode(option) == CodeOf(option)
    decreases option, 1
  {
    hide Bytes.Pack, Word, LeafBody, LeafFormat, SaveHeader, FixedFormat, SaveOptions, OptionsFormat;
    hide SaveMessage, MessageFormat;
    match option {
      case Leaf(leaf) => LeafIsFormat(leaf);
      case Container(header, options) => HeaderIsFormat(header); OptionsAreFormat(options);
      case RelayMessage(message) => MessageIsFormat(message);
    }
    PackIsWord(CodeOf(option));
    PackIsWord(|DataOf(option)|);
  }

  lemma {:induction false} OptionsAreFormat(options: seq<Option>)
    ensures SaveOptions(options) == OptionsFormat(options)
    decreases options, 2
  {
    hide SaveOption, OptionFormat;
    if options != [] {
      OptionIsFormat(options[0]);
      OptionsAreFormat(options[1..]);
    }
  }

  /** Whatever is saved has the format of the standards, field by field. */
  lemma {:induction false} MessageIsFormat(message: Message)
    ensures SaveMessage(message) == MessageFormat(message)
    decreases message, 3
  {
    hide SaveOptions, OptionsFormat;
    if !message.UnknownMessage? {
      OptionsAreFormat(message.options);
    }
  }

  // ---- Which values there are ---------------------------------------------------------------------------

  /** The option codes with a class of their own. */
  predicate TakenCode(code: int) {
    || code == 1 || code == 2 || code == 3 || code == 4 || code == 5 || code == 6 || code == 7 || code == 8
    || code == 9 || code == 11 || code == 12 || code == 13 || code == 14 || code == 15 || code == 16 || code == 17
    || code == 18 || code == 19 || code == 20 || code == 21 || code == 22 || code == 23 || code == 24 || code == 25
    || code == 26 || code == 31 || code == 37 || code == 38 || code == 39 || code == 41 || code == 42 || code == 43
    || code == 44 || code == 45 || code == 46 || code == 47 || code == 48 || code == 53 || code == 56 || code == 64
    || code == 67 || code == 79 || code == 82 || code == 83 || code == 89 || code == 90 || code == 91 || code == 92
    || code == 93 || code == 94 || code == 95 || code == 96
  }

  /** The message types between a client and a server, and those of relay agents. */
  const CLIENT_SERVER_KINDS: set<int> := {1, 2, 3, 4, 5, 6, 7, 8, 9, 10, 11, 14, 15, 16, 17}
  const RELAY_KINDS: set<int> := {12, 13}

  predicate StandardLeaf(leaf: Leaf) {
    match leaf
    case Raw(code, _) => !TakenCode(code)
    case DuidOption(code, duid) =>
      (code == 1 || code == 2 || code == 53)
      && (duid.UnknownDuid? ==> duid.kind != 1 && duid.kind != 2 && duid.kind != 3)
    case CodeList(code, _) => code == 6 || code == 43
    case _ => true
  }

  /** An IPv6 prefix: no bit is set behind its length. */
  predicate StandardPrefix(header: Header) {
    header.IaPrefix? ==>
        header.prefixLength <= 128 && Unpack(header.network) % TwoTo(128 - header.prefixLength as nat) == 0
  }

  predicate Standard(option: Option)
    decreases option, 0
  {
    match option
    case Leaf(leaf) => StandardLeaf(leaf)
    case Container(header, options) => StandardPrefix(header) && forall o <- options :: Standard(o)
    case RelayMessage(message) => StandardMessage(message)
  }

  predicate StandardMessage(message: Message)
    decreases message, 1
  {
    match message
    case ClientServer(kind, transactionId, options) =>
      kind as int in CLIENT_SERVER_KINDS && |transactionId| == 3 && forall o <- options :: Standard(o)
    case Relay(kind, _, _, _, options) => kind as int in RELAY_KINDS && forall o <- options :: Standard(o)
    case UnknownMessage(kind, _) => kind as int !in CLIENT_SERVER_KINDS && kind as int !in RELAY_KINDS
  }

  lemma TakenIsRegistered(code: int)
    ensures TakenCode(code) <==> RegisteredCode(code)
  {
  }

  lemma RawIsStandard(leaf: Leaf)
    requires leaf.Raw?
    ensures ProperLeaf(leaf) <==> StandardLeaf(leaf)
  {
    TakenIsRegistered(leaf.code);
  }

  lemma DuidIsStandard(leaf: Leaf)
    requires leaf.DuidOption?
    ensures ProperLeaf(leaf) <==> StandardLeaf(leaf)
  {
  }

  lemma OtherIsStandard(leaf: Leaf)
    requires !leaf.Raw? && !leaf.DuidOption?
    ensures ProperLeaf(leaf) <==> StandardLeaf(leaf)
  {
  }

  lemma LeafIsStandard(leaf: Leaf)
    ensures ProperLeaf(leaf) <==> StandardLeaf(leaf)
  {
    hide ProperLeaf, StandardLeaf;
    if leaf.Raw? {
      RawIsStandard(leaf);
    } else if leaf.DuidOption? {
      DuidIsStandard(leaf);
    } else {
      OtherIsStandard(leaf);
    }
  }

  lemma WholeOctet(u: nat, x: nat, low: nat)
    requires x < 256 && low >= 8
    ensures (u * 256 + x) % TwoTo(low) == 0 <==> x == 0 && u % TwoTo(low - 8) == 0
  {
    PowersOfTwo();
    TwoToProduct(8, low - 8);
    hide TwoTo;
    MultipleWithDigit(u, x, 256, TwoTo(low - 8));
  }

  lemma PartOctet(u: nat, x: nat, low: nat)
    requires low <= 8
    ensures (u * 256 + x) % TwoTo(low) == 0 <==> x % TwoTo(low) == 0
  {
    PowersOfTwo();
    TwoToProduct(low, 8 - low);
    hide TwoTo;
    Regroup(TwoTo(low), TwoTo(8 - low), u);
    ModOfBlocks(TwoTo(low), TwoTo(8 - low) * u, x);
  }

  lemma Regroup(m: nat, q: nat, u: nat)
    ensures m * (q * u) == (m * q) * u == u * (m * q)
  {
  }

  /** Bits are zero from `n` on just if the number is a multiple of the block that `n` bits leave. */
  lemma {:induction false} ZeroBeyondIsMultiple(s: bytes, n: nat)
    requires n <= 8 * |s|
    ensures ZeroBeyond(s, n) <==> Unpack(s) % TwoTo(8 * |s| - n) == 0
  {
    var low := 8 * |s| - n;
    if s != [] {
      var before, x := s[..|s| - 1], s[|s| - 1] as nat;
      assert Unpack(s) == Unpack(before) * 256 + x;
      hide TwoTo, ZeroBeyond, Unpack;
      LastOctetDecides(s, n);
      if low >= 8 {
        ZeroBeyondIsMultiple(before, n);
        WholeOctet(Unpack(before), x, low);
      } else {
        PowersOfTwo();
        PartOctet(Unpack(before), x, low);
        assert n - 8 * (|s| - 1) == 8 - low;
      }
    }
  }

  lemma LastOctetDecides(s: bytes, n: nat)
    requires s != [] && n <= 8 * |s|
    ensures var x, keep := s[|s| - 1], n - 8 * (|s| - 1);
            ZeroBeyond(s, n) <==>
              if keep <= 0 then x == 0 && ZeroBeyond(s[..|s| - 1], n) else keep < 8 ==> x as int % TwoTo(8 - keep) == 0
  {
    hide TwoTo;
    var last, before := |s| - 1, s[..|s| - 1];
    assert forall i: nat | i < last :: before[i] == s[i];
    if ZeroBeyond(s, n) {
      assert var keep := n - 8 * last;
             if keep <= 0 then s[last] == 0 else keep < 8 ==> s[last] as int % TwoTo(8 - keep) == 0;
    }
  }

  lemma PrefixIsStandard(header: Header)
    ensures ProperHeader(header) <==> StandardPrefix(header)
  {
    hide TwoTo, ZeroBeyond;
    if header.IaPrefix? && header.prefixLength <= 128 {
      ZeroBeyondIsMultiple(header.network, header.prefixLength as nat);
    }
  }

  /** The values that the codec calls proper are those of the standards. */
  lemma {:induction false} OptionIsStandard(option: Option)
    ensures Proper(option) <==> Standard(option)
    decreases option, 1
  {
    match option {
      case Leaf(leaf) => LeafIsStandard(leaf);
      case Container(header, options) =>
        PrefixIsStandard(header);
        forall o | o in options ensures Proper(o) <==> Standard(o) {
          OptionIsStandard(o);
        }
      case RelayMessage(message) => MessageIsStandard(message);
    }
  }

  lemma {:induction false} MessageIsStandard(message: Message)
    ensures ProperMessage(message) <==> StandardMessage(message)
    decreases message, 2
  {
    if !message.UnknownMessage? {
      forall o | o in message.options ensures Proper(o) <==> Standard(o) {
        OptionIsStandard(o);
      }
    }
  }

  // ---- Sizes ------------------------------------------------------------------------------------------------

  /** All length fields can be written. */
  predicate Sized(option: Option)
    decreases option, 0
  {
    && |DataOf(option)| <= 65535
    && match option
       case Leaf(UserClass(classes)) => forall c <- classes :: |c| <= 65535
       case Leaf(VendorClass(_, classes)) => forall c <- classes :: |c| <= 65535
       case Leaf(VendorOptions(_, vs)) => forall v <- vs :: |v.1| <= 65535
       case Leaf(_) => true
       case Container(_, options) => forall o <- options :: Sized(o)
       case RelayMessage(message) => SizedMessage(message)
  }

  predicate SizedMessage(message: Message)
    decreases message, 1
  {
    message.UnknownMessage? || forall o <- message.options :: Sized(o)
  }

  lemma {:induction false} SizedIsEncodable(option: Option)
    ensures Encodable(option) <==> Sized(option)
    decreases option, 1
  {
    hide OptionBody, DataOf, LeafBody;
    OptionIsFormat(option);
    match option {
      case Leaf(leaf) => LeafIsFormat(leaf); BodyOfLeaf(leaf);
      case Container(_, options) =>
        forall o | o in options ensures Encodable(o) <==> Sized(o) {
          SizedIsEncodable(o);
        }
      case RelayMessage(message) => SizedIsEncodableMessage(message);
    }
  }

  lemma BodyOfLeaf(leaf: Leaf)
    ensures OptionBody(Leaf(leaf)) == LeafBody(leaf)
  {
  }

  lemma {:induction false} SizedIsEncodableMessage(message: Message)
    ensures EncodableMessage(message) <==> SizedMessage(message)
    decreases message, 2
  {
    if !message.UnknownMessage? {
      forall o | o in message.options ensures Encodable(o) <==> Sized(o) {
        SizedIsEncodable(o);
      }
    }
  }

  // ---- Loading the format -----------------------------------------------------------------------------------

  /** An option drawn as the standards draw it is loaded as just that option, with anything behind it. */
  lemma OptionIsLoaded(option: Option, tail: bytes)
    requires Standard(option) && Sized(option)
    ensures ParseOption(OptionFormat(option) + tail, 0) == Parsed(|OptionFormat(option)|, option)
  {
    hide Bytes.At, SaveOption, OptionFormat, ParseOption, Proper, Encodable, Standard, Sized;
    OptionIsFormat(option);
    OptionIsStandard(option);
    SizedIsEncodable(option);
    AtFront(OptionFormat(option), tail);
    OptionRoundTrip(option, OptionFormat(option) + tail, 0);
  }

  lemma AtFront(s: bytes, tail: bytes)
    ensures At(s + tail, 0, s) && s + [] == s
  {
  }

  /** A message drawn as the standards draw it is loaded as just that message. */
  lemma MessageIsLoaded(message: Message)
    requires StandardMessage(message) && SizedMessage(message)
    ensures ParseMessage(MessageFormat(message), 0, 0) == Parsed(|MessageFormat(message)|, message)
  {
    hide Bytes.At, SaveMessage, MessageFormat, ParseMessage;
    hide ProperMessage, EncodableMessage, StandardMessage, SizedMessage;
    MessageIsFormat(message);
    MessageIsStandard(message);
    SizedIsEncodableMessage(message);
    SavedMessageComesBackIffProper(message);
  }

  /** What is loaded in full is a message of the standards. */
  lemma LoadedIsStandard(b: bytes)
    requires ParseMessage(b, 0, 0).Parsed? && ParseMessage(b, 0, 0).used == |b|
    ensures StandardMessage(ParseMessage(b, 0, 0).value)
    ensures MessageFits(b, 0, |b|) ==> b == MessageFormat(ParseMessage(b, 0, 0).value)
  {
    hide ParseMessage, SaveMessage, MessageFormat, ProperMessage, EncodableMessage, StandardMessage, MessageFits;
    var message := ParseMessage(b, 0, 0).value;
    MessageRewrite(b, 0, 0);
    MessageIsStandard(message);
    MessageIsFormat(message);
    ParsedBufferComesBackIffItFits(b);
  }

  /** Messages without options: a type octet and a transaction id, or a type octet, hop count and two addresses. */
  lemma BareMessages(kind: byte, transactionId: bytes, hopCount: byte, link: Address, peer: Address, data: bytes)
    requires |transactionId| == 3
    ensures kind in {1, 2, 3, 4, 5, 6, 7, 8, 9, 10, 11, 14, 15, 16, 17} ==>
              ParseMessage([kind] + transactionId, 0, 0) == Parsed(4, ClientServer(kind, transactionId, []))
    ensures kind in {12, 13} ==>
              ParseMessage([kind] + [hopCount] + link + peer, 0, 0) == Parsed(34, Relay(kind, hopCount, link, peer, []))
    ensures kind == 0 || kind > 17 ==>
              ParseMessage([kind] + data, 0, 0) == Parsed(1 + |data|, UnknownMessage(kind, data))
  {
    hide ParseMessage;
    var client, relay := ClientServer(kind, transactionId, []), Relay(kind, hopCount, link, peer, []);
    assert [kind] + transactionId + [] == [kind] + transactionId;
    assert [kind] + [hopCount] + link + peer + [] == [kind] + [hopCount] + link + peer;
    if StandardMessage(client) {
      MessageIsLoaded(client);
    }
    if StandardMessage(relay) {
      MessageIsLoaded(relay);
    }
    if StandardMessage(UnknownMessage(kind, data)) {
      MessageIsLoaded(UnknownMessage(kind, data));
    }
  }
}
