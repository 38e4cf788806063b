/**
 The codec of DUIDs and of options without sub-options: what `load_from` reads from a
 buffer, what `save` writes, and how the two undo each other.
 */
module LeafCodec {
  import opened Bytes
  import opened Wire

  /** Why a `load_from` raised: `struct.error`, `IndexError`, `ValueError`, or a class outside this model. */
  datatype ParseError = StructError | IndexError | ValueError | UnmodelledClass

  datatype Result<+T> = Ok(value: T) | Err(error: ParseError)

  // ---- DUIDs ------------------------------------------------------------------------

  function SaveDuid(duid: Duid): bytes {
    match duid
    case LinkLayerTimeDuid(hardware, time, ll) => Pack(DUID_LLT, 2) + (Pack(hardware, 2) + (Pack(time, 4) + ll))
    case EnterpriseDuid(number, identifier) => Pack(DUID_EN, 2) + (Pack(number, 4) + identifier)
    case LinkLayerDuid(hardware, ll) => Pack(DUID_LL, 2) + (Pack(hardware, 2) + ll)
    case UnknownDuid(kind, data) => Pack(kind, 2) + data
  }

  /**
   `DUID.parse` with an explicit length. A DUID shorter than its fixed fields still
   "succeeds" by reading them from whatever follows it in the buffer.
   */
  function ParseDuid(b: bytes, p: nat, len: nat): Result<Duid> {
    if p + 2 > |b| then Err(StructError)
    else if len == 0 then Err(ValueError)
    else
      var kind := Read(b, p, 2);
      if p + DuidFixed(kind) > |b| then Err(StructError)
      else
        var tail := Slice(b, p + DuidFixed(kind), p + len);
        if kind == DUID_LLT then Ok(LinkLayerTimeDuid(Read(b, p + 2, 2), Read(b, p + 4, 4), tail))
        else if kind == DUID_EN then Ok(EnterpriseDuid(Read(b, p + 2, 4), tail))
        else if kind == DUID_LL then Ok(LinkLayerDuid(Read(b, p + 2, 2), tail))
        else Ok(UnknownDuid(kind, tail))
  }

  /** An unknown DUID must not carry a type that has a class of its own. */
  predicate ProperDuid(duid: Duid) {
    duid.UnknownDuid? ==> !RegisteredDuid(duid.kind)
  }

  lemma SaveDuidLength(duid: Duid)
    ensures |SaveDuid(duid)| >= 2
  {
  }

  lemma DuidRoundTrip(duid: Duid, b: bytes, p: nat)
    requires ProperDuid(duid) && At(b, p, SaveDuid(duid))
    ensures ParseDuid(b, p, |SaveDuid(duid)|) == Ok(duid)
  {
    hide Bytes.Pack, Bytes.Unpack, Bytes.Read, Bytes.At, Bytes.Slice;
    SliceAt(b, p, SaveDuid(duid));
    match duid {
      case LinkLayerTimeDuid(hardware, time, ll) =>
        ReadField(b, p, DUID_LLT, 2, Pack(hardware, 2) + (Pack(time, 4) + ll));
        ReadField(b, p + 2, hardware, 2, Pack(time, 4) + ll);
        ReadField(b, p + 4, time, 4, ll);
        SliceAt(b, p + 8, ll);
      case EnterpriseDuid(number, identifier) =>
        ReadField(b, p, DUID_EN, 2, Pack(number, 4) + identifier);
        ReadField(b, p + 2, number, 4, identifier);
        SliceAt(b, p + 6, identifier);
      case LinkLayerDuid(hardware, ll) =>
        ReadField(b, p, DUID_LL, 2, Pack(hardware, 2) + ll);
        ReadField(b, p + 2, hardware, 2, ll);
        SliceAt(b, p + 4, ll);
      case UnknownDuid(kind, data) =>
        ReadField(b, p, kind, 2, data);
        SliceAt(b, p + 2, data);
    }
  }

  /** What a parsed DUID saves to: its fixed fields, then the part of its `len` octets behind them. */
  lemma DuidSaved(b: bytes, p: nat, len: nat)
    requires 2 <= len && p + len <= |b| && ParseDuid(b, p, len).Ok?
    ensures var duid, fixed := ParseDuid(b, p, len).value, DuidFixed(Read(b, p, 2));
            && ProperDuid(duid) && p + fixed <= |b|
            && SaveDuid(duid) == b[p..p + fixed] + Slice(b, p + fixed, p + len)
  {
    hide Bytes.Pack, Bytes.Unpack, Bytes.Read, Bytes.Slice;
    var kind := Read(b, p, 2);
    var end := p + DuidFixed(kind);
    var tail := Slice(b, end, p + len);
    assert tail == b[end..end] + tail;
    WriteFieldBefore(b, p, 2, end, tail);
    if kind == DUID_LLT {
      TimeDuidFields(b, p, tail);
    } else if kind == DUID_EN {
      WriteFieldBefore(b, p + 2, 4, end, tail);
    } else if kind == DUID_LL {
      WriteFieldBefore(b, p + 2, 2, end, tail);
    }
  }

  lemma TimeDuidFields(b: bytes, p: nat, tail: bytes)
    requires p + 8 <= |b|
    ensures Pack(Read(b, p + 2, 2), 2) + (Pack(Read(b, p + 4, 4), 4) + tail) == b[p + 2..p + 8] + tail
  {
    hide Bytes.Pack, Bytes.Unpack, Bytes.Read;
    assert tail == b[p + 8..p + 8] + tail;
    WriteFieldBefore(b, p + 4, 4, p + 8, tail);
    WriteFieldBefore(b, p + 2, 2, p + 8, tail);
  }

  /** A parsed DUID saves to the octets it came from exactly when it was long enough for its fixed fields. */
  lemma DuidRewrite(b: bytes, p: nat, len: nat)
    requires 2 <= len && p + len <= |b| && ParseDuid(b, p, len).Ok?
    ensures var duid := ParseDuid(b, p, len).value;
            ProperDuid(duid) && Resaved(SaveDuid(duid), b, p, len, DuidFixed(Read(b, p, 2)) <= len)
  {
    hide Bytes.Pack, Bytes.Unpack, Bytes.Read, SaveDuid, ParseDuid;
    DuidSaved(b, p, len);
    var fixed := DuidFixed(Read(b, p, 2));
    if fixed <= len {
      SplitAt(b, p, p + fixed, p + len);
    }
  }

  // ---- Lists inside leaf options ----------------------------------------------------

  function SaveCodes(codes: seq<u16>): (s: bytes)
    ensures |s| == 2 * |codes|
  {
    if codes == [] then [] else Pack(codes[0], 2) + SaveCodes(codes[1..])
  }

  function ParseCodes(b: bytes, p: nat, n: nat): (codes: seq<u16>)
    requires p + 2 * n <= |b|
    ensures |codes| == n
    decreases n
  {
    if n == 0 then [] else [Read(b, p, 2)] + ParseCodes(b, p + 2, n - 1)
  }

  lemma {:induction false} CodesRoundTrip(codes: seq<u16>, b: bytes, p: nat)
    requires At(b, p, SaveCodes(codes))
    ensures ParseCodes(b, p, |codes|) == codes
  {
    hide Bytes.Pack, Bytes.Unpack, Bytes.Read, Bytes.At;
    if codes == [] {
    } else {
      ReadField(b, p, codes[0], 2, SaveCodes(codes[1..]));
      CodesRoundTrip(codes[1..], b, p + 2);
    }
  }

  lemma {:induction false} CodesRewrite(b: bytes, p: nat, n: nat)
    requires p + 2 * n <= |b|
    ensures SaveCodes(ParseCodes(b, p, n)) == b[p..p + 2 * n]
    decreases n
  {
    hide Bytes.Pack, Bytes.Unpack, Bytes.Read;
    if n == 0 {
    } else {
      CodesRewrite(b, p + 2, n - 1);
      WriteField(b, p, 2, p + 2 * n);
    }
  }

  function SaveClasses(classes: seq<bytes>): bytes {
    if classes == [] then [] else Pack(|classes[0]|, 2) + (classes[0] + SaveClasses(classes[1..]))
  }

  /** The `while max_offset > my_offset` loop over length-prefixed strings, and the equality test after it. */
  function ParseClasses(b: bytes, p: nat, end: nat): Result<seq<bytes>>
    decreases if p < end then end - p else 0
  {
    if end <= p then if p == end then Ok([]) else Err(ValueError)
    else if p + 2 > |b| then Err(StructError)
    else
      var n := Read(b, p, 2);
      match ParseClasses(b, p + 2 + n, end)
      case Err(e) => Err(e)
      case Ok(rest) => Ok([Slice(b, p + 2, p + 2 + n)] + rest)
  }

  predicate ShortClasses(classes: seq<bytes>) {
    forall c <- classes :: |c| < 0x1_0000
  }

  lemma {:induction false} ClassesRoundTrip(classes: seq<bytes>, b: bytes, p: nat)
    requires ShortClasses(classes) && At(b, p, SaveClasses(classes))
    ensures ParseClasses(b, p, p + |SaveClasses(classes)|) == Ok(classes)
    decreases |classes|
  {
    hide Bytes.At, Bytes.Pack, Bytes.Unpack, Bytes.Read;
    if classes == [] {
    } else {
      var c := classes[0];
      ReadField(b, p, |c|, 2, c + SaveClasses(classes[1..]));
      AtSplit(b, p + 2, c, SaveClasses(classes[1..]));
      SliceAt(b, p + 2, c);
      ClassesRoundTrip(classes[1..], b, p + 2 + |c|);
      assert classes == [c] + classes[1..];
    }
  }

  lemma {:induction false} ClassesRewrite(b: bytes, p: nat, end: nat)
    requires p <= end <= |b| && ParseClasses(b, p, end).Ok?
    ensures ShortClasses(ParseClasses(b, p, end).value)
    ensures SaveClasses(ParseClasses(b, p, end).value) == b[p..end]
    decreases end - p
  {
    hide Bytes.Pack, Bytes.Unpack, Bytes.Read;
    if p == end {
    } else {
      var n := Read(b, p, 2);
      assert p + 2 + n <= end;
      ClassesRewrite(b, p + 2 + n, end);
      SplitAt(b, p + 2, p + 2 + n, end);
      WriteField(b, p, 2, end);
    }
  }

  function SaveVendorOptions(vendorOptions: seq<(u16, bytes)>): bytes {
    if vendorOptions == [] then []
    else
      var (code, data) := vendorOptions[0];
      Pack(code, 2) + (Pack(|data|, 2) + (data + SaveVendorOptions(vendorOptions[1..])))
  }

  function ParseVendorOptions(b: bytes, p: nat, end: nat): Result<seq<(u16, bytes)>>
    decreases if p < end then end - p else 0
  {
    if end <= p then if p == end then Ok([]) else Err(ValueError)
    else if p + 4 > |b| then Err(StructError)
    else
      var n := Read(b, p + 2, 2);
      match ParseVendorOptions(b, p + 4 + n, end)
      case Err(e) => Err(e)
      case Ok(rest) => Ok([(Read(b, p, 2), Slice(b, p + 4, p + 4 + n))] + rest)
  }

  predicate ShortVendorOptions(vendorOptions: seq<(u16, bytes)>) {
    forall v <- vendorOptions :: |v.1| < 0x1_0000
  }

  lemma {:induction false} VendorOptionsRoundTrip(vs: seq<(u16, bytes)>, b: bytes, p: nat)
    requires ShortVendorOptions(vs) && At(b, p, SaveVendorOptions(vs))
    ensures ParseVendorOptions(b, p, p + |SaveVendorOptions(vs)|) == Ok(vs)
    decreases |vs|
  {
    hide Bytes.At, Bytes.Pack, Bytes.Unpack, Bytes.Read;
    if vs == [] {
    } else {
      var (code, data) := vs[0];
      var rest := SaveVendorOptions(vs[1..]);
      ReadField(b, p, code, 2, Pack(|data|, 2) + (data + rest));
      ReadField(b, p + 2, |data|, 2, data + rest);
      AtSplit(b, p + 4, data, rest);
      SliceAt(b, p + 4, data);
      VendorOptionsRoundTrip(vs[1..], b, p + 4 + |data|);
      assert vs == [(code, data)] + vs[1..];
    }
  }

  lemma {:induction false} VendorOptionsRewrite(b: bytes, p: nat, end: nat)
    requires p <= end <= |b| && ParseVendorOptions(b, p, end).Ok?
    ensures ShortVendorOptions(ParseVendorOptions(b, p, end).value)
    ensures SaveVendorOptions(ParseVendorOptions(b, p, end).value) == b[p..end]
    decreases end - p
  {
    hide Bytes.Pack, Bytes.Unpack, Bytes.Read;
    if p == end {
    } else {
      var n := Read(b, p + 2, 2);
      assert p + 4 + n <= end;
      VendorOptionsRewrite(b, p + 4 + n, end);
      SplitAt(b, p + 4, p + 4 + n, end);
      WriteField(b, p + 2, 2, end);
      WriteField(b, p, 2, end);
    }
  }

  // ---- Leaf options -----------------------------------------------------------------

  /** The option-len bounds a leaf class passes to `parse_option_header`. */
  function LeafLimits(code: int): (nat, nat) {
    if IsDuidCode(code) then (2, 0xffff)
    else if code == OPTION_PREFERENCE || code == OPTION_RECONF_MSG then (1, 1)
    else if code == OPTION_ELAPSED_TIME then (2, 2)
    else if code == OPTION_AUTH then (11, 0xffff)
    else if code == OPTION_UNICAST then (16, 16)
    else if code == OPTION_STATUS_CODE then (2, 0xffff)
    else if code == OPTION_RAPID_COMMIT || code == OPTION_RECONF_ACCEPT then (0, 0)
    else if code == OPTION_VENDOR_CLASS || code == OPTION_VENDOR_OPTS then (4, 0xffff)
    else (0, 0xffff)
  }

  /** The option-data of a leaf option. */
  function LeafBody(leaf: Leaf): bytes {
    match leaf
    case Raw(_, data) => data
    case DuidOption(_, duid) => SaveDuid(duid)
    case CodeList(_, codes) => SaveCodes(codes)
    case Preference(preference) => [preference]
    case ElapsedTime(elapsed) => Pack(elapsed, 2)
    case Authentication(protocol, algorithm, rdm, replay, info) => [protocol, algorithm, rdm] + (replay + info)
    case ServerUnicast(server) => server
    case StatusCode(status, text) => Pack(status, 2) + text
    case RapidCommit => []
    case UserClass(classes) => SaveClasses(classes)
    case VendorClass(number, classes) => Pack(number, 4) + SaveClasses(classes)
    case VendorOptions(number, vs) => Pack(number, 4) + SaveVendorOptions(vs)
    case InterfaceId(interfaceId) => interfaceId
    case ReconfigureMessage(msgType) => [msgType]
    case ReconfigureAccept => []
    case RemoteId(number, remoteId) => Pack(number, 4) + remoteId
  }

  /** `load_from` of a leaf class after the option header: `p` is where option-data starts, `len` its length. */
  function ParseLeaf(b: bytes, code: u16, p: nat, len: nat): Result<Leaf>
    requires p + len <= |b|
    requires LeafCode(code) && LeafLimits(code).0 <= len <= LeafLimits(code).1
  {
    if IsDuidCode(code) then
      match ParseDuid(b, p, len) case Ok(duid) => Ok(DuidOption(code, duid)) case Err(e) => Err(e)
    else if IsCodeListCode(code) then
      if len % 2 != 0 then Err(ValueError) else Ok(CodeList(code, ParseCodes(b, p, len / 2)))
    else if code == OPTION_PREFERENCE then Ok(Preference(b[p]))
    else if code == OPTION_ELAPSED_TIME then Ok(ElapsedTime(Read(b, p, 2)))
    else if code == OPTION_AUTH then Ok(Authentication(b[p], b[p + 1], b[p + 2], b[p + 3..p + 11], b[p + 11..p + len]))
    else if code == OPTION_UNICAST then Ok(ServerUnicast(b[p..p + 16]))
    else if code == OPTION_STATUS_CODE then Ok(StatusCode(Read(b, p, 2), b[p + 2..p + len]))
    else if code == OPTION_RAPID_COMMIT then Ok(RapidCommit)
    else if code == OPTION_USER_CLASS then
      match ParseClasses(b, p, p + len) case Ok(classes) => Ok(UserClass(classes)) case Err(e) => Err(e)
    else if code == OPTION_VENDOR_CLASS then
      match ParseClasses(b, p + 4, p + len)
      case Ok(classes) => Ok(VendorClass(Read(b, p, 4), classes))
      case Err(e) => Err(e)
    else if code == OPTION_VENDOR_OPTS then
      match ParseVendorOptions(b, p + 4, p + len)
      case Ok(vs) => Ok(VendorOptions(Read(b, p, 4), vs))
      case Err(e) => Err(e)
    else if code == OPTION_INTERFACE_ID then Ok(InterfaceId(b[p..p + len]))
    else if code == OPTION_RECONF_MSG then Ok(ReconfigureMessage(b[p]))
    else if code == OPTION_RECONF_ACCEPT then Ok(ReconfigureAccept)
    else if p + 4 > |b| then Err(StructError)
    else Ok(RemoteId(Read(b, p, 4), Slice(b, p + 4, p + len)))
  }

  /** Inner length fields that `struct.pack('!H', …)` can hold. */
  predicate EncodableLeaf(leaf: Leaf) {
    && |LeafBody(leaf)| < 0x1_0000
    && (leaf.UserClass? || leaf.VendorClass? ==> ShortClasses(leaf.classes))
    && (leaf.VendorOptions? ==> ShortVendorOptions(leaf.vendorOptions))
  }

  /** The code belongs to the class that carries it. */
  predicate ProperLeaf(leaf: Leaf) {
    match leaf
    case Raw(code, _) => !RegisteredCode(code)
    case DuidOption(code, duid) => IsDuidCode(code) && ProperDuid(duid)
    case CodeList(code, _) => IsCodeListCode(code)
    case _ => true
  }

  /** `ParseLeaf` on the saved option-data of `leaf` gives `leaf` back. */
  ghost predicate Reparsed(leaf: Leaf, b: bytes, p: nat) {
    var (code, len) := (LeafOptionCode(leaf), |LeafBody(leaf)|);
    && LeafCode(code) && LeafLimits(code).0 <= len <= LeafLimits(code).1 && p + len <= |b|
    && ParseLeaf(b, code, p, len) == Ok(leaf)
  }

  lemma ListLeafRoundTrip(leaf: Leaf, b: bytes, p: nat)
    requires leaf.CodeList? || leaf.UserClass? || leaf.VendorClass? || leaf.VendorOptions?
    requires ProperLeaf(leaf) && EncodableLeaf(leaf) && At(b, p, LeafBody(leaf))
    ensures Reparsed(leaf, b, p)
  {
    hide Bytes.Pack, Bytes.Unpack, Bytes.Read, Bytes.At, Bytes.Slice, SaveDuid, ParseDuid, SaveCodes, ParseCodes;
    hide SaveClasses, ParseClasses, SaveVendorOptions, ParseVendorOptions, ShortClasses, ShortVendorOptions, ProperDuid;
    SliceAt(b, p, LeafBody(leaf));
    match leaf {
      case CodeList(_, codes) => CodesRoundTrip(codes, b, p);
      case UserClass(classes) => ClassesRoundTrip(classes, b, p);
      case VendorClass(number, classes) =>
        ReadField(b, p, number, 4, SaveClasses(classes));
        ClassesRoundTrip(classes, b, p + 4);
      case VendorOptions(number, vs) =>
        ReadField(b, p, number, 4, SaveVendorOptions(vs));
        VendorOptionsRoundTrip(vs, b, p + 4);
    }
  }

  lemma AuthenticationRoundTrip(leaf: Leaf, b: bytes, p: nat)
    requires leaf.Authentication? && EncodableLeaf(leaf) && At(b, p, LeafBody(leaf))
    ensures Reparsed(leaf, b, p)
  {
    hide Bytes.At, Bytes.Slice, Bytes.Read, Bytes.Pack, Bytes.Unpack;
    var fixed := [leaf.protocol, leaf.algorithm, leaf.rdm];
    AtSplit(b, p, fixed, leaf.replay + leaf.info);
    AtSplit(b, p + 3, leaf.replay, leaf.info);
    SliceAt(b, p, fixed);
    assert b[p] == fixed[0] && b[p + 1] == fixed[1] && b[p + 2] == fixed[2];
    SliceAt(b, p + 3, leaf.replay);
    SliceAt(b, p + 11, leaf.info);
  }

  /** Options that start with a word. */
  lemma WordLeafRoundTrip(leaf: Leaf, b: bytes, p: nat)
    requires leaf.ElapsedTime? || leaf.StatusCode? || leaf.RemoteId?
    requires EncodableLeaf(leaf) && At(b, p, LeafBody(leaf))
    ensures Reparsed(leaf, b, p)
  {
    hide Bytes.Pack, Bytes.Unpack, Bytes.Read, Bytes.At, Bytes.Slice, SaveDuid, ParseDuid, SaveCodes, ParseCodes;
    hide SaveClasses, ParseClasses, SaveVendorOptions, ParseVendorOptions, ShortClasses, ShortVendorOptions, ProperDuid;
    SliceAt(b, p, LeafBody(leaf));
    match leaf {
      case ElapsedTime(elapsed) =>
        assert Pack(elapsed, 2) == Pack(elapsed, 2) + [];
        ReadField(b, p, elapsed, 2, []);
      case StatusCode(status, text) =>
        ReadField(b, p, status, 2, text);
        SliceAt(b, p + 2, text);
      case RemoteId(number, remoteId) =>
        ReadField(b, p, number, 4, remoteId);
        SliceAt(b, p + 4, remoteId);
    }
  }

  /** Loading a saved leaf option gives the same option, whatever surrounds it in the buffer. */
  lemma LeafRoundTrip(leaf: Leaf, b: bytes, p: nat)
    requires !leaf.Raw? && ProperLeaf(leaf) && EncodableLeaf(leaf) && At(b, p, LeafBody(leaf))
    ensures Reparsed(leaf, b, p)
  {
    hide Bytes.Pack, Bytes.Unpack, Bytes.Read, Bytes.At, Bytes.Slice, SaveDuid, ParseDuid, SaveCodes, ParseCodes;
    hide SaveClasses, ParseClasses, SaveVendorOptions, ParseVendorOptions, ShortClasses, ShortVendorOptions, ProperDuid;
    SliceAt(b, p, LeafBody(leaf));
    match leaf {
      case DuidOption(_, duid) =>
        DuidRoundTrip(duid, b, p);
        SaveDuidLength(duid);
      case ElapsedTime(_) => WordLeafRoundTrip(leaf, b, p);
      case StatusCode(_, _) => WordLeafRoundTrip(leaf, b, p);
      case RemoteId(_, _) => WordLeafRoundTrip(leaf, b, p);
      case Authentication(_, _, _, _, _) => AuthenticationRoundTrip(leaf, b, p);
      case CodeList(_, _) => ListLeafRoundTrip(leaf, b, p);
      case UserClass(_) => ListLeafRoundTrip(leaf, b, p);
      case VendorClass(_, _) => ListLeafRoundTrip(leaf, b, p);
      case VendorOptions(_, _) => ListLeafRoundTrip(leaf, b, p);
      case _ =>
    }
  }

  /** Option-data long enough for the fixed fields that the class reads without checking option-len. */
  predicate LeafFits(b: bytes, code: int, p: nat, len: nat) {
    if IsDuidCode(code) then p + 2 <= |b| && DuidFixed(Read(b, p, 2)) <= len
    else code == OPTION_REMOTE_ID ==> 4 <= len
  }

  /** Whether a list, with its own length fields, makes up the option-data. */
  predicate IsListCode(code: int) {
    IsCodeListCode(code) || OPTION_USER_CLASS <= code <= OPTION_VENDOR_OPTS
  }

  /** What `LeafRewrite` says of one parsed leaf. */
  ghost predicate Rewritten(leaf: Leaf, b: bytes, code: u16, p: nat, len: nat)
    requires p + len <= |b|
  {
    && !leaf.Raw? && ProperLeaf(leaf) && LeafOptionCode(leaf) == code
    && Resaved(LeafBody(leaf), b, p, len, LeafFits(b, code, p, len))
    && (LeafFits(b, code, p, len) ==> EncodableLeaf(leaf))
  }

  lemma ListLeafRewrite(b: bytes, code: u16, p: nat, len: nat)
    requires p + len <= |b| && len < 0x1_0000
    requires IsListCode(code) && LeafLimits(code).0 <= len <= LeafLimits(code).1
    requires ParseLeaf(b, code, p, len).Ok?
    ensures Rewritten(ParseLeaf(b, code, p, len).value, b, code, p, len)
  {
    hide Bytes.Pack, Bytes.Unpack, Bytes.Read, Bytes.At, Bytes.Slice, SaveDuid, ParseDuid, SaveCodes, ParseCodes;
    hide SaveClasses, ParseClasses, SaveVendorOptions, ParseVendorOptions, ShortClasses, ShortVendorOptions, ProperDuid;
    if IsCodeListCode(code) {
      CodesRewrite(b, p, len / 2);
    } else if code == OPTION_USER_CLASS {
      ClassesRewrite(b, p, p + len);
    } else {
      VendorLeafRewrite(b, code, p, len);
    }
  }

  lemma VendorLeafRewrite(b: bytes, code: u16, p: nat, len: nat)
    requires p + len <= |b| && len < 0x1_0000
    requires (code == OPTION_VENDOR_CLASS || code == OPTION_VENDOR_OPTS) && 4 <= len
    requires ParseLeaf(b, code, p, len).Ok?
    ensures Rewritten(ParseLeaf(b, code, p, len).value, b, code, p, len)
  {
    hide Bytes.Pack, Bytes.Unpack, Bytes.Read, Bytes.At, Bytes.Slice, SaveDuid, ParseDuid, SaveCodes, ParseCodes;
    hide SaveClasses, ParseClasses, SaveVendorOptions, ParseVendorOptions, ShortClasses, ShortVendorOptions, ProperDuid;
    WriteField(b, p, 4, p + len);
    if code == OPTION_VENDOR_CLASS {
      ClassesRewrite(b, p + 4, p + len);
    } else {
      VendorOptionsRewrite(b, p + 4, p + len);
    }
  }

  lemma PlainLeafRewrite(b: bytes, code: u16, p: nat, len: nat)
    requires p + len <= |b| && len < 0x1_0000
    requires LeafCode(code) && !IsListCode(code) && !IsDuidCode(code) && code != OPTION_REMOTE_ID && code != OPTION_AUTH
    requires LeafLimits(code).0 <= len <= LeafLimits(code).1
    requires ParseLeaf(b, code, p, len).Ok?
    ensures Rewritten(ParseLeaf(b, code, p, len).value, b, code, p, len)
  {
    hide Bytes.Pack, Bytes.Unpack, Bytes.Read, Bytes.At, Bytes.Slice, SaveDuid, ParseDuid, SaveCodes, ParseCodes;
    hide SaveClasses, ParseClasses, SaveVendorOptions, ParseVendorOptions, ShortClasses, ShortVendorOptions, ProperDuid;
    if code == OPTION_ELAPSED_TIME {
      WriteField(b, p, 2, p + 2);
    } else if code == OPTION_STATUS_CODE {
      WriteField(b, p, 2, p + len);
    }
  }

  lemma FieldLeafRewrite(b: bytes, code: u16, p: nat, len: nat)
    requires p + len <= |b| && len < 0x1_0000
    requires IsDuidCode(code) || code == OPTION_REMOTE_ID || code == OPTION_AUTH
    requires LeafLimits(code).0 <= len <= LeafLimits(code).1
    requires ParseLeaf(b, code, p, len).Ok?
    ensures Rewritten(ParseLeaf(b, code, p, len).value, b, code, p, len)
  {
    hide ParseLeaf, Rewritten, LeafLimits;
    if IsDuidCode(code) {
      DuidLeafRewrite(b, code, p, len);
    } else if code == OPTION_AUTH {
      AuthenticationRewrite(b, p, len);
    } else {
      RemoteIdRewrite(b, p, len);
    }
  }

  lemma DuidLeafRewrite(b: bytes, code: u16, p: nat, len: nat)
    requires p + len <= |b| && len < 0x1_0000 && IsDuidCode(code) && LeafLimits(code).0 <= len <= LeafLimits(code).1
    requires ParseLeaf(b, code, p, len).Ok?
    ensures Rewritten(ParseLeaf(b, code, p, len).value, b, code, p, len)
  {
    hide Bytes.Pack, Bytes.Unpack, Bytes.Read, Bytes.Slice, SaveDuid, ParseDuid, ProperDuid;
    DuidRewrite(b, p, len);
  }

  lemma AuthenticationRewrite(b: bytes, p: nat, len: nat)
    requires p + len <= |b| && len < 0x1_0000 && LeafLimits(OPTION_AUTH).0 <= len <= LeafLimits(OPTION_AUTH).1
    requires ParseLeaf(b, OPTION_AUTH, p, len).Ok?
    ensures Rewritten(ParseLeaf(b, OPTION_AUTH, p, len).value, b, OPTION_AUTH, p, len)
  {
    hide Bytes.Pack, Bytes.Unpack, Bytes.Read, Bytes.Slice;
    SplitThreeOctets(b, p, p + 11, p + len);
  }

  lemma RemoteIdRewrite(b: bytes, p: nat, len: nat)
    requires p + len <= |b| && len < 0x1_0000 && ParseLeaf(b, OPTION_REMOTE_ID, p, len).Ok?
    ensures Rewritten(ParseLeaf(b, OPTION_REMOTE_ID, p, len).value, b, OPTION_REMOTE_ID, p, len)
  {
    hide Bytes.Pack, Bytes.Unpack, Bytes.Read, Bytes.At, Bytes.Slice, SaveDuid, ParseDuid, SaveCodes, ParseCodes;
    hide SaveClasses, ParseClasses, SaveVendorOptions, ParseVendorOptions, ShortClasses, ShortVendorOptions, ProperDuid;
    if 4 <= len {
      WriteField(b, p, 4, p + len);
      assert Slice(b, p + 4, p + len) == b[p + 4..p + len];
    }
  }

  /** A parsed leaf option saves to the option-data it came from exactly when `LeafFits`. */
  lemma LeafRewrite(b: bytes, code: u16, p: nat, len: nat)
    requires p + len <= |b| && len < 0x1_0000
    requires LeafCode(code) && LeafLimits(code).0 <= len <= LeafLimits(code).1
    requires ParseLeaf(b, code, p, len).Ok?
    ensures Rewritten(ParseLeaf(b, code, p, len).value, b, code, p, len)
  {
    hide ParseLeaf, Rewritten, LeafLimits;
    if IsListCode(code) {
      ListLeafRewrite(b, code, p, len);
    } else if IsDuidCode(code) || code == OPTION_REMOTE_ID || code == OPTION_AUTH {
      FieldLeafRewrite(b, code, p, len);
    } else {
      PlainLeafRewrite(b, code, p, len);
    }
  }
}
