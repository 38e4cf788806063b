/**
 The MAP options on the wire: rules and bindings with a prefix cut to whole octets and a list of
 sub-options, domain rules, port parameters, and the containers around them.
 */
module MapCodec {
  import opened Bytes
  import opened Wire
  import opened LeafCodec
  import opened Codec
  import opened MapPrefix

  const OPTION_S46_RULE: u16 := 89
  const OPTION_S46_BR: u16 := 90
  const OPTION_S46_DMR: u16 := 91
  const OPTION_S46_V4V6BIND: u16 := 92
  const OPTION_S46_PORTPARAMS: u16 := 93

  /** A network and its prefix length, of IPv6 or IPv4. */
  datatype Prefix = Prefix(network: Address, length: byte)
  datatype Prefix4 = Prefix4(network: Iaid, length: byte)

  /** What an option holds in front of its sub-options. */
  datatype Fixed =
    | Rule(flags: byte, eaLength: byte, ipv4: Prefix4, ipv6: Prefix)
    | BorderRelay(address: Address)
    | DomainRule(prefix: Prefix)
    | Binding(ipv4Address: Iaid, ipv6: Prefix)
    | PortParameters(offset: byte, psidLength: byte, psid: nat)
    | Around(code: u16)

  datatype MapOption = Map(fixed: Fixed, options: seq<MapOption>) | Other(option: Option)

  predicate IsMapCode(code: int) { 89 <= code <= 96 }

  /** Codes of MAP options that end in sub-options. */
  predicate Nests(code: int) { code == OPTION_S46_RULE || code == OPTION_S46_V4V6BIND || 94 <= code <= 96 }

  function FixedCode(fixed: Fixed): u16 {
    match fixed
    case Rule(_, _, _, _) => OPTION_S46_RULE
    case BorderRelay(_) => OPTION_S46_BR
    case DomainRule(_) => OPTION_S46_DMR
    case Binding(_, _) => OPTION_S46_V4V6BIND
    case PortParameters(_, _, _) => OPTION_S46_PORTPARAMS
    case Around(code) => code
  }

  /** `min_length` and `max_length`; a container asks for 5 octets although `save` can write fewer. */
  function Lengths(code: int): (nat, nat) {
    if code == OPTION_S46_RULE then (8, 0xffff)
    else if code == OPTION_S46_BR then (16, 16)
    else if code == OPTION_S46_DMR then (1, 17)
    else if code == OPTION_S46_PORTPARAMS then (4, 4)
    else (5, 0xffff)
  }

  // ---- Prefixes ---------------------------------------------------------------------------------

  function SavePrefix(prefix: Prefix): bytes {
    [prefix.length] + Slice(prefix.network, 0, Octets(prefix.length as nat))
  }

  predicate ProperPrefix(prefix: Prefix) { StrictNetwork(prefix.network, prefix.length) }

  predicate ProperPrefix4(prefix: Prefix4) { prefix.length <= 32 && ZeroBeyond(prefix.network, prefix.length as nat) }

  /** The octets of a prefix at `p`, which `ljust` fills up; they may be cut off by the end of the buffer. */
  function Octets16(b: bytes, p: nat, n: nat): (r: bytes)
    requires n <= 128
    ensures |r| == 16
  {
    Padded(Slice(b, p, p + Octets(n)))
  }

  function ParsePrefix(b: bytes, p: nat): (r: Parsed<Prefix>)
    requires p < |b|
    ensures r.Parsed? ==> r.used == 1 + Octets(b[p] as nat)
  {
    if b[p] > 128 then Failed(ValueError)
    else Parsed(1 + Octets(b[p] as nat), Prefix(Masked(Octets16(b, p + 1, b[p] as nat), b[p] as nat), b[p]))
  }

  /** No bit of the prefix at `p` is set beyond its length. */
  predicate PrefixFits(b: bytes, p: nat)
    requires p < |b|
  {
    b[p] <= 128 ==> ZeroBeyond(Octets16(b, p + 1, b[p] as nat), b[p] as nat)
  }

  // ---- Options ------------------------------------------------------------------------------------

  function SaveFixed(fixed: Fixed): bytes {
    match fixed
    case Rule(flags, eaLength, ipv4, ipv6) => [flags, eaLength, ipv4.length] + (ipv4.network + SavePrefix(ipv6))
    case BorderRelay(address) => address
    case DomainRule(prefix) => SavePrefix(prefix)
    case Binding(ipv4Address, ipv6) => ipv4Address + SavePrefix(ipv6)
    case PortParameters(offset, psidLength, psid) =>
      [offset, psidLength] + (if psidLength <= 16 then Pack(LeftAligned(psid, psidLength as nat), 2) else [])
    case Around(_) => []
  }

  /** `save` shifts by a non-negative amount and the shifted id fits its 16 bits. */
  predicate EncodableFixed(fixed: Fixed) {
    fixed.PortParameters? ==> fixed.psidLength <= 16 && LeftAligned(fixed.psid, fixed.psidLength as nat) < 0x1_0000
  }

  /** What the address classes and `validate` promise: no host bits, and an id of the announced length. */
  predicate ProperFixed(fixed: Fixed) {
    match fixed
    case Rule(_, _, ipv4, ipv6) => ProperPrefix4(ipv4) && ProperPrefix(ipv6)
    case BorderRelay(_) => true
    case DomainRule(prefix) => ProperPrefix(prefix)
    case Binding(_, ipv6) => ProperPrefix(ipv6)
    case PortParameters(_, psidLength, psid) => psidLength <= 16 && psid < TwoTo(psidLength as nat)
    case Around(code) => 94 <= code <= 96
  }

  function ParseFixed(b: bytes, code: u16, q: nat): (r: Parsed<Fixed>)
    requires IsMapCode(code) && q + Lengths(code).0 <= |b|
  {
    if code == OPTION_S46_RULE then
      if b[q + 2] > 32 then Failed(ValueError)
      else
        match ParsePrefix(b, q + 7)
        case Failed(e) => Failed(e)
        case Parsed(used, ipv6) =>
          Parsed(7 + used, Rule(b[q], b[q + 1], Prefix4(Masked(b[q + 3..q + 7], b[q + 2] as nat), b[q + 2]), ipv6))
    else if code == OPTION_S46_BR then Parsed(16, BorderRelay(b[q..q + 16]))
    else if code == OPTION_S46_DMR then
      match ParsePrefix(b, q)
      case Failed(e) => Failed(e)
      case Parsed(used, prefix) => Parsed(used, DomainRule(prefix))
    else if code == OPTION_S46_V4V6BIND then
      match ParsePrefix(b, q + 4)
      case Failed(e) => Failed(e)
      case Parsed(used, ipv6) => Parsed(4 + used, Binding(b[q..q + 4], ipv6))
    else if code == OPTION_S46_PORTPARAMS then
      if b[q + 1] > 16 then Failed(ValueError)
      else Parsed(4, PortParameters(b[q], b[q + 1], RightAligned(Read(b, q + 2, 2), b[q + 1] as nat)))
    else Parsed(0, Around(code))
  }

  /** No bits that parsing drops: host bits of a prefix, or bits below a port-set id. */
  predicate FixedFits(b: bytes, code: u16, q: nat)
    requires IsMapCode(code) && q + Lengths(code).0 <= |b|
  {
    if code == OPTION_S46_RULE then ZeroBeyond(b[q + 3..q + 7], b[q + 2] as nat) && PrefixFits(b, q + 7)
    else if code == OPTION_S46_DMR then PrefixFits(b, q)
    else if code == OPTION_S46_V4V6BIND then PrefixFits(b, q + 4)
    else if code == OPTION_S46_PORTPARAMS then b[q + 1] <= 16 ==> Read(b, q + 2, 2) % TwoTo(16 - b[q + 1] as nat) == 0
    else true
  }

  function ParseMap(b: bytes, p: nat): (r: Parsed<MapOption>)
    ensures r.Parsed? ==> p + 4 <= |b| && r.used == 4 + Read(b, p + 2, 2) && p + r.used <= |b|
    decreases if p < |b| then |b| - p else 0, 0
  {
    if p + 4 > |b| then Failed(StructError)
    else
      var code, len, q := Read(b, p, 2), Read(b, p + 2, 2), p + 4;
      if !IsMapCode(code) then
        match ParseOption(b, p)
        case Failed(e) => Failed(e)
        case Parsed(used, option) => Parsed(used, Other(option))
      else if !(Lengths(code).0 <= len <= Lengths(code).1) || q + len > |b| then Failed(ValueError)
      else
        match ParseFixed(b, code, q)
        case Failed(e) => Failed(e)
        case Parsed(used, fixed) =>
          if !Nests(code) then if used != len then Failed(ValueError) else Parsed(4 + len, Map(fixed, []))
          else
            match ParseMaps(b, q + used, q + len)
            case Failed(e) => Failed(e)
            case Parsed(more, options) =>
              if used + more != len then Failed(ValueError) else Parsed(4 + len, Map(fixed, options))
  }

  function ParseMaps(b: bytes, p: nat, end: nat): (r: Parsed<seq<MapOption>>)
    decreases if p < |b| then |b| - p else 0, 1
  {
    if end <= p then Parsed(0, [])
    else
      match ParseMap(b, p)
      case Failed(e) => Failed(e)
      case Parsed(used, option) =>
        match ParseMaps(b, p + used, end)
        case Failed(e) => Failed(e)
        case Parsed(more, options) => Parsed(used + more, [option] + options)
  }

  /** One round of the loop over sub-options. */
  lemma NextMap(b: bytes, p: nat, end: nat)
    ensures end <= p ==> ParseMaps(b, p, end) == Parsed(0, [])
    ensures p < end && ParseMap(b, p).Failed? ==> ParseMaps(b, p, end) == Failed(ParseMap(b, p).error)
    ensures p < end && ParseMap(b, p).Parsed? ==>
              var Parsed(used, option) := ParseMap(b, p);
              ParseMaps(b, p, end) ==
                match ParseMaps(b, p + used, end)
                case Failed(e) => Failed(e)
                case Parsed(more, rest) => Parsed(used + more, [option] + rest)
  {
    hide ParseMap;
  }

  function MapBody(option: MapOption): bytes
    decreases option, 0
  {
    match option
    case Map(fixed, options) => SaveFixed(fixed) + SaveMaps(options)
    case Other(o) => OptionBody(o)
  }

  function MapOptionCode(option: MapOption): u16 {
    match option case Map(fixed, _) => FixedCode(fixed) case Other(o) => OptionCode(o)
  }

  function SaveMap(option: MapOption): bytes
    decreases option, 1
  {
    Pack(MapOptionCode(option), 2) + (Pack(|MapBody(option)|, 2) + MapBody(option))
  }

  function SaveMaps(options: seq<MapOption>): bytes
    decreases options, 2
  {
    if options == [] then [] else SaveMap(options[0]) + SaveMaps(options[1..])
  }

  predicate EncodableMap(option: MapOption)
    decreases option
  {
    match option
    case Map(fixed, options) =>
      EncodableFixed(fixed) && |MapBody(option)| < 0x1_0000 && forall o <- options :: EncodableMap(o)
    case Other(o) => Encodable(o)
  }

  predicate ProperMap(option: MapOption)
    decreases option
  {
    match option
    case Map(fixed, options) =>
      && ProperFixed(fixed) && (Nests(FixedCode(fixed)) || options == [])
      && (fixed.Around? ==> |MapBody(option)| >= 5)
      && forall o <- options :: ProperMap(o)
    case Other(o) => Proper(o) && !IsMapCode(OptionCode(o))
  }
}
