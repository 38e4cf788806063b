/** The octets of the MAP options, written out as sections 4 and 5 of RFC 7598 draw them. */
module MapFormat {
  import opened Bytes
  import opened Arithmetic
  import opened Wire
  import opened Codec
  import opened MapPrefix
  import opened MapCodec
  import opened MapRoundTrip
  import W = WireFormat

  /** A prefix length, and as many octets of the network as hold that many bits. */
  function PrefixFormat(prefix: Prefix): bytes {
    [prefix.length] + if prefix.length <= 128 then prefix.network[..(prefix.length as nat + 7) / 8] else prefix.network
  }

  function MapCode(option: MapOption): nat {
    match option
    case Map(Rule(_, _, _, _), _) => 89
    case Map(BorderRelay(_), _) => 90
    case Map(DomainRule(_), _) => 91
    case Map(Binding(_, _), _) => 92
    case Map(PortParameters(_, _, _), _) => 93
    case Map(Around(code), _) => code
    case Other(o) => W.CodeOf(o)
  }

  function FixedFormat(fixed: Fixed): bytes {
    match fixed
    case Rule(flags, eaLength, ipv4, ipv6) => [flags] + [eaLength] + [ipv4.length] + ipv4.network + PrefixFormat(ipv6)
    case BorderRelay(address) => address
    case DomainRule(prefix) => PrefixFormat(prefix)
    case Binding(ipv4Address, ipv6) => ipv4Address + PrefixFormat(ipv6)
    case PortParameters(offset, psidLength, psid) =>
      [offset] + [psidLength] + if psidLength <= 16 then W.Word(psid * TwoTo(16 - psidLength as nat)) else []
    case Around(_) => []
  }

  function MapData(option: MapOption): bytes
    decreases option, 0
  {
    match option
    case Map(fixed, options) => FixedFormat(fixed) + MapsFormat(options)
    case Other(o) => W.DataOf(o)
  }

  function OneFormat(option: MapOption): bytes
    decreases option, 1
  {
    W.Word(MapCode(option)) + W.Word(|MapData(option)|) + MapData(option)
  }

  function MapsFormat(options: seq<MapOption>): bytes
    decreases options, 2
  {
    if options == [] then [] else OneFormat(options[0]) + MapsFormat(options[1..])
  }

  lemma PrefixIsFormat(prefix: Prefix)
    ensures SavePrefix(prefix) == PrefixFormat(prefix)
  {
  }

  lemma FixedIsFormat(fixed: Fixed)
    ensures SaveFixed(fixed) == FixedFormat(fixed) && FixedCode(fixed) == MapCode(Map(fixed, []))
  {
    hide Bytes.Pack, SavePrefix, PrefixFormat, W.Word, TwoTo;
    match fixed {
      case Rule(_, _, _, ipv6) => PrefixIsFormat(ipv6);
      case DomainRule(prefix) => PrefixIsFormat(prefix);
      case Binding(_, ipv6) => PrefixIsFormat(ipv6);
      case PortParameters(_, psidLength, psid) =>
        if psidLength <= 16 {
          W.PackIsWord(psid * TwoTo(16 - psidLength as nat));
        }
      case _ =>
    }
  }

  /** Whatever is saved has the format of the standard, field by field. */
  lemma {:induction false} MapIsFormat(option: MapOption)
    ensures SaveMap(option) == OneFormat(option) && MapBody(option) == MapData(option)
    decreases option, 1
  {
    hide Bytes.Pack, W.Word, SaveFixed, FixedFormat, SaveMaps, MapsFormat, OptionBody, W.DataOf;
    match option {
      case Map(fixed, options) => FixedIsFormat(fixed); MapsAreFormat(options);
      case Other(o) => W.OptionIsFormat(o);
    }
    W.PackIsWord(MapCode(option));
    W.PackIsWord(|MapData(option)|);
  }

  lemma {:induction false} MapsAreFormat(options: seq<MapOption>)
    ensures SaveMaps(options) == MapsFormat(options)
    decreases options, 2
  {
    hide SaveMap, OneFormat;
    if options != [] {
      MapIsFormat(options[0]);
      MapsAreFormat(options[1..]);
    }
  }

  // ---- Which values there are -----------------------------------------------------------------------

  predicate IsNetwork(prefix: Prefix) {
    prefix.length <= 128 && Unpack(prefix.network) % TwoTo(128 - prefix.length as nat) == 0
  }

  predicate IsNetwork4(prefix: Prefix4) {
    prefix.length <= 32 && Unpack(prefix.network) % TwoTo(32 - prefix.length as nat) == 0
  }

  predicate StandardFixed(fixed: Fixed) {
    match fixed
    case Rule(_, _, ipv4, ipv6) => IsNetwork4(ipv4) && IsNetwork(ipv6)
    case BorderRelay(_) => true
    case DomainRule(prefix) => IsNetwork(prefix)
    case Binding(_, ipv6) => IsNetwork(ipv6)
    case PortParameters(_, psidLength, psid) => psidLength <= 16 && psid < TwoTo(psidLength as nat)
    case Around(code) => code == 94 || code == 95 || code == 96
  }

  /**
   Values that are read back: networks without host bits, ids of the announced length, and
   containers that are not too short for what loading asks of them.
   */
  predicate StandardMap(option: MapOption)
    decreases option
  {
    match option
    case Map(fixed, options) =>
      && StandardFixed(fixed)
      && (fixed.BorderRelay? || fixed.DomainRule? || fixed.PortParameters? ==> options == [])
      && (fixed.Around? ==> |MapsFormat(options)| >= 5)
      && forall o <- options :: StandardMap(o)
    case Other(o) => W.Standard(o) && !(89 <= W.CodeOf(o) <= 96)
  }

  lemma NetworksAreStandard(ipv4: Prefix4, ipv6: Prefix)
    ensures ProperPrefix(ipv6) <==> IsNetwork(ipv6)
    ensures ProperPrefix4(ipv4) <==> IsNetwork4(ipv4)
  {
    hide TwoTo, ZeroBeyond, Unpack;
    if ipv6.length <= 128 {
      W.ZeroBeyondIsMultiple(ipv6.network, ipv6.length as nat);
    }
    if ipv4.length <= 32 {
      W.ZeroBeyondIsMultiple(ipv4.network, ipv4.length as nat);
    }
  }

  lemma FixedIsStandard(fixed: Fixed)
    ensures ProperFixed(fixed) <==> StandardFixed(fixed)
    ensures StandardFixed(fixed) ==>
              (Nests(FixedCode(fixed)) <==> !fixed.BorderRelay? && !fixed.DomainRule? && !fixed.PortParameters?)
  {
    hide ProperPrefix, ProperPrefix4, IsNetwork, IsNetwork4, TwoTo;
    match fixed {
      case Rule(_, _, ipv4, ipv6) => NetworksAreStandard(ipv4, ipv6);
      case DomainRule(prefix) => NetworksAreStandard(Prefix4([0, 0, 0, 0], 0), prefix);
      case Binding(_, ipv6) => NetworksAreStandard(Prefix4([0, 0, 0, 0], 0), ipv6);
      case _ =>
    }
  }

  /** The values that the codec calls proper are just these. */
  lemma {:induction false} MapIsStandard(option: MapOption)
    ensures ProperMap(option) <==> StandardMap(option)
    decreases option
  {
    hide ProperFixed, StandardFixed, Proper, W.Standard, SaveMaps, MapsFormat, FixedFormat, SaveFixed;
    match option {
      case Map(fixed, options) =>
        FixedIsStandard(fixed);
        MapIsFormat(option);
        FixedIsFormat(fixed);
        MapsAreFormat(options);
        AroundIsEmpty(fixed);
        forall o | o in options ensures ProperMap(o) <==> StandardMap(o) {
          MapIsStandard(o);
        }
      case Other(o) =>
        W.OptionIsStandard(o);
        W.OptionIsFormat(o);
    }
  }

  lemma AroundIsEmpty(fixed: Fixed)
    ensures fixed.Around? ==> FixedFormat(fixed) == []
  {
  }

  /** A MAP option drawn as the standard draws it is loaded as just that option, with anything behind it. */
  lemma MapIsLoaded(option: MapOption, tail: bytes)
    requires StandardMap(option) && EncodableMap(option)
    ensures ParseMap(OneFormat(option) + tail, 0) == Parsed(|OneFormat(option)|, option)
  {
    hide Bytes.At, SaveMap, OneFormat, ParseMap, ProperMap, EncodableMap, StandardMap;
    MapIsFormat(option);
    MapIsStandard(option);
    W.AtFront(OneFormat(option), tail);
    MapOptionRoundTrip(option, OneFormat(option) + tail, 0);
  }
}
