/** Saving and loading MAP options undo each other, each direction with its exact condition. */
module MapRoundTrip {
  import opened Bytes
  import opened Wire
  import opened LeafCodec
  import opened Codec
  import opened CodecRoundTrip
  import opened MapPrefix
  import opened MapCodec

  // ---- Tree to octets to tree -----------------------------------------------------------------------

  lemma PrefixRoundTrip(prefix: Prefix, b: bytes, p: nat)
    requires ProperPrefix(prefix) && At(b, p, SavePrefix(prefix))
    ensures p < |b| && ParsePrefix(b, p) == Parsed(|SavePrefix(prefix)|, prefix)
    ensures |SavePrefix(prefix)| == 1 + Octets(prefix.length as nat) <= 17
  {
    hide ZeroBeyond, Masked, Padded;
    var n := prefix.length as nat;
    AtSplit(b, p, [prefix.length], prefix.network[..Octets(n)]);
    SliceAt(b, p, [prefix.length]);
    assert b[p] == b[p..p + 1][0];
    SliceAt(b, p + 1, prefix.network[..Octets(n)]);
    CutAndPad(prefix.network, n);
    MaskedIsNetwork(prefix.network, n);
  }

  lemma RuleRoundTrip(fixed: Fixed, b: bytes, q: nat)
    requires fixed.Rule? && ProperFixed(fixed) && At(b, q, SaveFixed(fixed))
    ensures q + 8 <= |b| && 8 <= |SaveFixed(fixed)| <= 0xffff
    ensures ParseFixed(b, OPTION_S46_RULE, q) == Parsed(|SaveFixed(fixed)|, fixed)
  {
    hide Bytes.At, SavePrefix, ParsePrefix, ProperPrefix, ZeroBeyond, Masked;
    var Rule(flags, eaLength, ipv4, ipv6) := fixed;
    var start := [flags, eaLength, ipv4.length];
    AtSplit(b, q, start, ipv4.network + SavePrefix(ipv6));
    AtSplit(b, q + 3, ipv4.network, SavePrefix(ipv6));
    SliceAt(b, q, start);
    assert b[q] == b[q..q + 3][0] && b[q + 1] == b[q..q + 3][1] && b[q + 2] == b[q..q + 3][2];
    SliceAt(b, q + 3, ipv4.network);
    MaskedIsNetwork(ipv4.network, ipv4.length as nat);
    PrefixRoundTrip(ipv6, b, q + 7);
  }

  lemma {:induction false} FixedRoundTrip(fixed: Fixed, b: bytes, q: nat)
    requires ProperFixed(fixed) && EncodableFixed(fixed) && At(b, q, SaveFixed(fixed))
    requires fixed.Around? ==> q + 5 <= |b|
    ensures var code := FixedCode(fixed);
            && IsMapCode(code) && q + Lengths(code).0 <= |b|
            && ParseFixed(b, code, q) == Parsed(|SaveFixed(fixed)|, fixed)
            && (!fixed.Around? ==> Lengths(code).0 <= |SaveFixed(fixed)|) && |SaveFixed(fixed)| <= Lengths(code).1
  {
    hide Bytes.Pack, Bytes.Unpack, Bytes.Read, Bytes.At, SavePrefix, ParsePrefix, ProperPrefix, ZeroBeyond, Masked;
    hide LeftAligned, RightAligned, TwoTo;
    SliceAt(b, q, SaveFixed(fixed));
    match fixed {
      case Rule(_, _, _, _) => RuleRoundTrip(fixed, b, q);
      case BorderRelay(address) =>
      case DomainRule(prefix) =>
        PrefixRoundTrip(prefix, b, q);
      case Binding(ipv4Address, ipv6) =>
        AtSplit(b, q, ipv4Address, SavePrefix(ipv6));
        SliceAt(b, q, ipv4Address);
        PrefixRoundTrip(ipv6, b, q + 4);
      case PortParameters(offset, psidLength, psid) =>
        var raw := LeftAligned(psid, psidLength as nat);
        AtSplit(b, q, [offset, psidLength], Pack(raw, 2));
        SliceAt(b, q, [offset, psidLength]);
        assert b[q] == b[q..q + 2][0] && b[q + 1] == b[q..q + 2][1];
        assert Pack(raw, 2) == Pack(raw, 2) + [];
        TwoOctets();
        ReadField(b, q + 2, raw, 2, []);
        PsidFitsAndShiftsBack(psid, psidLength as nat);
      case Around(_) =>
    }
  }

  /** Loading a saved MAP option gives it back with its exact size, whatever stands around it. */
  lemma {:induction false} MapOptionRoundTrip(option: MapOption, b: bytes, p: nat)
    requires ProperMap(option) && EncodableMap(option) && At(b, p, SaveMap(option))
    ensures ParseMap(b, p) == Parsed(|SaveMap(option)|, option)
    decreases option, 2
  {
    hide Bytes.Pack, Bytes.Unpack, Bytes.Read, Bytes.At, SaveFixed;
    hide ParseFixed, ProperFixed, EncodableFixed, Codec.OptionBody;
    hide Codec.ParseOption;
    var code, body := MapOptionCode(option), MapBody(option);
    ReadField(b, p, code, 2, Pack(|body|, 2) + body);
    match option {
      case Map(fixed, options) =>
        TwoOctets();
        ReadField(b, p + 2, |body|, 2, body);
        BodyRoundTrip(fixed, options, b, p + 4);
        hide SaveMaps, ParseMaps, Lengths, Nests, FixedCode;
      case Other(o) =>
        OptionRoundTrip(o, b, p);
    }
  }

  lemma {:induction false} BodyRoundTrip(fixed: Fixed, options: seq<MapOption>, b: bytes, q: nat)
    requires ProperFixed(fixed) && EncodableFixed(fixed) && (Nests(FixedCode(fixed)) || options == [])
    requires forall o <- options :: ProperMap(o) && EncodableMap(o)
    requires var body := SaveFixed(fixed) + SaveMaps(options);
             At(b, q, body) && |body| < 0x1_0000 && (fixed.Around? ==> |body| >= 5)
    ensures var code, n, used := FixedCode(fixed), |SaveFixed(fixed)|, |SaveFixed(fixed) + SaveMaps(options)|;
            && IsMapCode(code) && Lengths(code).0 <= used <= Lengths(code).1 && q + used <= |b|
            && ParseFixed(b, code, q) == Parsed(n, fixed)
            && if Nests(code) then ParseMaps(b, q + n, q + used) == Parsed(used - n, options) else used == n
    decreases options, 2
  {
    hide Bytes.At, SaveFixed, ParseFixed, ProperFixed, EncodableFixed, ParseMaps, SaveMaps, ProperMap, EncodableMap;
    SliceAt(b, q, SaveFixed(fixed) + SaveMaps(options));
    AtSplit(b, q, SaveFixed(fixed), SaveMaps(options));
    FixedRoundTrip(fixed, b, q);
    FixedNests(fixed);
    MapOptionsRoundTrip(options, b, q + |SaveFixed(fixed)|);
    NoSubOptions();
  }

  lemma NoSubOptions()
    ensures SaveMaps([]) == []
  {
  }

  lemma FixedNests(fixed: Fixed)
    requires ProperFixed(fixed)
    ensures IsMapCode(FixedCode(fixed))
    ensures (fixed.Around? ==> Nests(FixedCode(fixed)) && Lengths(FixedCode(fixed)) == (5, 0xffff))
    ensures fixed.Around? ==> SaveFixed(fixed) == []
    ensures Nests(FixedCode(fixed)) ==> Lengths(FixedCode(fixed)).1 == 0xffff
  {
    hide SavePrefix;
  }

  lemma {:induction false} MapOptionsRoundTrip(options: seq<MapOption>, b: bytes, p: nat)
    requires forall o <- options :: ProperMap(o) && EncodableMap(o)
    requires At(b, p, SaveMaps(options))
    ensures ParseMaps(b, p, p + |SaveMaps(options)|) == Parsed(|SaveMaps(options)|, options)
    decreases options, 1
  {
    hide Bytes.At, SaveMap, ParseMap, SaveMaps, ParseMaps, ProperMap, EncodableMap;
    NextMap(b, p, p + |SaveMaps(options)|);
    if options == [] {
      NoSubOptions();
    } else {
      FirstMapSaved(options);
      AtSplit(b, p, SaveMap(options[0]), SaveMaps(options[1..]));
      MapOptionRoundTrip(options[0], b, p);
      MapOptionsRoundTrip(options[1..], b, p + |SaveMap(options[0])|);
      SavedMapSize(options[0]);
      assert options == [options[0]] + options[1..];
    }
  }

  lemma FirstMapSaved(options: seq<MapOption>)
    requires options != []
    ensures SaveMaps(options) == SaveMap(options[0]) + SaveMaps(options[1..])
  {
    hide SaveMap;
  }

  lemma SavedMapSize(option: MapOption)
    ensures |SaveMap(option)| >= 4
  {
  }

  // ---- Octets to tree to octets -----------------------------------------------------------------------

  /** `s` re-encodes `b[p..p + used]` with at least as many octets, and with the same ones exactly if `fits`. */
  ghost predicate Kept(s: bytes, b: bytes, p: nat, used: nat, fits: bool) {
    p + used <= |b| && |s| >= used && (fits <==> s == b[p..p + used])
  }

  lemma KeptConcat(s: bytes, t: bytes, b: bytes, p: nat, m: nat, n: nat, sFits: bool, tFits: bool)
    requires Kept(s, b, p, m, sFits) && Kept(t, b, p + m, n, tFits)
    ensures Kept(s + t, b, p, m + n, sFits && tFits)
  {
    SplitAt(b, p, p + m, p + m + n);
    if s + t == b[p..p + m + n] {
      assert |s| == m;
      assert s == (s + t)[..m] && t == (s + t)[m..];
      assert b[p..p + m] == b[p..p + m + n][..m] && b[p + m..p + m + n] == b[p..p + m + n][m..];
    }
  }

  lemma PrefixRewrite(b: bytes, p: nat)
    requires p < |b| && ParsePrefix(b, p).Parsed? && p + ParsePrefix(b, p).used <= |b|
    ensures var Parsed(used, prefix) := ParsePrefix(b, p);
            ProperPrefix(prefix) && Kept(SavePrefix(prefix), b, p, used, PrefixFits(b, p))
  {
    hide ZeroBeyond, Masked, Padded;
    var n := b[p] as nat;
    var s := b[p + 1..p + 1 + Octets(n)];
    MaskedIsNetwork(Padded(s), n);
    PadAndCut(s, n);
    var cut := Masked(Padded(s), n)[..Octets(n)];
    assert b[p..p + 1 + Octets(n)] == [b[p]] + s;
    assert SavePrefix(ParsePrefix(b, p).value) == [b[p]] + cut;
    assert ([b[p]] + cut)[1..] == cut && ([b[p]] + s)[1..] == s;
  }

  lemma FixedRewrite(b: bytes, code: u16, q: nat)
    requires IsMapCode(code) && q + Lengths(code).0 <= |b|
    requires ParseFixed(b, code, q).Parsed? && q + ParseFixed(b, code, q).used <= |b|
    ensures var Parsed(used, fixed) := ParseFixed(b, code, q);
            && FixedCode(fixed) == code && ProperFixed(fixed) && EncodableFixed(fixed)
            && Kept(SaveFixed(fixed), b, q, used, FixedFits(b, code, q))
  {
    hide Bytes.Pack, Bytes.Unpack, Bytes.Read, SavePrefix, ParsePrefix;
    hide ProperPrefix, PrefixFits, ZeroBeyond, Masked, Kept;
    hide LeftAligned, RightAligned, TwoTo;
    var Parsed(used, fixed) := ParseFixed(b, code, q);
    match fixed {
      case Rule(_, _, _, _) => RuleRewrite(b, q);
      case BorderRelay(address) => Same(address, b, q);
      case DomainRule(prefix) => PrefixRewrite(b, q);
      case Binding(ipv4Address, ipv6) =>
        PrefixRewrite(b, q + 4);
        Same(ipv4Address, b, q);
        KeptConcat(ipv4Address, SavePrefix(ipv6), b, q, 4, used - 4, true, PrefixFits(b, q + 4));
      case PortParameters(offset, psidLength, psid) =>
        PsidRewrite(b, q + 2, psidLength as nat);
        Same([offset, psidLength], b, q);
        KeptConcat([offset, psidLength], Pack(LeftAligned(psid, psidLength as nat), 2), b, q, 2, 2, true,
            FixedFits(b, code, q));
      case Around(_) => Same([], b, q);
    }
  }

  lemma RuleParts(b: bytes, q: nat)
    requires q + 8 <= |b| && ParseFixed(b, OPTION_S46_RULE, q).Parsed?
    ensures var Parsed(used, fixed) := ParseFixed(b, OPTION_S46_RULE, q);
            && b[q + 2] <= 32 && fixed.Rule? && ParsePrefix(b, q + 7) == Parsed(used - 7, fixed.ipv6)
            && fixed.ipv4 == Prefix4(Masked(b[q + 3..q + 7], b[q + 2] as nat), b[q + 2])
            && SaveFixed(fixed) == b[q..q + 3] + (fixed.ipv4.network + SavePrefix(fixed.ipv6))
            && (ProperFixed(fixed) <==> ProperPrefix4(fixed.ipv4) && ProperPrefix(fixed.ipv6))
    ensures FixedFits(b, OPTION_S46_RULE, q) <==> ZeroBeyond(b[q + 3..q + 7], b[q + 2] as nat) && PrefixFits(b, q + 7)
  {
    hide SavePrefix, ParsePrefix, ProperPrefix, ProperPrefix4, PrefixFits, ZeroBeyond, Masked;
    assert [b[q], b[q + 1], b[q + 2]] == b[q..q + 3];
  }

  lemma RuleRewrite(b: bytes, q: nat)
    requires q + 8 <= |b| && ParseFixed(b, OPTION_S46_RULE, q).Parsed?
    requires q + ParseFixed(b, OPTION_S46_RULE, q).used <= |b|
    ensures var Parsed(used, fixed) := ParseFixed(b, OPTION_S46_RULE, q);
            fixed.Rule? && ProperFixed(fixed) && Kept(SaveFixed(fixed), b, q, used, FixedFits(b, OPTION_S46_RULE, q))
  {
    hide ParseFixed, SaveFixed, ProperFixed, FixedFits, SavePrefix, ParsePrefix;
    hide ProperPrefix, PrefixFits, ZeroBeyond, Masked, Kept;
    RuleParts(b, q);
    var Parsed(used, fixed) := ParseFixed(b, OPTION_S46_RULE, q);
    var network, rest, n := fixed.ipv4.network, SavePrefix(fixed.ipv6), b[q + 2] as nat;
    PrefixRewrite(b, q + 7);
    Same(b[q..q + 3], b, q);
    MaskedIsNetwork(b[q + 3..q + 7], n);
    SameLength(network, b, q + 3);
    KeptConcat(network, rest, b, q + 3, 4, used - 7, ZeroBeyond(b[q + 3..q + 7], n), PrefixFits(b, q + 7));
    KeptConcat(b[q..q + 3], network + rest, b, q, 3, used - 3, true, FixedFits(b, OPTION_S46_RULE, q));
  }

  lemma Same(s: bytes, b: bytes, p: nat)
    requires p + |s| <= |b| && s == b[p..p + |s|]
    ensures Kept(s, b, p, |s|, true)
  {
  }

  lemma SameLength(s: bytes, b: bytes, p: nat)
    requires p + |s| <= |b|
    ensures Kept(s, b, p, |s|, s == b[p..p + |s|])
  {
  }

  lemma PsidRewrite(b: bytes, p: nat, len: nat)
    requires p + 2 <= |b| && len <= 16
    ensures var psid := RightAligned(Read(b, p, 2), len);
            && psid < TwoTo(len) && LeftAligned(psid, len) < 0x1_0000
            && Kept(Pack(LeftAligned(psid, len), 2), b, p, 2, Read(b, p, 2) % TwoTo(16 - len) == 0)
  {
    hide Bytes.Pack, Bytes.Unpack, TwoTo, LeftAligned, RightAligned;
    TwoOctets();
    var raw := Read(b, p, 2);
    RawPsidComesBack(raw, len);
    PackUnpack(b[p..p + 2]);
    UnpackPack(LeftAligned(RightAligned(raw, len), len), 2);
  }

  /** The octets in front of the sub-options, by the prefix length that stands among them. */
  function FixedSize(b: bytes, code: u16, q: nat): nat
    requires IsMapCode(code) && q + Lengths(code).0 <= |b|
  {
    if code == OPTION_S46_RULE then 8 + Octets(b[q + 7] as nat)
    else if code == OPTION_S46_V4V6BIND then 5 + Octets(b[q + 4] as nat)
    else 0
  }

  lemma FixedSizeIsUsed(b: bytes, code: u16, q: nat)
    requires IsMapCode(code) && q + Lengths(code).0 <= |b| && Nests(code) && ParseFixed(b, code, q).Parsed?
    ensures ParseFixed(b, code, q).used == FixedSize(b, code, q)
  {
    hide Padded, Masked, Octets;
  }

  /** The octets at `p` carry no bits and no cut-off fields that parsing does not keep: a walk over them. */
  predicate MapFits(b: bytes, p: nat)
    decreases if p < |b| then |b| - p else 0, 0
  {
    p + 4 <= |b| &&
    var code, len, q := Read(b, p, 2), Read(b, p + 2, 2), p + 4;
    if !IsMapCode(code) then OptionFits(b, p)
    else
      && q + Lengths(code).0 <= |b| && FixedFits(b, code, q)
      && (Nests(code) ==> MapsFit(b, q + FixedSize(b, code, q), q + len))
  }

  predicate MapsFit(b: bytes, p: nat, end: nat)
    decreases if p < |b| then |b| - p else 0, 1
  {
    end <= p || (MapFits(b, p) && MapsFit(b, p + 4 + Read(b, p + 2, 2), end))
  }

  lemma HeaderOctets(b: bytes, p: nat)
    requires p + 4 <= |b|
    ensures Pack(Read(b, p, 2), 2) + Pack(Read(b, p + 2, 2), 2) == b[p..p + 4]
  {
    hide Bytes.Pack, Bytes.Unpack;
    PackUnpack(b[p..p + 2]);
    PackUnpack(b[p + 2..p + 4]);
    SplitAt(b, p, p + 2, p + 4);
  }

  /** The option header in front of option-data that was read with it. */
  lemma KeptOption(body: bytes, b: bytes, p: nat, fits: bool)
    requires p + 4 <= |b| && Kept(body, b, p + 4, Read(b, p + 2, 2), fits)
    ensures Kept(Pack(Read(b, p, 2), 2) + (Pack(|body|, 2) + body), b, p, 4 + Read(b, p + 2, 2), fits)
  {
    hide Bytes.Pack, Bytes.Unpack, Bytes.Read, Kept;
    var code, len := Read(b, p, 2), Read(b, p + 2, 2);
    KeptSize(body, b, p + 4, len, fits);
    var whole := Pack(code, 2) + (Pack(|body|, 2) + body);
    assert whole == (Pack(code, 2) + Pack(|body|, 2)) + body;
    if |body| == len {
      HeaderOctets(b, p);
      Same(b[p..p + 4], b, p);
      KeptConcat(b[p..p + 4], body, b, p, 4, len, true, fits);
    } else {
      Longer(whole, b, p, 4 + len);
    }
  }

  lemma Longer(s: bytes, b: bytes, p: nat, used: nat)
    requires p + used <= |b| && |s| > used
    ensures Kept(s, b, p, used, false)
  {
  }

  /** A parsed MAP option saves to the octets it was parsed from exactly when `MapFits`. */
  lemma {:induction false} MapOptionRewrite(b: bytes, p: nat)
    requires ParseMap(b, p).Parsed?
    ensures var Parsed(used, option) := ParseMap(b, p);
            && ProperMap(option) && Kept(SaveMap(option), b, p, used, MapFits(b, p))
            && (MapFits(b, p) ==> EncodableMap(option))
    decreases if p < |b| then |b| - p else 0, 1
  {
    hide Bytes.Pack, Bytes.Unpack, Bytes.Read, ParseFixed, SaveFixed;
    hide FixedFits, ProperFixed, EncodableFixed, Kept, Lengths;
    hide Codec.ParseOption, Codec.SaveOption, OptionFits, SaveMap, ParseMaps, MapsFit;
    var code, len := Read(b, p, 2), Read(b, p + 2, 2);
    var option := ParseMap(b, p).value;
    match option {
      case Map(fixed, options) =>
        MapBodyRewrite(b, p);
        KeptOption(MapBody(option), b, p, MapFits(b, p));
        SavedMap(option);
      case Other(o) =>
        OptionRewrite(b, p);
        OtherCode(b, p);
        SavedMap(option);
        ResavedIsKept(SaveOption(o), b, p, 4 + len, OptionFits(b, p));
    }
  }

  lemma OtherCode(b: bytes, p: nat)
    requires ParseOption(b, p).Parsed?
    ensures p + 4 <= |b| && OptionCode(ParseOption(b, p).value) == Read(b, p, 2)
  {
    hide Bytes.Read, Codec.ParseOptions, Codec.ParseMessage;
    hide Codec.ParseHeader, LeafCodec.ParseLeaf, LeafCodec.LeafLimits;
    var code, len := Read(b, p, 2), Read(b, p + 2, 2);
    if IsContainerCode(code) {
      HeaderRewrite(b, code, p + 4);
    } else if LeafCode(code) {
      LeafRewrite(b, code, p + 4, len);
    }
  }

  lemma SavedMap(option: MapOption)
    ensures SaveMap(option) == Pack(MapOptionCode(option), 2) + (Pack(|MapBody(option)|, 2) + MapBody(option))
    ensures option.Other? ==> SaveMap(option) == SaveOption(option.option)
  {
  }

  lemma ResavedIsKept(s: bytes, b: bytes, p: nat, used: nat, fits: bool)
    requires Resaved(s, b, p, used, fits)
    ensures Kept(s, b, p, used, fits)
  {
  }

  lemma {:induction false} MapBodyRewrite(b: bytes, p: nat)
    requires ParseMap(b, p).Parsed? && ParseMap(b, p).value.Map?
    ensures var option := ParseMap(b, p).value;
            && FixedCode(option.fixed) == Read(b, p, 2)
            && ProperMap(option) && Kept(MapBody(option), b, p + 4, Read(b, p + 2, 2), MapFits(b, p))
            && (MapFits(b, p) ==> EncodableMap(option))
    decreases if p < |b| then |b| - p else 0, 0
  {
    hide Bytes.Read, ParseFixed, SaveFixed, FixedFits, ProperFixed, EncodableFixed, Lengths, Codec.ParseOption;
    hide SaveMaps, ParseMaps, MapsFit, Kept;
    var code, len, q := Read(b, p, 2), Read(b, p + 2, 2), p + 4;
    var option := ParseMap(b, p).value;
    var Parsed(used, fixed) := ParseFixed(b, code, q);
    FixedRewrite(b, code, q);
    if Nests(code) {
      FixedSizeIsUsed(b, code, q);
      MapOptionsRewrite(b, q + used, q + len);
    } else {
      NoSubOptions();
      NoneToFit(b, q + len);
      Same([], b, q + len);
      assert b[q + len..q + len] == [];
    }
    KeptConcat(SaveFixed(fixed), SaveMaps(option.options), b, q, used, len - used,
               FixedFits(b, code, q), MapsFit(b, q + used, q + len));
    KeptSize(MapBody(option), b, q, len, MapFits(b, p));
    LongEnough(code, fixed);
    ReadIsWord(b, p + 2);
  }

  lemma NoneToFit(b: bytes, end: nat)
    ensures MapsFit(b, end, end)
  {
  }

  lemma LongEnough(code: u16, fixed: Fixed)
    requires IsMapCode(code) && FixedCode(fixed) == code && ProperFixed(fixed)
    ensures fixed.Around? ==> Lengths(code).0 == 5
    ensures !Nests(code) <==> fixed.BorderRelay? || fixed.DomainRule? || fixed.PortParameters?
  {
  }

  lemma ReadIsWord(b: bytes, p: nat)
    requires p + 2 <= |b|
    ensures Read(b, p, 2) < 0x1_0000
  {
    TwoOctets();
  }

  lemma KeptSize(s: bytes, b: bytes, p: nat, used: nat, fits: bool)
    requires Kept(s, b, p, used, fits)
    ensures p + used <= |b| && |s| >= used && (fits ==> |s| == used)
  {
  }

  lemma {:induction false} MapOptionsRewrite(b: bytes, p: nat, end: nat)
    requires p <= end <= |b| && ParseMaps(b, p, end).Parsed? && p + ParseMaps(b, p, end).used == end
    ensures var options := ParseMaps(b, p, end).value;
            && (forall o <- options :: ProperMap(o)) && Kept(SaveMaps(options), b, p, end - p, MapsFit(b, p, end))
            && (MapsFit(b, p, end) ==> forall o <- options :: EncodableMap(o))
    decreases if p < |b| then |b| - p else 0, 2
  {
    hide Bytes.Read, SaveMap, ParseMap, MapFits, ProperMap, EncodableMap, Kept;
    if p == end {
      Same([], b, p);
      assert b[p..p] == [];
    } else {
      var Parsed(used, option) := ParseMap(b, p);
      MapOptionRewrite(b, p);
      MapsStayInside(b, p + used, end);
      MapOptionsRewrite(b, p + used, end);
      var options := ParseMaps(b, p + used, end).value;
      KeptConcat(SaveMap(option), SaveMaps(options), b, p, used, end - p - used, MapFits(b, p),
          MapsFit(b, p + used, end));
      assert ([option] + options)[1..] == options;
    }
  }

  lemma MapsStayInside(b: bytes, p: nat, end: nat)
    ensures p >= end && ParseMaps(b, p, end).Parsed? ==> ParseMaps(b, p, end).used == 0
  {
  }

  // ---- The two directions, each with its exact condition ------------------------------------------------

  /**
   Of all MAP options that `save` can encode, those that come back unchanged are exactly the
   proper ones: networks without host bits, ids of the announced length, and containers of at
   least five octets.
   */
  lemma SavedMapOptionComesBackIffProper(option: MapOption)
    requires EncodableMap(option)
    ensures ParseMap(SaveMap(option), 0) == Parsed(|SaveMap(option)|, option) <==> ProperMap(option)
  {
    hide ParseMap, SaveMap, ProperMap, EncodableMap;
    if ProperMap(option) {
      MapOptionRoundTrip(option, SaveMap(option), 0);
    }
    if ParseMap(SaveMap(option), 0).Parsed? {
      MapOptionRewrite(SaveMap(option), 0);
    }
  }

  /** Of all octets that are one MAP option, those that are saved unchanged are exactly those that fit. */
  lemma ParsedMapOptionComesBackIffItFits(b: bytes)
    requires ParseMap(b, 0).Parsed? && ParseMap(b, 0).used == |b|
    ensures SaveMap(ParseMap(b, 0).value) == b <==> MapFits(b, 0)
  {
    hide ParseMap, SaveMap, ProperMap, EncodableMap, MapFits;
    MapOptionRewrite(b, 0);
    assert b[0..|b|] == b;
  }

  /** An empty container is saved as four octets, which are refused when they come back. */
  lemma EmptyContainerIsRefused(code: u16)
    requires 94 <= code <= 96
    ensures ParseMap(SaveMap(Map(Around(code), [])), 0) == Failed(ValueError)
  {
    hide Bytes.Pack, Bytes.Unpack, Bytes.Read, Bytes.At, ParseFixed, ParseMaps;
    var b := SaveMap(Map(Around(code), []));
    assert MapBody(Map(Around(code), [])) == [] + [];
    assert b == Pack(code, 2) + (Pack(0, 2) + []);
    TwoOctets();
    WholeBuffer(b);
    ReadField(b, 0, code, 2, Pack(0, 2) + []);
    ReadField(b, 2, 0, 2, []);
  }

  lemma WholeBuffer(b: bytes)
    ensures At(b, 0, b)
  {
  }
}
