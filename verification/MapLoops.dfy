/** `load_from` and `save` of the MAP options with their loops, each proved to compute what `MapCodec` says. */
module MapLoops {
  import opened Bytes
  import opened LeafCodec
  import opened Codec
  import opened CodecLoops
  import opened MapCodec

  method LoadMaps(b: bytes, p: nat, end: nat) returns (r: Parsed<seq<MapOption>>)
    ensures r == ParseMaps(b, p, end)
    decreases if p < |b| then |b| - p else 0, 1
  {
    hide ParseMap, ParseMaps;
    var options: seq<MapOption> := [];
    var q := p;
    NothingBefore(ParseMaps(b, p, end));
    while end > q
      invariant p <= q && (p < q ==> q <= |b|)
      invariant ParseMaps(b, p, end) == Behind(options, q - p, ParseMaps(b, q, end))
      decreases end - q
    {
      NextMap(b, q, end);
      var parsed := LoadMap(b, q);
      if parsed.Failed? {
        return Failed(parsed.error);
      }
      BehindOneMore(options, q - p, parsed.value, parsed.used, ParseMaps(b, q + parsed.used, end));
      options := options + [parsed.value];
      q := q + parsed.used;
    }
    NextMap(b, q, end);
    assert options + [] == options;
    return Parsed(q - p, options);
  }

  /** `load_from` of the option at `p`, whatever its class. */
  method LoadMap(b: bytes, p: nat) returns (r: Parsed<MapOption>)
    ensures r == ParseMap(b, p)
    decreases if p < |b| then |b| - p else 0, 0
  {
    hide Bytes.Read, ParseFixed, ParseMaps, Codec.ParseOption;
    if p + 4 > |b| {
      return Failed(StructError);
    }
    var code, len, q := Read(b, p, 2), Read(b, p + 2, 2), p + 4;
    if !IsMapCode(code) {
      var other := LoadOption(b, p);
      return match other case Failed(e) => Failed(e) case Parsed(used, option) => Parsed(used, Other(option));
    }
    if len < Lengths(code).0 || len > Lengths(code).1 || q + len > |b| {
      return Failed(ValueError);
    }
    var fixed := ParseFixed(b, code, q);
    if fixed.Failed? {
      return Failed(fixed.error);
    }
    var offset := q + fixed.used;
    var options: seq<MapOption> := [];
    if Nests(code) {
      var parsed := LoadMaps(b, offset, q + len);
      if parsed.Failed? {
        return Failed(parsed.error);
      }
      options := parsed.value;
      offset := offset + parsed.used;
    }
    if offset != q + len {
      return Failed(ValueError);
    }
    return Parsed(4 + len, Map(fixed.value, options));
  }

  lemma SaveMapsAppend(options: seq<MapOption>, i: nat)
    requires i < |options|
    ensures SaveMaps(options[i..]) == SaveMap(options[i]) + SaveMaps(options[i + 1..])
  {
    assert options[i..][1..] == options[i + 1..];
  }

  method StoreMaps(options: seq<MapOption>) returns (r: Result<bytes>)
    ensures r == if forall o <- options :: EncodableMap(o) then Ok(SaveMaps(options)) else Err(StructError)
    decreases options, 2
  {
    hide SaveMap, EncodableMap;
    var buffer: bytes := [];
    for i := 0 to |options|
      invariant forall o <- options[..i] :: EncodableMap(o)
      invariant buffer + SaveMaps(options[i..]) == SaveMaps(options)
    {
      SaveMapsAppend(options, i);
      var option := StoreMap(options[i]);
      if option.Err? {
        assert !EncodableMap(options[i]);
        return Err(StructError);
      }
      assert buffer + (option.value + SaveMaps(options[i + 1..]))
          == (buffer + option.value) + SaveMaps(options[i + 1..]);
      buffer := buffer + option.value;
    }
    assert options[..|options|] == options && options[|options|..] == [] && buffer + [] == buffer;
    return Ok(buffer);
  }

  /** `save` of one option; a negative shift and a number too large for its field both count as `StructError`. */
  method StoreMap(option: MapOption) returns (r: Result<bytes>)
    ensures r == if EncodableMap(option) then Ok(SaveMap(option)) else Err(StructError)
    decreases option, 1
  {
    hide Bytes.Pack, SaveFixed, EncodableFixed, SaveMaps, Codec.SaveOption, Codec.Encodable;
    match option {
      case Other(o) =>
        r := StoreOption(o);
        OtherSaved(option);
      case Map(fixed, options) =>
        if !EncodableFixed(fixed) {
          return Err(StructError);
        }
        var buffer := StoreMaps(options);
        if buffer.Err? {
          return Err(StructError);
        }
        var body := SaveFixed(fixed) + buffer.value;
        if |body| >= 0x1_0000 {
          return Err(StructError);
        }
        return Ok(Pack(FixedCode(fixed), 2) + (Pack(|body|, 2) + body));
    }
  }

  lemma OtherSaved(option: MapOption)
    requires option.Other?
    ensures SaveMap(option) == SaveOption(option.option)
  {
  }
}
