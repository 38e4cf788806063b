/**
 The `load_from` and `save` methods with their loops and offsets, each proved to compute what
 `Codec` says. An element is built as a value where the source fills in a fresh object.
 */
module CodecLoops {
  import opened Bytes
  import opened Wire
  import opened LeafCodec
  import opened Codec

  /** What remains to be parsed, behind options already appended to the list. */
  function Behind<T>(options: seq<T>, used: nat, rest: Parsed<seq<T>>): Parsed<seq<T>> {
    match rest
    case Failed(e) => Failed(e)
    case Parsed(more, tail) => Parsed(used + more, options + tail)
  }

  lemma BehindOneMore<T>(options: seq<T>, used: nat, option: T, n: nat, rest: Parsed<seq<T>>)
    ensures Behind(options, used, Behind([option], n, rest)) == Behind(options + [option], used + n, rest)
  {
    if rest.Parsed? {
      assert options + ([option] + rest.value) == (options + [option]) + rest.value;
    }
  }

  lemma NothingBefore<T>(rest: Parsed<seq<T>>)
    ensures Behind([], 0, rest) == rest
  {
    if rest.Parsed? {
      assert [] + rest.value == rest.value;
    }
  }

  method LoadOptions(b: bytes, p: nat, end: nat) returns (r: Parsed<seq<Option>>)
    ensures r == ParseOptions(b, p, end)
    decreases if p < |b| then |b| - p else 0, 1
  {
    hide Codec.ParseOption, Codec.ParseOptions;
    var options: seq<Option> := [];
    var q := p;
    NothingBefore(ParseOptions(b, p, end));
    while end > q
      invariant p <= q && (p < q ==> q <= |b|)
      invariant ParseOptions(b, p, end) == Behind(options, q - p, ParseOptions(b, q, end))
      decreases end - q
    {
      NextOption(b, q, end);
      var parsed := LoadOption(b, q);
      if parsed.Failed? {
        return Failed(parsed.error);
      }
      BehindOneMore(options, q - p, parsed.value, parsed.used, ParseOptions(b, q + parsed.used, end));
      options := options + [parsed.value];
      q := q + parsed.used;
    }
    NextOption(b, q, end);
    assert options + [] == options;
    return Parsed(q - p, options);
  }

  /** The same for the two lists of length-prefixed strings. */
  function After<T>(done: seq<T>, rest: Result<seq<T>>): Result<seq<T>> {
    match rest
    case Err(e) => Err(e)
    case Ok(tail) => Ok(done + tail)
  }

  lemma AfterOneMore<T>(done: seq<T>, x: T, rest: Result<seq<T>>)
    ensures After(done, After([x], rest)) == After(done + [x], rest)
    ensures After([], rest) == rest
  {
    if rest.Ok? {
      assert done + ([x] + rest.value) == (done + [x]) + rest.value;
      assert [] + rest.value == rest.value;
    }
  }

  method LoadClasses(b: bytes, p: nat, end: nat) returns (r: Result<seq<bytes>>)
    ensures r == ParseClasses(b, p, end)
  {
    hide Bytes.Read;
    var classes: seq<bytes> := [];
    var q := p;
    AfterOneMore([], [], ParseClasses(b, p, end));
    while end > q
      invariant ParseClasses(b, p, end) == After(classes, ParseClasses(b, q, end))
      decreases end - q
    {
      if q + 2 > |b| {
        return Err(StructError);
      }
      var n := Read(b, q, 2);
      q := q + 2;
      var c := Slice(b, q, q + n);
      AfterOneMore(classes, c, ParseClasses(b, q + n, end));
      classes := classes + [c];
      q := q + n;
    }
    assert classes + [] == classes;
    return if q != end then Err(ValueError) else Ok(classes);
  }

  method LoadVendorOptions(b: bytes, p: nat, end: nat) returns (r: Result<seq<(u16, bytes)>>)
    ensures r == ParseVendorOptions(b, p, end)
  {
    hide Bytes.Read;
    var vs: seq<(u16, bytes)> := [];
    var q := p;
    AfterOneMore([], (0, []), ParseVendorOptions(b, p, end));
    while end > q
      invariant ParseVendorOptions(b, p, end) == After(vs, ParseVendorOptions(b, q, end))
      decreases end - q
    {
      if q + 4 > |b| {
        return Err(StructError);
      }
      var code, n := Read(b, q, 2), Read(b, q + 2, 2);
      q := q + 4;
      var v := (code, Slice(b, q, q + n));
      AfterOneMore(vs, v, ParseVendorOptions(b, q + n, end));
      vs := vs + [v];
      q := q + n;
    }
    assert vs + [] == vs;
    return if q != end then Err(ValueError) else Ok(vs);
  }

  method LoadLeaf(b: bytes, code: u16, p: nat, len: nat) returns (r: Result<Leaf>)
    requires p + len <= |b|
    requires LeafCode(code) && LeafLimits(code).0 <= len <= LeafLimits(code).1
    ensures r == ParseLeaf(b, code, p, len)
  {
    if code == OPTION_USER_CLASS {
      var classes := LoadClasses(b, p, p + len);
      r := match classes case Err(e) => Err(e) case Ok(cs) => Ok(UserClass(cs));
    } else if code == OPTION_VENDOR_CLASS {
      var classes := LoadClasses(b, p + 4, p + len);
      r := match classes case Err(e) => Err(e) case Ok(cs) => Ok(VendorClass(Read(b, p, 4), cs));
    } else if code == OPTION_VENDOR_OPTS {
      var vs := LoadVendorOptions(b, p + 4, p + len);
      r := match vs case Err(e) => Err(e) case Ok(os) => Ok(VendorOptions(Read(b, p, 4), os));
    } else {
      r := ParseLeaf(b, code, p, len);
    }
  }

  /** `Option.parse`: choose the class, check the option header, let the class load the rest. */
  method LoadOption(b: bytes, p: nat) returns (r: Parsed<Option>)
    ensures r == ParseOption(b, p)
    decreases if p < |b| then |b| - p else 0, 0
  {
    hide Bytes.Read, LeafCodec.ParseLeaf, Codec.ParseHeader, Codec.ParseOptions, Codec.ParseMessage;
    if p + 4 > |b| {
      return Failed(StructError);
    }
    var code, len := Read(b, p, 2), Read(b, p + 2, 2);
    var q := p + 4;
    if RegisteredCode(code) && !IsContainerCode(code) && !LeafCode(code) && code != OPTION_RELAY_MSG {
      return Failed(UnmodelledClass);
    }
    var limits := if IsContainerCode(code) then (HeaderLength(code), 0xffff)
                  else if code == OPTION_RELAY_MSG then (1, 0xffff)
                  else if LeafCode(code) then LeafLimits(code)
                  else (0, 0xffff);
    if len < limits.0 || len > limits.1 || q + len > |b| {
      return Failed(ValueError);
    }
    if IsContainerCode(code) {
      var header := ParseHeader(b, code, q);
      if header.Err? {
        return Failed(header.error);
      }
      var options := LoadOptions(b, q + HeaderLength(code), q + len);
      if options.Failed? {
        return Failed(options.error);
      }
      if HeaderLength(code) + options.used != len {
        return Failed(ValueError);
      }
      return Parsed(4 + len, Container(header.value, options.value));
    } else if code == OPTION_RELAY_MSG {
      var message := LoadMessage(b, q, len);
      if message.Failed? {
        return Failed(message.error);
      }
      if message.used != len {
        return Failed(ValueError);
      }
      return Parsed(4 + len, RelayMessage(message.value));
    } else if LeafCode(code) {
      var leaf := LoadLeaf(b, code, q, len);
      if leaf.Err? {
        return Failed(leaf.error);
      }
      return Parsed(4 + len, Leaf(leaf.value));
    } else {
      return Parsed(4 + len, Leaf(Raw(code, b[q..q + len])));
    }
  }

  method LoadMessage(b: bytes, p: nat, length: nat) returns (r: Parsed<Message>)
    ensures r == ParseMessage(b, p, length)
    decreases if p < |b| then |b| - p else 0, 2
  {
    hide Codec.ParseOptions;
    if p >= |b| {
      return Failed(IndexError);
    }
    var kind := b[p];
    var end := p + Limit(b, p, length);
    if IsClientServerKind(kind) {
      var options := LoadOptions(b, p + 4, end);
      if options.Failed? {
        return Failed(options.error);
      }
      return Parsed(4 + options.used, ClientServer(kind, Slice(b, p + 1, p + 4), options.value));
    } else if IsRelayKind(kind) {
      if p + 1 == |b| {
        return Failed(IndexError);
      }
      if p + 34 > |b| {
        return Failed(ValueError);
      }
      var options := LoadOptions(b, p + 34, end);
      if options.Failed? {
        return Failed(options.error);
      }
      return Parsed(34 + options.used, Relay(kind, b[p + 1], b[p + 2..p + 18], b[p + 18..p + 34], options.value));
    } else {
      return Parsed(end - p, UnknownMessage(kind, Slice(b, p + 1, end)));
    }
  }

  // ---- Saving: `struct.pack` raises when a length does not fit its 16 bits ------------------

  lemma SaveOptionsAppend(options: seq<Option>, i: nat)
    requires i < |options|
    ensures SaveOptions(options[i..]) == SaveOption(options[i]) + SaveOptions(options[i + 1..])
  {
    assert options[i..][1..] == options[i + 1..];
  }

  method StoreOptions(options: seq<Option>) returns (r: Result<bytes>)
    ensures r == if forall o <- options :: Encodable(o) then Ok(SaveOptions(options)) else Err(StructError)
    decreases options, 2
  {
    hide Codec.SaveOption, Codec.Encodable;
    var buffer: bytes := [];
    for i := 0 to |options|
      invariant forall o <- options[..i] :: Encodable(o)
      invariant buffer + SaveOptions(options[i..]) == SaveOptions(options)
    {
      SaveOptionsAppend(options, i);
      var option := StoreOption(options[i]);
      if option.Err? {
        assert !Encodable(options[i]);
        return Err(StructError);
      }
      assert buffer + (option.value + SaveOptions(options[i + 1..]))
          == (buffer + option.value) + SaveOptions(options[i + 1..]);
      buffer := buffer + option.value;
    }
    assert options[..|options|] == options && options[|options|..] == [] && buffer + [] == buffer;
    return Ok(buffer);
  }

  method StoreOption(option: Option) returns (r: Result<bytes>)
    ensures r == if Encodable(option) then Ok(SaveOption(option)) else Err(StructError)
    decreases option, 1
  {
    hide Bytes.Pack, LeafCodec.LeafBody, Codec.SaveOptions, Codec.SaveMessage, LeafCodec.EncodableLeaf;
    var body: bytes;
    match option {
      case Leaf(leaf) =>
        if !EncodableLeaf(leaf) {
          return Err(StructError);
        }
        body := LeafBody(leaf);
      case Container(header, options) =>
        var buffer := StoreOptions(options);
        if buffer.Err? {
          return Err(StructError);
        }
        body := SaveHeader(header) + buffer.value;
      case RelayMessage(message) =>
        var buffer := StoreMessage(message);
        if buffer.Err? {
          return Err(StructError);
        }
        body := buffer.value;
    }
    if |body| >= 0x1_0000 {
      return Err(StructError);
    }
    return Ok(Pack(OptionCode(option), 2) + (Pack(|body|, 2) + body));
  }

  method StoreMessage(message: Message) returns (r: Result<bytes>)
    ensures r == if EncodableMessage(message) then Ok(SaveMessage(message)) else Err(StructError)
    decreases message, 3
  {
    if message.UnknownMessage? {
      return Ok([message.kind] + message.data);
    }
    var buffer := StoreOptions(message.options);
    if buffer.Err? {
      return Err(StructError);
    }
    match message {
      case ClientServer(kind, transactionId, _) => return Ok([kind] + (transactionId + buffer.value));
      case Relay(kind, hopCount, link, peer, _) => return Ok([kind, hopCount] + (link + (peer + buffer.value)));
    }
  }
}
