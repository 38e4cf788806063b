/** Octets, big-endian words and the slices Python's `buffer[i:j]` yields. */
module Bytes {
  newtype byte = x: int | 0 <= x < 256
  type bytes = seq<byte>
  type u16 = x: int | 0 <= x < 0x1_0000
  type u32 = x: int | 0 <= x < 0x1_0000_0000

  /** 256 to the power `w`: the number of values a `w`-octet word can hold. */
  function Span(w: nat): (r: nat)
    ensures r >= 1
  {
    if w == 0 then 1 else 256 * Span(w - 1)
  }

  function TwoTo(n: nat): (r: nat)
    ensures r >= 1
  {
    if n == 0 then 1 else 2 * TwoTo(n - 1)
  }

  lemma TwoOctets()
    ensures Span(2) == 0x1_0000
  {
    assert Span(1) == 256;
  }

  /** The low `w` octets of `n` in network byte order, as `struct.pack('!…')` writes them. */
  function Pack(n: nat, w: nat): (r: bytes)
    ensures |r| == w
    decreases w
  {
    if w == 0 then [] else Pack(n / 256, w - 1) + [(n % 256) as byte]
  }

  /** The number a big-endian octet string stands for. */
  function Unpack(s: bytes): (n: nat)
    ensures n < Span(|s|)
  {
    if s == [] then 0 else Unpack(s[..|s| - 1]) * 256 + s[|s| - 1] as int
  }

  lemma {:induction false} UnpackPack(n: nat, w: nat)
    requires n < Span(w)
    ensures Unpack(Pack(n, w)) == n
  {
    if w == 0 {
    } else {
      UnpackPack(n / 256, w - 1);
      assert Pack(n, w)[..w - 1] == Pack(n / 256, w - 1);
    }
  }

  lemma {:induction false} PackUnpack(s: bytes)
    ensures Pack(Unpack(s), |s|) == s
  {
    if s == [] {
    } else {
      PackUnpack(s[..|s| - 1]);
    }
  }

  /** `struct.unpack_from('!H', b, i)`, which raises `struct.error` outside the guard. */
  function Read(b: bytes, i: nat, w: nat): (n: nat)
    requires i + w <= |b|
    ensures n < Span(w)
  {
    Unpack(b[i..i + w])
  }

  /** Python's `b[i:j]` for non-negative bounds: never an error, possibly short. */
  function Slice(b: bytes, i: nat, j: int): (s: bytes)
    ensures i <= j <= |b| ==> s == b[i..j]
  {
    if j <= i || |b| <= i then [] else if j <= |b| then b[i..j] else b[i..]
  }

  lemma SplitAt(b: bytes, i: nat, j: nat, k: nat)
    requires i <= j <= k <= |b|
    ensures b[i..j] + b[j..k] == b[i..k]
  {
  }

  lemma SplitThreeOctets(b: bytes, i: nat, j: nat, k: nat)
    requires i + 3 <= j <= k <= |b|
    ensures [b[i], b[i + 1], b[i + 2]] + (b[i + 3..j] + b[j..k]) == b[i..k]
  {
  }

  /** The octets `s` stand in `b` at offset `i`. */
  predicate At(b: bytes, i: nat, s: bytes) {
    i + |s| <= |b| && b[i..i + |s|] == s
  }

  lemma SliceAt(b: bytes, i: nat, s: bytes)
    requires At(b, i, s)
    ensures i + |s| <= |b| && Slice(b, i, i + |s|) == s == b[i..i + |s|]
  {
  }

  lemma AtSplit(b: bytes, i: nat, s: bytes, t: bytes)
    ensures At(b, i, s + t) <==> At(b, i, s) && At(b, i + |s|, t)
  {
    if i + |s| + |t| <= |b| {
      assert b[i..i + |s + t|] == b[i..i + |s|] + b[i + |s|..i + |s| + |t|];
      assert (s + t)[..|s|] == s && (s + t)[|s|..] == t;
    }
  }

  /** A word packed in front of `rest` is read back, and `rest` stands behind it. */
  lemma ReadField(b: bytes, i: nat, n: nat, w: nat, rest: bytes)
    requires n < Span(w) && At(b, i, Pack(n, w) + rest)
    ensures i + w <= |b| && Read(b, i, w) == n && At(b, i + w, rest)
  {
    AtSplit(b, i, Pack(n, w), rest);
    UnpackPack(n, w);
  }

  /** Packing a word that was read gives the octets it was read from. */
  lemma WriteField(b: bytes, i: nat, w: nat, end: nat)
    requires i + w <= end <= |b|
    ensures Pack(Read(b, i, w), w) + b[i + w..end] == b[i..end]
  {
    PackUnpack(b[i..i + w]);
    assert b[i..i + w] + b[i + w..end] == b[i..end];
  }

  /** The same with something foreign behind the octets that were read. */
  lemma WriteFieldBefore(b: bytes, i: nat, w: nat, end: nat, tail: bytes)
    requires i + w <= end <= |b|
    ensures Pack(Read(b, i, w), w) + (b[i + w..end] + tail) == b[i..end] + tail
  {
    WriteField(b, i, w, end);
    assert Pack(Read(b, i, w), w) + (b[i + w..end] + tail) == (Pack(Read(b, i, w), w) + b[i + w..end]) + tail;
  }

  /** `s` re-encodes `b[p..p + used]`: the very same octets if `fits`, and more of them if not. */
  ghost predicate Resaved(s: bytes, b: bytes, p: nat, used: nat, fits: bool) {
    p + used <= |b| && if fits then s == b[p..p + used] else |s| > used
  }
}
