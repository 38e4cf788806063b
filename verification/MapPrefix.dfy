/** The bit arithmetic of the MAP options: prefixes cut to whole octets, and left-aligned port-set ids. */
module MapPrefix {
  import opened Bytes
  import opened Arithmetic
  import opened Codec

  /** `math.ceil(length / 8)`: the octets a prefix of `n` bits needs. */
  function Octets(n: nat): nat { (n + 7) / 8 }

  /** `ljust(16, b'\x00')`. */
  function Padded(s: bytes): (r: bytes)
    requires |s| <= 16
    ensures |r| == 16
  {
    s + seq(16 - |s|, _ => 0)
  }

  /** An octet without its bits from bit `keep` on. */
  function MaskOctet(x: byte, keep: int): byte {
    if keep <= 0 then 0 else if keep >= 8 then x else Cleared(x, 8 - keep)
  }

  function Cleared(x: byte, low: nat): byte { (x as int - Rest(x as int, TwoTo(low))) as byte }

  function Rest(x: nat, m: nat): (r: nat)
    requires m > 0
    ensures r <= x && r == x % m
  {
    if x < m then x else x % m
  }

  /** The network that `strict=False` makes of an address: no bit from bit `n` on. */
  function Masked(a: bytes, n: nat): (r: bytes)
    ensures |r| == |a|
  {
    seq(|a|, i requires 0 <= i < |a| => MaskOctet(a[i], n - 8 * i))
  }

  lemma ClearedIsMultiple(x: byte, low: nat)
    ensures Cleared(x, low) as int % TwoTo(low) == 0
    ensures Cleared(x, low) == x <==> x as int % TwoTo(low) == 0
  {
    hide TwoTo;
    var m := TwoTo(low);
    var k := Quotient(x as int, m);
    ModOfSum(m, k, 0);
  }

  /** Masking gives a network without host bits, and changes nothing else. */
  lemma MaskedIsNetwork(a: bytes, n: nat)
    ensures ZeroBeyond(Masked(a, n), n)
    ensures Masked(a, n) == a <==> ZeroBeyond(a, n)
  {
    forall i: nat | i < |a|
      ensures var keep := n - 8 * i; 0 < keep < 8 ==> Masked(a, n)[i] as int % TwoTo(8 - keep) == 0
      ensures var keep := n - 8 * i; 0 < keep < 8 ==> (Masked(a, n)[i] == a[i] <==> a[i] as int % TwoTo(8 - keep) == 0)
    {
      var keep := n - 8 * i;
      if 0 < keep < 8 {
        ClearedIsMultiple(a[i], 8 - keep);
      }
    }
    hide TwoTo, Cleared;
    if Masked(a, n) == a {
      forall i: nat | i < |a|
        ensures var keep := n - 8 * i;
                if keep <= 0 then a[i] == 0 else keep < 8 ==> a[i] as int % TwoTo(8 - keep) == 0
      {
        assert Masked(a, n)[i] == a[i];
      }
    }
  }

  /** Cutting a network to whole octets and padding it back loses nothing. */
  lemma CutAndPad(a: bytes, n: nat)
    requires |a| == 16 && n <= 128 && ZeroBeyond(a, n)
    ensures Padded(a[..Octets(n)]) == a
  {
    hide TwoTo;
    forall i: nat | i < 16 ensures Padded(a[..Octets(n)])[i] == a[i] {
      if i >= Octets(n) {
        assert n - 8 * i <= 0;
      }
    }
  }

  /** Cutting what was read gives the octets that were read, unless they carry host bits. */
  lemma PadAndCut(s: bytes, n: nat)
    requires n <= 128 && |s| == Octets(n)
    ensures Masked(Padded(s), n)[..Octets(n)] == s <==> ZeroBeyond(Padded(s), n)
  {
    var a := Padded(s);
    MaskedIsNetwork(a, n);
    hide TwoTo, MaskOctet;
    assert a[..Octets(n)] == s;
    if Masked(a, n)[..Octets(n)] == s {
      forall i: nat | i < 16 ensures Masked(a, n)[i] == a[i] {
        if i < Octets(n) {
          assert Masked(a, n)[..Octets(n)][i] == s[i];
        } else {
          BeyondIsZero(a[i], n - 8 * i);
        }
      }
    }
  }

  lemma BeyondIsZero(x: byte, keep: int)
    requires keep <= 0
    ensures MaskOctet(x, keep) == 0
  {
  }

  // ---- Port-set ids --------------------------------------------------------------------------------

  /** `psid << (16 - psid_len)`. */
  function LeftAligned(psid: nat, len: nat): nat
    requires len <= 16
  {
    psid * TwoTo(16 - len)
  }

  /** `raw_psid >> (16 - psid_len)`. */
  function RightAligned(raw: nat, len: nat): nat
    requires len <= 16
  {
    Divided(raw, TwoTo(16 - len))
  }

  function Divided(x: nat, m: nat): nat
    requires m > 0
  {
    x / m
  }

  /** The left-aligned form fits 16 bits exactly for ids of the announced length, and shifts back. */
  lemma PsidFitsAndShiftsBack(psid: nat, len: nat)
    requires len <= 16
    ensures LeftAligned(psid, len) < 0x1_0000 <==> psid < TwoTo(len)
    ensures RightAligned(LeftAligned(psid, len), len) == psid
  {
    TwoToProduct(len, 16 - len);
    SixteenBits();
    hide TwoTo;
    Scale(psid, TwoTo(len), TwoTo(16 - len));
    ModOfSum(TwoTo(16 - len), psid, 0);
  }

  /** What was read shifts back to the same word exactly when no bit below the id is set. */
  lemma RawPsidComesBack(raw: nat, len: nat)
    requires len <= 16 && raw < 0x1_0000
    ensures RightAligned(raw, len) < TwoTo(len)
    ensures LeftAligned(RightAligned(raw, len), len) < 0x1_0000
    ensures LeftAligned(RightAligned(raw, len), len) == raw <==> raw % TwoTo(16 - len) == 0
  {
    var m := TwoTo(16 - len);
    TwoToProduct(len, 16 - len);
    SixteenBits();
    hide TwoTo;
    var k := Quotient(raw, m);
    assert k * m <= raw;
    Scale(k, TwoTo(len), m);
  }
}
