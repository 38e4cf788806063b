/**
 IPv6 addresses as the lease store keeps them: 39 characters of lower-case hexadecimal with
 nothing left out, compared as text because SQLite has no type for addresses.
 */
module Exploded {
  import opened Arithmetic

  /** 16 to the power `w`. */
  function Hexes(w: nat): (r: nat)
    ensures r >= 1
  {
    if w == 0 then 1 else 16 * Hexes(w - 1)
  }

  /** A 128-bit address. */
  type Address = n: nat | n < Hexes(32)

  function HexDigit(d: nat): char
    requires d < 16
  {
    if d < 10 then '0' + d as char else 'a' + (d - 10) as char
  }

  /** The low `w` hexadecimal digits of `n`. */
  function Hex(n: nat, w: nat): (s: string)
    ensures |s| == w
    decreases w
  {
    if w == 0 then "" else Hex(n / 16, w - 1) + [HexDigit(n % 16)]
  }

  /** The last `groups` groups of four digits, separated by colons. */
  function Groups(n: nat, groups: nat): (s: string)
    requires groups > 0
    ensures |s| == 5 * groups - 1
    decreases groups
  {
    if groups == 1 then Hex(n, 4) else Groups(n / 0x1_0000, groups - 1) + ":" + Hex(n % 0x1_0000, 4)
  }

  /** `IPv6Address.exploded`. */
  function Text(a: Address): (s: string)
    ensures |s| == 39
  {
    Groups(a, 8)
  }

  /** SQLite's BINARY order on text: the first difference decides, and a prefix comes first. */
  predicate TextLess(s: string, t: string) {
    t != "" && (s == "" || s[0] < t[0] || (s[0] == t[0] && TextLess(s[1..], t[1..])))
  }

  predicate TextLeq(s: string, t: string) { s == t || TextLess(s, t) }

  /** `x BETWEEN first AND last` */
  predicate Between(x: string, first: string, last: string) { TextLeq(first, x) && TextLeq(x, last) }

  lemma {:induction false} NotLessThanItself(s: string)
    ensures !TextLess(s, s)
  {
    if s != "" {
      NotLessThanItself(s[1..]);
    }
  }

  /** Texts with leading parts of one length are compared part by part. */
  lemma {:induction false} TextLessConcat(a: string, b: string, c: string, d: string)
    requires |a| == |b|
    ensures TextLess(a + c, b + d) <==> TextLess(a, b) || (a == b && TextLess(c, d))
  {
    if a == "" {
      assert a + c == c && b + d == d;
    } else {
      assert (a + c)[1..] == a[1..] + c && (b + d)[1..] == b[1..] + d;
      assert a == [a[0]] + a[1..] && b == [b[0]] + b[1..];
      TextLessConcat(a[1..], b[1..], c, d);
    }
  }

  lemma HexDigitOrder(d: nat, e: nat)
    requires d < 16 && e < 16
    ensures TextLess([HexDigit(d)], [HexDigit(e)]) <==> d < e
    ensures HexDigit(d) == HexDigit(e) <==> d == e
  {
    assert [HexDigit(d)][1..] == "" && [HexDigit(e)][1..] == "";
  }

  lemma {:induction false} HexOrder(m: nat, n: nat, w: nat)
    requires m < Hexes(w) && n < Hexes(w)
    ensures TextLess(Hex(m, w), Hex(n, w)) <==> m < n
    ensures Hex(m, w) == Hex(n, w) <==> m == n
    decreases w
  {
    if w == 0 {
    } else {
      HexOrder(m / 16, n / 16, w - 1);
      HexDigitOrder(m % 16, n % 16);
      var a, b, x, y := Hex(m / 16, w - 1), Hex(n / 16, w - 1), [HexDigit(m % 16)], [HexDigit(n % 16)];
      TextLessConcat(a, b, x, y);
      assert a + x == b + y <==> a == b && x == y by {
        assert (a + x)[..|a|] == a && (b + y)[..|b|] == b && (a + x)[|a|..] == x && (b + y)[|b|..] == y;
      }
    }
  }

  lemma {:induction false} GroupsOrder(m: nat, n: nat, groups: nat)
    requires groups > 0 && m < Hexes(4 * groups) && n < Hexes(4 * groups)
    ensures TextLess(Groups(m, groups), Groups(n, groups)) <==> m < n
    ensures Groups(m, groups) == Groups(n, groups) <==> m == n
    decreases groups
  {
    hide TextLess, Hex, Hexes;
    if groups == 1 {
      HexOrder(m, n, 4);
    } else {
      var base := 0x1_0000;
      HexesOfGroups(4 * groups);
      GroupsOrder(m / base, n / base, groups - 1);
      HexOrder(m % base, n % base, 4);
      var a, b := Groups(m / base, groups - 1), Groups(n / base, groups - 1);
      JoinOrder(a, b, Hex(m % base, 4), Hex(n % base, 4));
    }
  }

  lemma HexesOfGroups(w: nat)
    requires w >= 4
    ensures Hexes(w) == 0x1_0000 * Hexes(w - 4) && Hexes(4) == 0x1_0000
  {
    assert Hexes(w) == 16 * Hexes(w - 1) == 256 * Hexes(w - 2) == 4096 * Hexes(w - 3);
  }

  /** Parts joined by a colon are compared part by part. */
  lemma JoinOrder(a: string, b: string, x: string, y: string)
    requires |a| == |b|
    ensures TextLess(a + ":" + x, b + ":" + y) <==> TextLess(a, b) || (a == b && TextLess(x, y))
    ensures a + ":" + x == b + ":" + y <==> a == b && x == y
  {
    hide TextLess;
    NotLessThanItself(":");
    TextLessConcat(a, b, ":", ":");
    TextLessConcat(a + ":", b + ":", x, y);
    assert (a + ":" + x)[..|a|] == a && (b + ":" + y)[..|b|] == b;
    assert (a + ":" + x)[|a| + 1..] == x && (b + ":" + y)[|b| + 1..] == y;
    assert (a + ":")[..|a|] == a && (b + ":")[..|b|] == b;
  }

  /** Comparing exploded addresses as text is comparing 128-bit numbers. */
  lemma TextOrder(a: Address, b: Address)
    ensures TextLess(Text(a), Text(b)) <==> a < b
    ensures TextLeq(Text(a), Text(b)) <==> a <= b
    ensures Text(a) == Text(b) <==> a == b
  {
    GroupsOrder(a, b, 8);
  }

  /** So a range of texts holds exactly the addresses of the numeric range. */
  lemma TextBetween(x: Address, first: Address, last: Address)
    ensures Between(Text(x), Text(first), Text(last)) <==> first <= x <= last
  {
    TextOrder(first, x);
    TextOrder(x, last);
  }

  // ---- The text, character by character ------------------------------------------------------------------

  const DIGITS := "0123456789abcdef"

  lemma {:induction false} HexesProduct(m: nat, n: nat)
    ensures Hexes(m) * Hexes(n) == Hexes(m + n)
    decreases m
  {
    if m > 0 {
      var x, y, z := Hexes(m - 1), Hexes(n), Hexes(m - 1 + n);
      assert Hexes(m) == 16 * x && Hexes(m + n) == 16 * z;
      HexesProduct(m - 1, n);
      hide Hexes;
      Sixteenfold(x, y);
    }
  }

  lemma Sixteenfold(x: nat, y: nat)
    ensures 16 * x * y == 16 * (x * y)
  {
  }

  lemma {:induction false} HexAt(n: nat, w: nat, i: nat)
    requires i < w
    ensures Hex(n, w)[i] == DIGITS[n / Hexes(w - 1 - i) % 16]
    decreases w
  {
    if i < w - 1 {
      HexAt(n / 16, w - 1, i);
      DividedTwice(n, 16, Hexes(w - 2 - i));
    }
  }

  lemma Powers()
    ensures Hexes(0) == 1 && Hexes(1) == 16 && Hexes(2) == 256 && Hexes(3) == 4096 && Hexes(4) == 0x1_0000
  {
  }

  /** A digit of the remainder is that of the number itself. */
  lemma LowPart(n: nat, m: nat, d: nat, base: nat)
    requires m > 0 && d > 0 && base == m * (16 * d) && base > 0
    ensures n % base / m % 16 == n / m % 16
  {
    var k := Quotient(n, base);
    var r := n % base;
    var q := Quotient(r, m);
    Distribute(m, 16 * d, k, q);
    ModOfSum(m, (16 * d) * k + q, r % m);
    assert (16 * d) * k == 16 * (d * k);
    ModOfBlocks(16, d * k, q);
  }

  lemma LowDigit(n: nat, j: nat)
    requires j < 4
    ensures n % 0x1_0000 / Hexes(j) % 16 == n / Hexes(j) % 16
  {
    hide Hexes;
    Powers();
    match j {
      case 0 => LowPart(n, 1, 4096, 0x1_0000);
      case 1 => LowPart(n, 16, 256, 0x1_0000);
      case 2 => LowPart(n, 256, 16, 0x1_0000);
      case _ => LowPart(n, 4096, 1, 0x1_0000);
    }
  }

  function Digit(n: nat, j: nat): char { DIGITS[n / Hexes(j) % 16] }

  /** The last group holds the four low digits. */
  lemma LastGroup(n: nat, groups: nat, r: nat)
    requires groups > 0 && r < 4
    ensures Groups(n, groups)[5 * (groups - 1) + r] == Digit(n, 3 - r)
  {
    HexAt(if groups == 1 then n else n % 0x1_0000, 4, r);
    hide Hexes, Hex;
    LowDigit(n, 3 - r);
  }

  lemma HigherDigit(n: nat, j: nat)
    ensures Digit(n / 0x1_0000, j) == Digit(n, 4 + j)
  {
    hide Hexes;
    Powers();
    HexesProduct(4, j);
    DividedTwice(n, 0x1_0000, Hexes(j));
  }

  lemma {:induction false} GroupsAt(n: nat, groups: nat, i: nat)
    requires i < 5 * groups - 1
    ensures Groups(n, groups)[i] == if i % 5 == 4 then ':' else Digit(n, 4 * groups - 1 - (i - i / 5))
    decreases groups
  {
    hide Digit, Hex;
    var start := 5 * (groups - 1);
    if i >= start {
      LastGroup(n, groups, i - start);
    } else if i < start - 1 {
      GroupsAt(n / 0x1_0000, groups - 1, i);
      if i % 5 != 4 {
        HigherDigit(n, 4 * (groups - 1) - 1 - (i - i / 5));
      }
    }
  }

  /** Every fifth character is a colon; the others are the 32 digits of the address from the highest down. */
  lemma TextAt(a: Address, i: nat)
    requires i < 39
    ensures Text(a)[i] == if i % 5 == 4 then ':' else DIGITS[a / Hexes(31 - (i - i / 5)) % 16]
  {
    hide Groups;
    GroupsAt(a, 8, i);
  }
}
