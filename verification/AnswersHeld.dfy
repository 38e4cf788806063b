/** Which addresses and prefixes an option holds, and which options a handler takes responsibility for. */
module AnswersHeld {
  import opened Bytes
  import opened Wire
  import opened Collections
  import opened Arithmetic
  import opened Answers

  // ---- Reading the options --------------------------------------------------------------------------

  predicate AsNa(o: Option) { o.Container? && o.header.IaNa? }

  predicate AsPd(o: Option) { o.Container? && o.header.IaPd? }

  predicate IsAddress(sub: Option, a: Address) {
    sub.Container? && sub.header.IaAddress? && sub.header.address == a
  }

  predicate IsPrefix(sub: Option, p: Network) {
    sub.Container? && sub.header.IaPrefix? && sub.header.network == p.address && sub.header.prefixLength == p.length
  }

  predicate HoldsAddress(o: Option, a: Address) { o.Container? && exists sub <- o.options :: IsAddress(sub, a) }

  predicate HoldsPrefix(o: Option, p: Network) { o.Container? && exists sub <- o.options :: IsPrefix(sub, p) }

  lemma {:induction false} AddressesHeld(options: seq<Option>, a: Address)
    ensures a in AddressesIn(options) <==> exists sub <- options :: IsAddress(sub, a)
  {
    if options != [] {
      AddressesHeld(options[1..], a);
      assert options == [options[0]] + options[1..];
      assert a in AddressesIn(options) <==> IsAddress(options[0], a) || a in AddressesIn(options[1..]);
      hide IsAddress;
      assert forall sub :: sub in options <==> sub == options[0] || sub in options[1..];
    }
  }

  lemma {:induction false} PrefixesHeld(options: seq<Option>, p: Network)
    ensures p in PrefixesIn(options) <==> exists sub <- options :: IsPrefix(sub, p)
  {
    if options != [] {
      PrefixesHeld(options[1..], p);
      assert options == [options[0]] + options[1..];
      assert p in PrefixesIn(options) <==> IsPrefix(options[0], p) || p in PrefixesIn(options[1..]);
      hide IsPrefix;
      assert forall sub :: sub in options <==> sub == options[0] || sub in options[1..];
    }
  }

  /** The addresses and prefixes of a list are those of its parts, in order. */
  lemma {:induction false} HeldInOrder(a: seq<Option>, b: seq<Option>)
    ensures AddressesIn(a + b) == AddressesIn(a) + AddressesIn(b)
    ensures PrefixesIn(a + b) == PrefixesIn(a) + PrefixesIn(b)
  {
    if a == [] {
      assert a + b == b;
    } else {
      HeldInOrder(a[1..], b);
      assert (a + b)[1..] == a[1..] + b && (a + b)[0] == a[0];
      HeadFirst(a);
      HeadFirst(a + b);
      Associative(AddressesIn([a[0]]), AddressesIn(a[1..]), AddressesIn(b));
      Associative(PrefixesIn([a[0]]), PrefixesIn(a[1..]), PrefixesIn(b));
    }
  }

  lemma HeldByOne(o: Option)
    ensures AddressesIn([o]) == if o.Container? && o.header.IaAddress? then [o.header.address] else []
    ensures PrefixesIn([o]) == if o.Container? && o.header.IaPrefix?
                               then [Network(o.header.network, o.header.prefixLength)] else []
  {
    var none := [o][1..];
    assert none == [] && AddressesIn(none) == [] && PrefixesIn(none) == [];
  }

  lemma HeadFirst(a: seq<Option>)
    requires a != []
    ensures AddressesIn(a) == AddressesIn([a[0]]) + AddressesIn(a[1..])
    ensures PrefixesIn(a) == PrefixesIn([a[0]]) + PrefixesIn(a[1..])
  {
    HeldByOne(a[0]);
    var addresses, prefixes := AddressesIn([a[0]]), PrefixesIn([a[0]]);
    assert AddressesIn(a) == addresses + AddressesIn(a[1..]);
    assert PrefixesIn(a) == prefixes + PrefixesIn(a[1..]);
  }

  // ---- Overlapping prefixes ---------------------------------------------------------------------------

  /** The 128-bit number `a` is an address of the network. */
  predicate Contains(p: Network, a: nat)
    requires p.length <= 128
  {
    var size := TwoTo(128 - p.length as nat);
    var first := Unpack(p.address) - Unpack(p.address) % size;
    first <= a < first + size
  }

  lemma ContainsIff(p: Network, a: nat)
    requires p.length <= 128
    ensures Contains(p, a) <==>
              a / TwoTo(128 - p.length as nat) == Unpack(p.address) / TwoTo(128 - p.length as nat)
  {
    var size := TwoTo(128 - p.length as nat);
    var k := Quotient(Unpack(p.address), size);
    var j := Quotient(a, size);
    if j < k {
      Multiply(size, j, k);
    } else if k < j {
      Multiply(size, k, j);
    }
  }

  /** Two networks overlap exactly when they have an address in common. */
  lemma OverlapsIff(p: Network, q: Network)
    requires p.length <= 128 && q.length <= 128
    ensures Overlaps(p, q) <==> exists a: nat :: Contains(p, a) && Contains(q, a)
  {
    hide Contains, Unpack, TwoTo;
    if p.length < q.length {
      LongerInside(q, p);
    } else {
      LongerInside(p, q);
    }
  }

  lemma LongerInside(long: Network, short: Network)
    requires short.length <= long.length <= 128
    ensures (exists a: nat :: Contains(long, a) && Contains(short, a)) <==>
              var size := TwoTo(128 - short.length as nat);
              Unpack(long.address) / size == Unpack(short.address) / size
  {
    hide Contains, Unpack;
    var x := Unpack(long.address);
    ContainsIff(long, x);
    ContainsIff(short, x);
    if a: nat :| Contains(long, a) && Contains(short, a) {
      ContainsIff(long, a);
      ContainsIff(short, a);
      SameLongerBits(a, x, 128 - long.length as nat, 128 - short.length as nat);
    }
  }

  lemma SameLongerBits(a: nat, x: nat, m: nat, n: nat)
    requires m <= n && a / TwoTo(m) == x / TwoTo(m)
    ensures a / TwoTo(n) == x / TwoTo(n)
  {
    TwoToProduct(m, n - m);
    DividedTwice(a, TwoTo(m), TwoTo(n - m));
    DividedTwice(x, TwoTo(m), TwoTo(n - m));
  }

  /** A prefix option that overlaps `p`. */
  predicate IsOverlapping(sub: Option, p: Network) {
    sub.Container? && sub.header.IaPrefix? && Overlaps(p, Network(sub.header.network, sub.header.prefixLength))
  }

  lemma OverlapHeld(options: seq<Option>, p: Network)
    ensures OverlapsAny(p, PrefixesIn(options)) <==> exists sub <- options :: IsOverlapping(sub, p)
  {
    hide Overlaps;
    if OverlapsAny(p, PrefixesIn(options)) {
      var r :| r in PrefixesIn(options) && Overlaps(p, r);
      PrefixesHeld(options, r);
      var sub :| sub in options && IsPrefix(sub, r);
      assert IsOverlapping(sub, p);
    }
    if sub :| sub in options && IsOverlapping(sub, p) {
      var r := Network(sub.header.network, sub.header.prefixLength);
      PrefixesHeld(options, r);
      assert IsPrefix(sub, r);
    }
  }

  /** What a handler takes responsibility for. */
  ghost predicate IsItsOwn(c: Assigner, o: Option) {
    || (AsNa(o) && c.address.Some? && HoldsAddress(o, c.address.value))
    || (AsPd(o) && c.prefix.Some? && exists sub <- o.options :: IsOverlapping(sub, c.prefix.value))
  }

  lemma RecognisesIff(c: Assigner, o: Option)
    requires IsIa(o)
    ensures Recognises(c, o) <==> IsItsOwn(c, o)
  {
    hide Overlaps, OverlapsAny;
    if AsNa(o) && c.address.Some? {
      AddressesHeld(o.options, c.address.value);
    }
    if AsPd(o) && c.prefix.Some? {
      OverlapHeld(o.options, c.prefix.value);
    }
  }
}
