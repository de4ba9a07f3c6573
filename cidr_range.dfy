/**
 * The numeric shape of an IPv4 CIDR block: its addresses are exactly the
 * numbers from the network address up to the last address, and there are
 * 2^(32 - prefix) of them.
 */
module CidrRange {
  import opened Bits
  import opened IPv4
  import opened Cidr

  /** How many addresses a block holds: 2^(32 - prefix). */
  function BlockSize(b: Block): (r: nat)
    ensures r >= 1
  {
    Pow2(32 - b.prefix)
  }

  /** The byte in which a block's prefix ends. */
  function Boundary(p: Prefix): (q: nat)
    ensures q < 4 && 8 * q <= p <= 8 * q + 8
  {
    if p == 32 then 3 else p / 8
  }

  /** How many of the prefix bits fall into the boundary byte. */
  function EdgeBits(p: Prefix): (r: nat)
    ensures r <= 8 && r == p - 8 * Boundary(p)
  {
    p - 8 * Boundary(p)
  }

  /** How many values the boundary byte ranges over inside the block. */
  function Span(p: Prefix): (h: nat)
    ensures h >= 1
  {
    Pow2(8 - EdgeBits(p))
  }

  // ---- one byte of a prefix mask ----

  /** A mask byte with `ones` leading ones is 256 - 2^(8 - ones). */
  lemma MaskByteValue(ones: nat)
    requires ones <= 8
    ensures MaskByte(ones) == 256 - Pow2(8 - ones)
  {
    if ones == 0 { assert MaskByte(0) == 0 && Pow2(8) == 256; }
    else if ones == 1 { assert MaskByte(1) == 128 && Pow2(7) == 128; }
    else if ones == 2 { assert MaskByte(2) == 192 && Pow2(6) == 64; }
    else if ones == 3 { assert MaskByte(3) == 224 && Pow2(5) == 32; }
    else if ones == 4 { assert MaskByte(4) == 240 && Pow2(4) == 16; }
    else if ones == 5 { assert MaskByte(5) == 248 && Pow2(3) == 8; }
    else if ones == 6 { assert MaskByte(6) == 252 && Pow2(2) == 4; }
    else if ones == 7 { assert MaskByte(7) == 254 && Pow2(1) == 2; }
    else { assert MaskByte(8) == 255 && Pow2(0) == 1; }
  }

  /** A multiple of h below 256, where h divides 256, leaves room for h more. */
  lemma AlignedBelow(n: nat, h: nat, k: nat, t: nat)
    requires h >= 1 && n == h * t && h * k == 256 && n < 256
    ensures n + h <= 256
  {
    if t >= k {
      MulMono(h, k, t);
      assert false;
    }
    MulMono(h, t + 1, k);
  }

  /** Rounding a down to a multiple of h. */
  lemma RoundDown(a: nat, h: nat)
    requires h >= 1
    ensures a - a % h == h * (a / h) && (a - a % h) % h == 0
  {
    ModUnique(a - a % h, h, a / h, 0);
  }

  /** Masking a byte with `ones` leading ones clears its low 8 - ones bits. */
  lemma MaskedValue(ones: nat, a: Byte)
    requires ones <= 8
    ensures AndByte(a, MaskByte(ones)) == a - a % Pow2(8 - ones)
  {
    MaskByteValue(ones);
    Pow2Mono(8 - ones, 8);
    AndHigh(a, 8, 8 - ones);
    LowMod(a, 8 - ones);
  }

  /** The network byte is a multiple of the span and leaves room for a whole span. */
  lemma NetByte(ones: nat, a: Byte)
    requires ones <= 8
    ensures var h := Pow2(8 - ones); var n := AndByte(a, MaskByte(ones));
      n % h == 0 && n + h <= 256
  {
    var h := Pow2(8 - ones);
    MaskedValue(ones, a);
    RoundDown(a, h);
    Pow2Add(8 - ones, ones);
    AlignedBelow(a - a % h, h, Pow2(ones), a / h);
  }

  /** With n a multiple of h, x - x % h is n exactly when x lies in n .. n + h - 1. */
  lemma FloorMatch(x: nat, n: nat, h: nat)
    requires h >= 1 && n % h == 0
    ensures x - x % h == n <==> n <= x < n + h
  {
    var c := n / h;
    RoundDown(n, h);
    if n <= x < n + h {
      ModUnique(x, h, c, x - n);
    }
  }

  /** A byte matches a network byte under the mask exactly when it lies in its span. */
  lemma MatchByte(ones: nat, n: Byte, x: Byte)
    requires ones <= 8 && n % Pow2(8 - ones) == 0
    ensures var m := MaskByte(ones);
      AndByte(n, m) == AndByte(x, m) <==> n <= x < n + Pow2(8 - ones)
  {
    MaskedValue(ones, n);
    MaskedValue(ones, x);
    FloorMatch(x, n, Pow2(8 - ones));
  }

  /** The last-address byte over a network byte sets its low 8 - ones bits. */
  lemma HostByte(ones: nat, n: Byte)
    requires ones <= 8 && n % Pow2(8 - ones) == 0
    ensures LastByte(n, MaskByte(ones)) == n + Pow2(8 - ones) - 1
  {
    MaskByteValue(ones);
    OrLow(n, 8 - ones);
    LowMod(n, 8 - ones);
  }

  /**
   * For the written byte a and the mask byte m with `ones` leading ones:
   * the network byte n = a & m leaves room for its whole span of
   * 2^(8 - ones) values, and the last-address byte is the top of that span.
   */
  lemma EdgeFacts(ones: nat, a: Byte)
    requires ones <= 8
    ensures var m := MaskByte(ones); var n := AndByte(a, m);
      n + Pow2(8 - ones) <= 256 && LastByte(n, m) == n + Pow2(8 - ones) - 1
  {
    NetByte(ones, a);
    HostByte(ones, AndByte(a, MaskByte(ones)));
  }

  /** A byte x agrees with the network byte under the mask exactly when it lies in the span. */
  lemma EdgeMatch(ones: nat, a: Byte, x: Byte)
    requires ones <= 8
    ensures var m := MaskByte(ones); var n := AndByte(a, m);
      AndByte(n, m) == AndByte(x, m) <==> n <= x < n + Pow2(8 - ones)
  {
    NetByte(ones, a);
    MatchByte(ones, AndByte(a, MaskByte(ones)), x);
  }

  // ---- the bytes of a block ----

  lemma MaskAt(p: Prefix, i: nat)
    requires i < 4
    ensures PrefixMask(p)[i] == MaskByte(ByteBits(p - 8 * i))
  {
  }

  /** Which mask bits each byte of a block gets. */
  lemma OnesAt(p: Prefix, i: nat)
    requires i < 4
    ensures var q := Boundary(p);
      ByteBits(p - 8 * i) == (if i < q then 8 else if i == q then EdgeBits(p) else 0)
  {
  }

  lemma NetAt(b: Block, i: nat)
    requires i < 4
    ensures Network(b)[i] == AndByte(b.addr[i], PrefixMask(b.prefix)[i])
  {
  }

  /** The boundary byte of the network and last addresses, byte by byte. */
  lemma EdgeBlock(b: Block)
    ensures var p, n, l := b.prefix, Network(b), Last(b); var q := Boundary(p);
      n[q] + Span(p) <= 256 && l[q] == n[q] + Span(p) - 1
  {
    var p := b.prefix;
    var q, ones := Boundary(p), EdgeBits(p);
    MaskAt(p, q);
    OnesAt(p, q);
    NetAt(b, q);
    EdgeFacts(ones, b.addr[q]);
  }

  /**
   * Away from the boundary byte, the last address agrees with the network
   * address before it, and after it the network is zero and the last
   * address is 0xFF.
   */
  lemma OuterByte(b: Block, i: nat)
    requires i < 4 && i != Boundary(b.prefix)
    ensures var p, n, l := b.prefix, Network(b), Last(b); var q := Boundary(p);
      (i < q ==> l[i] == n[i]) && (i > q ==> n[i] == 0 && l[i] == 0xFF)
  {
    MaskAt(b.prefix, i);
    OnesAt(b.prefix, i);
  }

  /**
   * An address is in a block exactly when it agrees with the network
   * address before the boundary byte and its boundary byte lies in the
   * span that starts at the network's boundary byte.
   */
  lemma ContainsBytes(b: Block, x: Address)
    ensures var p, n := b.prefix, Network(b); var q := Boundary(p);
      Contains(b, x) <==>
        AgreeBefore(x, n, q) && n[q] <= x[q] < n[q] + Span(p)
  {
    AgreeEach(Network(b), PrefixMask(b.prefix), x);
    forall i | 0 <= i < 4 {
      ByteMatch(b, x, i);
    }
  }

  /** x and n agree on every byte before byte q. */
  predicate AgreeBefore(x: Address, n: Address, q: nat)
  {
    (q > 0 ==> x[0] == n[0]) && (q > 1 ==> x[1] == n[1]) && (q > 2 ==> x[2] == n[2]) &&
    (q > 3 ==> x[3] == n[3])
  }

  /** How byte i of an address takes part in the membership test. */
  lemma ByteMatch(b: Block, x: Address, i: nat)
    requires i < 4
    ensures var p, n, m := b.prefix, Network(b), PrefixMask(b.prefix); var q := Boundary(p);
      var matches := AndByte(n[i], m[i]) == AndByte(x[i], m[i]);
      (i < q ==> (matches <==> x[i] == n[i])) &&
      (i == q ==> (matches <==> n[q] <= x[q] < n[q] + Span(p))) &&
      (i > q ==> matches)
  {
    var p, n := b.prefix, Network(b);
    var q := Boundary(p);
    MaskAt(p, i);
    OnesAt(p, i);
    if i < q {
      AndOnes(n[i], 8);
      AndOnes(x[i], 8);
    } else if i == q {
      EdgeByte(b, x);
    }
  }

  lemma EdgeByte(b: Block, x: Address)
    ensures var p, n := b.prefix, Network(b); var q := Boundary(p); var m := MaskByte(EdgeBits(p));
      AndByte(n[q], m) == AndByte(x[q], m) <==> n[q] <= x[q] < n[q] + Span(p)
  {
    var p := b.prefix;
    var q := Boundary(p);
    MaskAt(p, q);
    OnesAt(p, q);
    NetAt(b, q);
    EdgeMatch(EdgeBits(p), b.addr[q], x[q]);
  }

  // ---- from bytes to numbers ----

  /** The value of a 4-byte address, byte by byte. */
  lemma Value4(x: seq<Byte>)
    requires |x| == 4
    ensures Value(x) == x[0] as int * 16777216 + x[1] as int * 65536 + x[2] as int * 256 + x[3] as int
  {
    assert x[..3][..2] == x[..2];
    assert x[..2][..1] == x[..1];
    assert x[..1][..0] == [];
    assert Value(x[..1]) == x[0] as int;
    assert Value(x[..2]) == x[0] as int * 256 + x[1] as int;
    assert Value(x[..3]) == (x[0] as int * 256 + x[1] as int) * 256 + x[2] as int;
  }

  /** 2^(e + 8k) is 2^e times 256^k. */
  lemma {:induction false} Pow2Split(e: nat, k: nat)
    ensures Pow2(e + 8 * k) == Pow2(e) * Pow256(k)
  {
    if k > 0 {
      Pow2Split(e, k - 1);
      Pow2Add(e + 8 * (k - 1), 8);
      assert e + 8 * k == e + 8 * (k - 1) + 8;
      assert Pow2(8) == 256;
    }
  }

  /** 256^(3 - q) for a boundary byte q. */
  function Scale(q: nat): nat
    requires q < 4
  {
    if q == 0 then 16777216 else if q == 1 then 65536 else if q == 2 then 256 else 1
  }

  /** The size of a block is the span of its boundary byte times 256 per later byte. */
  lemma SizeSplit(b: Block)
    ensures BlockSize(b) == Span(b.prefix) * Scale(Boundary(b.prefix))
  {
    var p := b.prefix;
    var e, q := 8 - EdgeBits(p), Boundary(p);
    assert 32 - p == e + 8 * (3 - q);
    Pow2Split(e, 3 - q);
    assert Pow256(3 - q) == Scale(q) by {
      assert Pow256(3) == 16777216;
    }
  }

  /** The same, with the scale written out for each boundary byte. */
  lemma SizeCases(b: Block)
    ensures var q, h := Boundary(b.prefix), Span(b.prefix);
      (q == 0 ==> BlockSize(b) == h * 16777216) &&
      (q == 1 ==> BlockSize(b) == h * 65536) &&
      (q == 2 ==> BlockSize(b) == h * 256) &&
      (q == 3 ==> BlockSize(b) == h)
  {
    SizeSplit(b);
  }

  /** The bytes of a block's network and last addresses, as the numeric proofs use them. */
  lemma BlockShape(b: Block)
    ensures var p, n, l := b.prefix, Network(b), Last(b); var q := Boundary(p);
      n[q] + Span(p) <= 256 && l[q] == n[q] + Span(p) - 1 &&
      (forall i :: 0 <= i < q ==> l[i] == n[i]) &&
      (forall i :: q < i < 4 ==> n[i] == 0 && l[i] == 0xFF)
  {
    EdgeBlock(b);
    forall i | 0 <= i < 4 && i != Boundary(b.prefix)
      ensures i < Boundary(b.prefix) ==> Last(b)[i] == Network(b)[i]
      ensures i > Boundary(b.prefix) ==> Network(b)[i] == 0 && Last(b)[i] == 0xFF
    {
      OuterByte(b, i);
    }
  }

  /** The last address is the network address plus the block size minus one. */
  lemma LastValue(b: Block)
    ensures Value(Last(b)) == Value(Network(b)) + BlockSize(b) - 1
  {
    BlockShape(b);
    SizeCases(b);
    Value4(Last(b));
    Value4(Network(b));
  }

  /** A number with high part a lies in [a' * w, (a' + h) * w) exactly when a' <= a < a' + h. */
  lemma Window(v: nat, w: nat, a: nat, t: nat, a': nat, h: nat)
    requires w >= 1 && v == a * w + t && t < w
    ensures a' * w <= v < a' * w + h * w <==> a' <= a < a' + h
  {
    assert a' * w + h * w == (a' + h) * w;
    if a' <= a < a' + h {
      MulMono(w, a', a);
      MulMono(w, a + 1, a' + h);
    } else if a < a' {
      MulMono(w, a + 1, a');
    } else {
      MulMono(w, a' + h, a);
    }
  }

  /** Within one byte's span, the higher bytes must agree. */
  lemma Digit(vp: nat, c: nat, vp': nat, d: nat, h: nat)
    requires c < 256 && d + h <= 256 && h >= 1
    ensures 256 * vp' + d <= 256 * vp + c < 256 * vp' + d + h <==> vp == vp' && d <= c < d + h
  {
  }

  /** Boundary byte 0: only the first byte is constrained. */
  lemma Range0(x0: nat, x1: nat, x2: nat, x3: nat, n0: nat, h: nat)
    requires x1 < 256 && x2 < 256 && x3 < 256 && n0 + h <= 256 && h >= 1
    ensures var v := x0 * 16777216 + x1 * 65536 + x2 * 256 + x3;
      n0 * 16777216 <= v < n0 * 16777216 + h * 16777216 <==> n0 <= x0 < n0 + h
  {
    Window(x0 * 16777216 + x1 * 65536 + x2 * 256 + x3, 16777216, x0, x1 * 65536 + x2 * 256 + x3, n0, h);
  }

  /** Boundary byte 1: the first byte agrees, the second lies in the span. */
  lemma Range1(x0: nat, x1: nat, x2: nat, x3: nat, n0: nat, n1: nat, h: nat)
    requires x1 < 256 && x2 < 256 && x3 < 256 && n1 + h <= 256 && h >= 1
    ensures var v := x0 * 16777216 + x1 * 65536 + x2 * 256 + x3;
      var n := n0 * 16777216 + n1 * 65536;
      n <= v < n + h * 65536 <==> x0 == n0 && n1 <= x1 < n1 + h
  {
    Window(x0 * 16777216 + x1 * 65536 + x2 * 256 + x3, 65536, x0 * 256 + x1, x2 * 256 + x3,
           n0 * 256 + n1, h);
    Digit(x0, x1, n0, n1, h);
  }

  /** Boundary byte 2: the first two bytes agree, the third lies in the span. */
  lemma Range2(x0: nat, x1: nat, x2: nat, x3: nat, n0: nat, n1: nat, n2: nat, h: nat)
    requires x1 < 256 && x2 < 256 && x3 < 256 && n1 < 256 && n2 + h <= 256 && h >= 1
    ensures var v := x0 * 16777216 + x1 * 65536 + x2 * 256 + x3;
      var n := n0 * 16777216 + n1 * 65536 + n2 * 256;
      n <= v < n + h * 256 <==> x0 == n0 && x1 == n1 && n2 <= x2 < n2 + h
  {
    Window(x0 * 16777216 + x1 * 65536 + x2 * 256 + x3, 256, x0 * 65536 + x1 * 256 + x2, x3,
           n0 * 65536 + n1 * 256 + n2, h);
    Digit(x0 * 256 + x1, x2, n0 * 256 + n1, n2, h);
    if x0 * 256 + x1 == n0 * 256 + n1 {
      Digits(x0, x1, n0, n1);
    }
  }

  /** Boundary byte 3: the first three bytes agree, the last lies in the span. */
  lemma Range3(x0: nat, x1: nat, x2: nat, x3: nat, n0: nat, n1: nat, n2: nat, n3: nat, h: nat)
    requires x1 < 256 && x2 < 256 && x3 < 256 && n1 < 256 && n2 < 256 && n3 + h <= 256 && h >= 1
    ensures var v := x0 * 16777216 + x1 * 65536 + x2 * 256 + x3;
      var n := n0 * 16777216 + n1 * 65536 + n2 * 256 + n3;
      n <= v < n + h <==> x0 == n0 && x1 == n1 && x2 == n2 && n3 <= x3 < n3 + h
  {
    Digit(x0 * 65536 + x1 * 256 + x2, x3, n0 * 65536 + n1 * 256 + n2, n3, h);
    if x0 * 65536 + x1 * 256 + x2 == n0 * 65536 + n1 * 256 + n2 {
      Digits(x0 * 256 + x1, x2, n0 * 256 + n1, n2);
      Digits(x0, x1, n0, n1);
    }
  }

  /** Base-256 digits are unique. */
  lemma Digits(a: nat, c: nat, a': nat, c': nat)
    requires c < 256 && c' < 256 && 256 * a + c == 256 * a' + c'
    ensures a == a' && c == c'
  {
  }

  /** The numeric side of the membership test, byte by byte. */
  lemma RangeBytes(b: Block, x: Address)
    ensures var p, n := b.prefix, Network(b); var q := Boundary(p);
      Value(n) <= Value(x) < Value(n) + BlockSize(b) <==>
        AgreeBefore(x, n, q) && n[q] <= x[q] < n[q] + Span(p)
  {
    var n, q, h := Network(b), Boundary(b.prefix), Span(b.prefix);
    BlockShape(b);
    SizeCases(b);
    Value4(x);
    Value4(n);
    if q == 0 {
      Range0(x[0], x[1], x[2], x[3], n[0], h);
    } else if q == 1 {
      Range1(x[0], x[1], x[2], x[3], n[0], n[1], h);
    } else if q == 2 {
      Range2(x[0], x[1], x[2], x[3], n[0], n[1], n[2], h);
    } else {
      Range3(x[0], x[1], x[2], x[3], n[0], n[1], n[2], n[3], h);
    }
  }

  /**
   * ipnet.Contains holds exactly for the addresses whose value lies from
   * the network address to the network address plus the block size
   * minus one.
   */
  lemma ContainsRange(b: Block, x: Address)
    ensures Contains(b, x) <==>
      Value(Network(b)) <= Value(x) < Value(Network(b)) + BlockSize(b)
  {
    ContainsBytes(b, x);
    RangeBytes(b, x);
  }
}
