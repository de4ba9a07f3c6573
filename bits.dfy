/**
 * Bytes and the bitwise operators Go applies to them.  A byte is a number
 * in 0..255; OR and AND are defined bit by bit, least significant first,
 * and Go's unary ^ on a byte is its complement 255 - b.
 */
module Bits {

  /** A Go byte (uint8). */
  type Byte = x: int | 0 <= x < 256

  /** 2^n. */
  function Pow2(n: nat): (r: nat)
    ensures r >= 1
  {
    if n == 0 then 1 else 2 * Pow2(n - 1)
  }

  /** Bitwise OR of two naturals. */
  function Or(a: nat, b: nat): nat
    decreases a + b
  {
    if a == 0 then b
    else if b == 0 then a
    else 2 * Or(a / 2, b / 2) + (if a % 2 == 1 || b % 2 == 1 then 1 else 0)
  }

  /** Bitwise AND of two naturals. */
  function And(a: nat, b: nat): nat
    decreases a + b
  {
    if a == 0 || b == 0 then 0
    else 2 * And(a / 2, b / 2) + (if a % 2 == 1 && b % 2 == 1 then 1 else 0)
  }

  /** Go's ^b on a byte: every one of its eight bits flipped. */
  function Not(b: Byte): Byte
  {
    255 - b
  }

  // ---- arithmetic helpers ----

  lemma MulMono(d: nat, a: nat, b: nat)
    requires a <= b
    ensures d * a <= d * b
  {
    assert d * b == d * a + d * (b - a);
  }

  /** Quotient and remainder are unique. */
  lemma ModUnique(v: nat, d: nat, q: nat, r: nat)
    requires d >= 1 && v == d * q + r && r < d
    ensures v % d == r && v / d == q
  {
    var q', r' := v / d, v % d;
    assert v == d * q' + r';
    if q' < q {
      MulMono(d, q' + 1, q);
      assert false;
    } else if q' > q {
      MulMono(d, q + 1, q');
      assert false;
    }
  }

  lemma {:induction false} Pow2Add(a: nat, b: nat)
    ensures Pow2(a + b) == Pow2(a) * Pow2(b)
  {
    if a > 0 {
      Pow2Add(a - 1, b);
      assert Pow2(a + b) == 2 * Pow2(a - 1 + b);
    }
  }

  lemma {:induction false} Pow2Mono(a: nat, b: nat)
    requires a <= b
    ensures Pow2(a) <= Pow2(b)
  {
    if a < b {
      Pow2Mono(a, b - 1);
    }
  }

  /** Splitting off the lowest bit: v mod 2^(h+1) is twice (v/2) mod 2^h plus v's low bit. */
  lemma HalfMod(v: nat, h: nat)
    ensures v % Pow2(h + 1) == 2 * ((v / 2) % Pow2(h)) + v % 2
  {
    var p := Pow2(h);
    var q, r := v / 2, v % 2;
    var q1, q0 := q / p, q % p;
    assert v == 2 * q + r;
    assert q == p * q1 + q0;
    assert v == (2 * p) * q1 + (2 * q0 + r);
    ModUnique(v, 2 * p, q1, 2 * q0 + r);
  }

  // ---- one bit at a time ----

  lemma OrStep(a: nat, b: nat)
    ensures Or(a, b) == 2 * Or(a / 2, b / 2) + (if a % 2 == 1 || b % 2 == 1 then 1 else 0)
  {
    if a == 0 {
      assert Or(a / 2, b / 2) == b / 2;
    } else if b == 0 {
      assert Or(a / 2, b / 2) == a / 2;
    }
  }

  lemma AndStep(a: nat, b: nat)
    ensures And(a, b) == 2 * And(a / 2, b / 2) + (if a % 2 == 1 && b % 2 == 1 then 1 else 0)
  {
  }

  /** OR never clears a bit, so it is at least its left operand. */
  lemma {:induction false} OrAtLeast(a: nat, c: nat)
    ensures Or(a, c) >= a
    decreases a + c
  {
    if a != 0 && c != 0 {
      OrAtLeast(a / 2, c / 2);
    }
  }

  /** OR of operands with no common bit is their sum. */
  lemma {:induction false} OrDisjoint(a: nat, c: nat)
    requires And(a, c) == 0
    ensures Or(a, c) == a + c
    decreases a + c
  {
    if a != 0 && c != 0 {
      OrDisjoint(a / 2, c / 2);
    }
  }

  /** OR of two k-bit numbers is a k-bit number. */
  lemma {:induction false} OrBound(a: nat, b: nat, k: nat)
    requires a < Pow2(k) && b < Pow2(k)
    ensures Or(a, b) < Pow2(k)
  {
    if k > 0 {
      OrBound(a / 2, b / 2, k - 1);
      OrStep(a, b);
    } else {
      assert a == 0 && b == 0;
    }
  }

  /** AND keeps only bits of its left operand. */
  lemma {:induction false} AndAtMost(a: nat, b: nat)
    ensures And(a, b) <= a
    decreases a + b
  {
    if a != 0 && b != 0 {
      AndAtMost(a / 2, b / 2);
    }
  }

  /** The low k bits of a, read as a number: a mod 2^k, one bit at a time. */
  function Low(a: nat, k: nat): nat
  {
    if k == 0 then 0 else 2 * Low(a / 2, k - 1) + a % 2
  }

  /** Low(a, k) is the remainder of a modulo 2^k. */
  lemma {:induction false} LowMod(a: nat, k: nat)
    ensures Low(a, k) == a % Pow2(k)
  {
    if k > 0 {
      LowMod(a / 2, k - 1);
      HalfMod(a, k - 1);
    } else {
      ModUnique(a, 1, a, 0);
    }
  }

  /** ORing in the low h bits clears nothing and sets those h bits. */
  lemma {:induction false} OrLow(a: nat, h: nat)
    ensures Or(a, Pow2(h) - 1) == a - Low(a, h) + Pow2(h) - 1
  {
    if h > 0 {
      var p := Pow2(h - 1);
      assert Pow2(h) == 2 * p;
      assert (2 * p - 1) / 2 == p - 1 && (2 * p - 1) % 2 == 1;
      OrLow(a / 2, h - 1);
      OrStep(a, 2 * p - 1);
    }
  }

  /** A k-bit number ANDed with k one-bits is itself. */
  lemma {:induction false} AndOnes(a: nat, k: nat)
    requires a < Pow2(k)
    ensures And(a, Pow2(k) - 1) == a
  {
    if k > 0 {
      AndOnes(a / 2, k - 1);
      AndStep(a, Pow2(k) - 1);
      assert (Pow2(k) - 1) / 2 == Pow2(k - 1) - 1;
    } else {
      assert a == 0;
    }
  }

  /** ANDing a k-bit number with the top k - h of k bits clears its low h bits. */
  lemma {:induction false} AndHigh(a: nat, k: nat, h: nat)
    requires h <= k && a < Pow2(k) && Pow2(h) <= Pow2(k)
    ensures And(a, Pow2(k) - Pow2(h)) == a - Low(a, h)
  {
    if h == 0 {
      AndOnes(a, k);
    } else {
      Pow2Mono(h - 1, k - 1);
      AndHigh(a / 2, k - 1, h - 1);
      AndStep(a, Pow2(k) - Pow2(h));
      assert (Pow2(k) - Pow2(h)) % 2 == 0;
      assert (Pow2(k) - Pow2(h)) / 2 == Pow2(k - 1) - Pow2(h - 1);
    }
  }

  /** With no common bit, an OR that leaves a unchanged added nothing. */
  lemma OrKeeps(a: nat, c: nat)
    requires And(a, c) == 0 && Or(a, c) == a
    ensures c == 0
  {
    OrDisjoint(a, c);
  }

  /** OR of two bytes, a byte that keeps every bit of the first. */
  function OrByte(a: Byte, b: Byte): (r: Byte)
    ensures r >= a
  {
    OrBound(a, b, 8);
    OrAtLeast(a, b);
    Or(a, b)
  }

  /** AND of two bytes, a byte that keeps only bits of the first. */
  function AndByte(a: Byte, b: Byte): (r: Byte)
    ensures r <= a
  {
    AndAtMost(a, b);
    And(a, b)
  }

  // ---- complements ----

  /** Halving a k-bit complement gives the (k-1)-bit complement of the half, and flips the low bit. */
  lemma ComplementHalf(m: nat, k: nat)
    requires 0 < k && m < Pow2(k)
    ensures (Pow2(k) - 1 - m) / 2 == Pow2(k - 1) - 1 - m / 2
    ensures (Pow2(k) - 1 - m) % 2 == 1 - m % 2
  {
    assert Pow2(k) == 2 * Pow2(k - 1);
  }

  /** ORing in the complement of a k-bit mask m leaves a's bits under m alone. */
  lemma ComplementOr(a: nat, m: nat, k: nat)
    requires a < Pow2(k) && m < Pow2(k)
    ensures And(Or(a, Pow2(k) - 1 - m), m) == And(a, m)
    ensures Or(Or(a, Pow2(k) - 1 - m), m) == Pow2(k) - 1
  {
    ComplementKeeps(a, m, k);
    ComplementFills(a, m, k);
  }

  lemma {:induction false} ComplementKeeps(a: nat, m: nat, k: nat)
    requires a < Pow2(k) && m < Pow2(k)
    ensures And(Or(a, Pow2(k) - 1 - m), m) == And(a, m)
  {
    var c := Pow2(k) - 1 - m;
    if k == 0 {
      assert a == 0 && m == 0;
    } else {
      ComplementHalf(m, k);
      ComplementKeeps(a / 2, m / 2, k - 1);
      OrStep(a, c);
      var o := Or(a, c);
      assert o / 2 == Or(a / 2, c / 2) && o % 2 == (if a % 2 == 1 || c % 2 == 1 then 1 else 0);
      AndStep(o, m);
      AndStep(a, m);
    }
  }

  lemma {:induction false} ComplementFills(a: nat, m: nat, k: nat)
    requires a < Pow2(k) && m < Pow2(k)
    ensures Or(Or(a, Pow2(k) - 1 - m), m) == Pow2(k) - 1
  {
    var c := Pow2(k) - 1 - m;
    if k == 0 {
      assert a == 0 && m == 0;
    } else {
      assert Pow2(k) == 2 * Pow2(k - 1);
      ComplementHalf(m, k);
      ComplementFills(a / 2, m / 2, k - 1);
      OrStep(a, c);
      var o := Or(a, c);
      assert o / 2 == Or(a / 2, c / 2) && o % 2 == (if a % 2 == 1 || c % 2 == 1 then 1 else 0);
      OrStep(o, m);
    }
  }

  /**
   * A k-bit r that agrees with a under the mask m and has every other
   * bit set is a ORed with the complement of m.
   */
  lemma {:induction false} Pinned(r: nat, a: nat, m: nat, k: nat)
    requires r < Pow2(k) && a < Pow2(k) && m < Pow2(k)
    requires And(r, m) == And(a, m) && Or(r, m) == Pow2(k) - 1
    ensures r == Or(a, Pow2(k) - 1 - m)
  {
    var c := Pow2(k) - 1 - m;
    if k == 0 {
      assert r == 0 && a == 0;
    } else {
      var p := Pow2(k - 1);
      assert Pow2(k) == 2 * p;
      ComplementHalf(m, k);
      AndStep(r, m);
      AndStep(a, m);
      OrStep(r, m);
      assert And(r / 2, m / 2) == And(a / 2, m / 2);
      assert Or(r / 2, m / 2) == p - 1;
      Pinned(r / 2, a / 2, m / 2, k - 1);
      OrStep(a, c);
    }
  }
}
