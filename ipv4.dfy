/**
 * Addresses as Go's net.IP holds them: a slice of bytes, most significant
 * byte first.  An IPv4 address is such a slice of length four.  This module
 * gives the numeric meaning of a byte slice and models incrementIP, which
 * adds one to an address in place.
 */
module IPv4 {
  import opened Bits

  /** An IPv4 address in its 4-byte form. */
  type Address = s: seq<Byte> | |s| == 4 witness [0, 0, 0, 0]

  /** 256^n, the number of distinct byte slices of length n. */
  function Pow256(n: nat): (r: nat)
    ensures r >= 1
  {
    if n == 0 then 1 else 256 * Pow256(n - 1)
  }

  /** The unsigned big-endian number a byte slice stands for. */
  function Value(s: seq<Byte>): (v: nat)
    ensures v < Pow256(|s|)
  {
    if |s| == 0 then 0 else Value(s[..|s| - 1]) * 256 + s[|s| - 1]
  }

  /** The n-byte big-endian encoding of v modulo 256^n. */
  function ToBytes(v: nat, n: nat): (r: seq<Byte>)
    ensures |r| == n
  {
    if n == 0 then [] else ToBytes(v / 256, n - 1) + [v % 256]
  }

  /** n bytes of the given value. */
  function Fill(n: nat, b: Byte): (r: seq<Byte>)
    ensures |r| == n && forall i :: 0 <= i < n ==> r[i] == b
  {
    seq(n, _ => b)
  }

  lemma {:induction false} MulMod(v: nat, p: nat)
    requires p >= 1
    ensures (v / 256) % p * 256 + v % 256 == v % (256 * p)
  {
    var q, r := v / 256, v % 256;
    var q1, q0 := q / p, q % p;
    assert v == 256 * q + r;
    assert q == p * q1 + q0;
    assert v == (256 * p) * q1 + (256 * q0 + r);
    assert 0 <= 256 * q0 + r < 256 * p;
    ModUnique(v, 256 * p, q1, 256 * q0 + r);
  }

  lemma ShiftByte(x: int, p: int, y: int, c: int)
    ensures (x * p + y) * 256 + c == x * (256 * p) + (y * 256 + c)
  {
  }

  lemma MulSucc(y: int, x: int, p: int)
    requires y == x + 1
    ensures y * p == x * p + p
  {
  }

  /** Appending bytes shifts the prefix's value by whole bytes. */
  lemma {:induction false} ValueAppend(a: seq<Byte>, b: seq<Byte>)
    ensures Value(a + b) == Value(a) * Pow256(|b|) + Value(b)
  {
    if |b| > 0 {
      var b' := b[..|b| - 1];
      assert (a + b)[..|a + b| - 1] == a + b';
      assert (a + b)[|a + b| - 1] == b[|b| - 1];
      ValueAppend(a, b');
      ShiftByte(Value(a), Pow256(|b'|), Value(b'), b[|b| - 1]);
    } else {
      assert a + b == a;
    }
  }

  /** Decoding an encoding gives back the number modulo 256^n. */
  lemma {:induction false} ValueOfToBytes(v: nat, n: nat)
    ensures Value(ToBytes(v, n)) == v % Pow256(n)
  {
    if n > 0 {
      var r := ToBytes(v, n);
      assert r[..n - 1] == ToBytes(v / 256, n - 1);
      ValueOfToBytes(v / 256, n - 1);
      assert Value(r) == (v / 256) % Pow256(n - 1) * 256 + v % 256;
      MulMod(v, Pow256(n - 1));
    } else {
      ModUnique(v, 1, v, 0);
    }
  }

  /** The last byte is the value modulo 256; the others are the quotient. */
  lemma SplitLast(a: seq<Byte>)
    requires |a| > 0
    ensures Value(a) % 256 == a[|a| - 1]
    ensures Value(a) / 256 == Value(a[..|a| - 1])
  {
    ModUnique(Value(a), 256, Value(a[..|a| - 1]), a[|a| - 1]);
  }

  /** Two slices of one length with one value are the same slice. */
  lemma {:induction false} ValueInjective(a: seq<Byte>, b: seq<Byte>)
    requires |a| == |b| && Value(a) == Value(b)
    ensures a == b
  {
    if |a| > 0 {
      var n := |a|;
      SplitLast(a);
      SplitLast(b);
      ValueInjective(a[..n - 1], b[..n - 1]);
      assert a == a[..n - 1] + [a[n - 1]];
      assert b == b[..n - 1] + [b[n - 1]];
    }
  }

  /** Encoding the value of a slice in its own length gives the slice back. */
  lemma ToBytesOfValue(s: seq<Byte>)
    ensures ToBytes(Value(s), |s|) == s
  {
    ValueOfToBytes(Value(s), |s|);
    ModUnique(Value(s), Pow256(|s|), 0, Value(s));
    ValueInjective(ToBytes(Value(s), |s|), s);
  }

  /** The slice whose value is v is the encoding of v. */
  lemma EncodingOf(t: seq<Byte>, v: nat)
    requires Value(t) == v
    ensures ToBytes(v, |t|) == t
  {
    ToBytesOfValue(t);
  }

  /** A slice of 0xFF bytes is the largest number of its length. */
  lemma {:induction false} AllOnesValue(n: nat)
    ensures Value(Fill(n, 0xFF)) == Pow256(n) - 1
  {
    if n > 0 {
      assert Fill(n, 0xFF)[..n - 1] == Fill(n - 1, 0xFF);
      AllOnesValue(n - 1);
    }
  }

  /** A slice of zero bytes is the number zero. */
  lemma {:induction false} ZerosValue(n: nat)
    ensures Value(Fill(n, 0)) == 0
  {
    if n > 0 {
      assert Fill(n, 0)[..n - 1] == Fill(n - 1, 0);
      ZerosValue(n - 1);
    }
  }

  /**
   * The effect of adding one on the bytes, when position j is the last one
   * that does not hold 0xFF: the bytes before j are kept, byte j goes up by
   * one, and every byte after j wraps to zero.
   */
  lemma CarryAt(s: seq<Byte>, j: nat)
    requires j < |s| && s[j] != 0xFF
    requires forall k :: j < k < |s| ==> s[k] == 0xFF
    ensures ToBytes(Value(s) + 1, |s|) == s[..j] + [s[j] + 1] + Fill(|s| - 1 - j, 0)
  {
    var t := s[..j] + [s[j] + 1] + Fill(|s| - 1 - j, 0);
    assert |t| == |s|;
    CarryValue(s, j);
    EncodingOf(t, Value(s) + 1);
  }

  /** The value of the carried bytes is one more than the value of the old ones. */
  lemma CarryValue(s: seq<Byte>, j: nat)
    requires j < |s| && s[j] != 0xFF
    requires forall k :: j < k < |s| ==> s[k] == 0xFF
    ensures Value(s[..j] + [s[j] + 1] + Fill(|s| - 1 - j, 0)) == Value(s) + 1
  {
    var h, b, k := s[..j], s[j], |s| - 1 - j;
    OnesTail(s, j);
    assert s == h + [b] + Fill(k, 0xFF);
    CarryParts(h, b, k);
  }

  /** A slice whose bytes after j are all 0xFF, cut at j. */
  lemma OnesTail(s: seq<Byte>, j: nat)
    requires j < |s|
    requires forall k :: j < k < |s| ==> s[k] == 0xFF
    ensures s == s[..j] + [s[j]] + Fill(|s| - 1 - j, 0xFF)
  {
    var tail := s[j + 1..];
    assert tail == Fill(|s| - 1 - j, 0xFF) by {
      forall i | 0 <= i < |tail| ensures tail[i] == 0xFF {
        assert tail[i] == s[j + 1 + i];
      }
    }
    assert s == s[..j] + [s[j]] + tail;
  }

  /** Carrying into byte b across k trailing 0xFF bytes adds one. */
  lemma CarryParts(h: seq<Byte>, b: Byte, k: nat)
    requires b != 0xFF
    ensures Value(h + [b + 1] + Fill(k, 0)) == Value(h + [b] + Fill(k, 0xFF)) + 1
  {
    AppendFill(h + [b], k, 0xFF);
    AppendFill(h + [b + 1], k, 0);
    BumpLast(h, b);
    MulSucc(Value(h + [b + 1]), Value(h + [b]), Pow256(k));
  }

  /** Appending k copies of one byte: 0 adds nothing, 0xFF adds 256^k - 1. */
  lemma AppendFill(h: seq<Byte>, k: nat, b: Byte)
    requires b == 0 || b == 0xFF
    ensures Value(h + Fill(k, b)) == Value(h) * Pow256(k) + (if b == 0 then 0 else Pow256(k) - 1)
  {
    ValueAppend(h, Fill(k, b));
    if b == 0 { ZerosValue(k); } else { AllOnesValue(k); }
  }

  /** Raising the last byte by one raises the value by one. */
  lemma BumpLast(h: seq<Byte>, b: Byte)
    requires b != 0xFF
    ensures Value(h + [b + 1]) == Value(h + [b]) + 1
  {
    LastByteValue(h, b + 1);
    LastByteValue(h, b);
  }

  lemma LastByteValue(h: seq<Byte>, c: Byte)
    ensures Value(h + [c]) == Value(h) * 256 + c
  {
    assert (h + [c])[..|h|] == h;
  }

  /** Adding one to an all-0xFF slice wraps it to all zeros. */
  lemma {:induction false} CarryWrap(s: seq<Byte>)
    requires forall k :: 0 <= k < |s| ==> s[k] == 0xFF
    ensures ToBytes(Value(s) + 1, |s|) == Fill(|s|, 0)
  {
    var n := |s|;
    assert s == Fill(n, 0xFF);
    AllOnesValue(n);
    ZerosValue(n);
    var r := ToBytes(Value(s) + 1, n);
    ValueOfToBytes(Pow256(n), n);
    ModUnique(Pow256(n), Pow256(n), 1, 0);
    assert Value(r) == 0;
    ValueInjective(r, Fill(n, 0));
  }

  /**
   * incrementIP: adds one to the address in place, carrying from the last
   * byte towards the first and stopping at the first byte that does not
   * wrap to zero.  The new bytes are the old number plus one, modulo
   * 256^length.
   */
  method IncrementIP(ip: array<Byte>)
    modifies ip
    ensures ip[..] == ToBytes(Value(old(ip[..])) + 1, ip.Length)
  {
    ghost var s := ip[..];
    var j := ip.Length - 1;
    while j >= 0
      invariant -1 <= j < ip.Length
      invariant ip[..j + 1] == s[..j + 1]
      invariant forall k :: j < k < ip.Length ==> s[k] == 0xFF && ip[k] == 0
    {
      assert ip[j] == s[j];
      ip[j] := if ip[j] == 0xFF then 0 else ip[j] + 1;
      if ip[j] > 0 {
        assert ip[..] == s[..j] + [s[j] + 1] + Fill(ip.Length - 1 - j, 0);
        CarryAt(s, j);
        break;
      }
      j := j - 1;
    }
    if j < 0 {
      assert ip[..] == Fill(ip.Length, 0);
      CarryWrap(s);
    }
  }

  /** ip.Equal on two slices: the same length and, from the first, the same bytes. */
  predicate Equal(a: seq<Byte>, b: seq<Byte>)
  {
    |a| == |b| && (|a| == 0 || (a[0] == b[0] && Equal(a[1..], b[1..])))
  }

  /** Comparing byte by byte decides equality of the slices. */
  lemma {:induction false} EqualSame(a: seq<Byte>, b: seq<Byte>)
    ensures Equal(a, b) <==> a == b
  {
    if |a| > 0 && |b| > 0 {
      EqualSame(a[1..], b[1..]);
      assert a == [a[0]] + a[1..];
      assert b == [b[0]] + b[1..];
    }
  }

  /** Adding one changes the value by exactly one unless it wraps. */
  lemma IncrementBelowTop(s: seq<Byte>)
    requires Value(s) + 1 < Pow256(|s|)
    ensures Value(ToBytes(Value(s) + 1, |s|)) == Value(s) + 1
  {
    ValueOfToBytes(Value(s) + 1, |s|);
    ModUnique(Value(s) + 1, Pow256(|s|), 0, Value(s) + 1);
  }

  /** An address stands for a number below 2^32. */
  lemma AddressBound(x: Address)
    ensures Value(x) < 0x1_0000_0000
  {
    assert Pow256(4) == 0x1_0000_0000;
  }

  /** The 4-byte encoding of a number below 2^32 stands for that number. */
  lemma AddressValue(v: nat)
    requires v < 0x1_0000_0000
    ensures Value(ToBytes(v, 4)) == v
  {
    ValueOfToBytes(v, 4);
    assert Pow256(4) == 0x1_0000_0000;
    ModUnique(v, 0x1_0000_0000, 0, v);
  }
}
