/**
 * A parsed IPv4 CIDR block: its mask, its network address, its last
 * (broadcast) address as lastAddress computes it, and the membership test
 * the expansion loop uses as its guard.
 */
module Cidr {
  import opened Bits
  import opened IPv4

  /** The prefix length of an IPv4 CIDR block. */
  type Prefix = p: nat | p <= 32

  /**
   * What net.ParseCIDR yields for a valid IPv4 CIDR line: the address as
   * written and the prefix length.
   */
  datatype Block = Block(addr: Address, prefix: Prefix)

  /** The number of mask bits that fall into a byte. */
  function ByteBits(x: int): (r: nat)
    ensures r <= 8
    ensures 0 <= x <= 8 ==> r == x
  {
    if x < 0 then 0 else if x > 8 then 8 else x
  }

  /** x >> n on a byte: the bits moved down n places, the low ones dropped. */
  function Shr(x: Byte, n: nat): Byte
  {
    if n == 0 then x else Shr(x / 2, n - 1)
  }

  /**
   * A mask byte whose top `ones` bits are set, as net.CIDRMask builds it:
   * 0xFF for a full byte, otherwise ^(0xFF >> ones).
   */
  function MaskByte(ones: nat): Byte
    requires ones <= 8
  {
    if ones == 8 then 0xFF else Not(Shr(0xFF, ones))
  }

  /** net.CIDRMask(p, 32): the first p bits set, the others clear. */
  function PrefixMask(p: Prefix): Address
  {
    seq(4, i => MaskByte(ByteBits(p - 8 * i)))
  }

  /** ip.Mask(mask) for a 4-byte address and a 4-byte mask. */
  function Masked(a: Address, m: Address): Address
  {
    seq(4, i requires 0 <= i < 4 => AndByte(a[i], m[i]))
  }

  /** The network address of a block: ipnet.IP, the written address masked. */
  function Network(b: Block): Address
  {
    Masked(b.addr, PrefixMask(b.prefix))
  }

  /**
   * One byte of a last address: a ORed with the inverted mask byte m.  It
   * keeps a's bits where m is set and has every other bit set.
   */
  function LastByte(a: Byte, m: Byte): (r: Byte)
    ensures AndByte(r, m) == AndByte(a, m)
    ensures OrByte(r, m) == 0xFF
  {
    ComplementOr(a, m, 8);
    OrByte(a, Not(m))
  }

  /**
   * The last address of a network: the address that keeps the network's
   * bits wherever the mask is set and has every host bit set.
   */
  function Broadcast(ip: seq<Byte>, mask: seq<Byte>): (r: seq<Byte>)
    requires |ip| <= |mask|
    ensures |r| == |ip|
    ensures forall i :: 0 <= i < |ip| ==> AndByte(r[i], mask[i]) == AndByte(ip[i], mask[i])
    ensures forall i :: 0 <= i < |ip| ==> OrByte(r[i], mask[i]) == 0xFF
  {
    seq(|ip|, i requires 0 <= i < |ip| => LastByte(ip[i], mask[i]))
  }

  /** Those two properties of Broadcast pin it down: no other slice has them. */
  lemma BroadcastUnique(ip: seq<Byte>, mask: seq<Byte>, r: seq<Byte>)
    requires |ip| <= |mask| && |r| == |ip|
    requires forall i :: 0 <= i < |ip| ==> AndByte(r[i], mask[i]) == AndByte(ip[i], mask[i])
    requires forall i :: 0 <= i < |ip| ==> OrByte(r[i], mask[i]) == 0xFF
    ensures r == Broadcast(ip, mask)
  {
    var l := Broadcast(ip, mask);
    forall i | 0 <= i < |ip| ensures r[i] == l[i] {
      Pinned(r[i], ip[i], mask[i], 8);
    }
  }

  /**
   * lastAddress: builds the last address of the network byte by byte,
   * appending network byte i ORed with the inverted mask byte i.
   */
  method LastAddress(ip: seq<Byte>, mask: seq<Byte>) returns (last: seq<Byte>)
    requires |ip| <= |mask|
    ensures last == Broadcast(ip, mask)
  {
    last := [];
    for i := 0 to |ip|
      invariant last == Broadcast(ip[..i], mask)
    {
      last := last + [OrByte(ip[i], Not(mask[i]))];
    }
    assert ip[..|ip|] == ip;
  }

  /** Bytewise at most means numerically at most. */
  lemma {:induction false} ValueMonotone(x: seq<Byte>, y: seq<Byte>)
    requires |x| == |y|
    requires forall i :: 0 <= i < |x| ==> x[i] <= y[i]
    ensures Value(x) <= Value(y)
  {
    if |x| > 0 {
      var n := |x|;
      ValueMonotone(x[..n - 1], y[..n - 1]);
    }
  }

  /**
   * The last address is never below the network address, and for a
   * network whose host bits are clear (as ParseCIDR produces) the two are
   * equal exactly when every mask byte is 0xFF.
   */
  lemma BroadcastAtLeast(ip: seq<Byte>, mask: seq<Byte>)
    requires |ip| <= |mask|
    ensures Value(Broadcast(ip, mask)) >= Value(ip)
    ensures (forall i :: 0 <= i < |ip| ==> AndByte(ip[i], Not(mask[i])) == 0) ==>
              (Value(Broadcast(ip, mask)) == Value(ip) <==>
               forall i :: 0 <= i < |ip| ==> mask[i] == 0xFF)
  {
    var l := Broadcast(ip, mask);
    ValueMonotone(ip, l);
    if forall i :: 0 <= i < |ip| ==> AndByte(ip[i], Not(mask[i])) == 0 {
      if Value(l) == Value(ip) {
        ValueInjective(l, ip);
        BroadcastFixed(ip, mask);
      }
      if forall i :: 0 <= i < |ip| ==> mask[i] == 0xFF {
        BroadcastFull(ip, mask);
      }
    }
  }

  /** Under a mask of 0xFF bytes the last address is the address itself. */
  lemma BroadcastFull(ip: seq<Byte>, mask: seq<Byte>)
    requires |ip| <= |mask|
    requires forall i :: 0 <= i < |ip| ==> mask[i] == 0xFF
    ensures Broadcast(ip, mask) == ip
  {
  }

  /** If the host bits are clear and ORing them in changes nothing, the mask is all 0xFF. */
  lemma BroadcastFixed(ip: seq<Byte>, mask: seq<Byte>)
    requires |ip| <= |mask|
    requires forall i :: 0 <= i < |ip| ==> AndByte(ip[i], Not(mask[i])) == 0
    requires Broadcast(ip, mask) == ip
    ensures forall i :: 0 <= i < |ip| ==> mask[i] == 0xFF
  {
    forall i | 0 <= i < |ip| ensures mask[i] == 0xFF {
      assert OrByte(ip[i], Not(mask[i])) == ip[i];
      OrKeeps(ip[i], Not(mask[i]));
    }
  }

  /**
   * ipnet.Contains(x) for a 4-byte x: x agrees with the network address
   * on every bit the mask keeps.
   */
  predicate Contains(b: Block, x: Address)
  {
    Agree(Network(b), PrefixMask(b.prefix), x)
  }

  /** Byte by byte from the first: n and x are equal once both are masked with m. */
  predicate Agree(n: seq<Byte>, m: seq<Byte>, x: seq<Byte>)
    requires |n| == |m| == |x|
  {
    |n| == 0 || (AndByte(n[0], m[0]) == AndByte(x[0], m[0]) && Agree(n[1..], m[1..], x[1..]))
  }

  /** Agree holds exactly when every byte agrees under the mask. */
  lemma {:induction false} AgreeEach(n: seq<Byte>, m: seq<Byte>, x: seq<Byte>)
    requires |n| == |m| == |x|
    ensures Agree(n, m, x) <==> forall i :: 0 <= i < |n| ==> AndByte(n[i], m[i]) == AndByte(x[i], m[i])
  {
    if |n| > 0 {
      AgreeEach(n[1..], m[1..], x[1..]);
      assert forall i :: 1 <= i < |n| ==> n[1..][i - 1] == n[i] && m[1..][i - 1] == m[i] && x[1..][i - 1] == x[i];
    }
  }

  /** The last address of a block: lastAddress(ipnet). */
  function Last(b: Block): Address
  {
    Broadcast(Network(b), PrefixMask(b.prefix))
  }
}
