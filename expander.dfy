/**
 * The input side of netprobe: every line read from standard input becomes
 * zero or more strings on the address channel.  A line with a '/' is a CIDR
 * block and contributes every address of the block in ascending order; a
 * line without one is queued as it is; a line with a '/' that does not
 * parse produces one diagnostic and nothing else, and reading goes on.
 *
 * Parsing a block (net.ParseCIDR) and printing an address (ip.String()) are
 * library code; the model takes them as the parameters `parse` and `render`.
 */
module Expander {
  import opened Wrappers
  import opened Bits
  import opened IPv4
  import opened Cidr
  import opened CidrRange

  /**
   * The addresses of a block in the order the expansion visits them:
   * the k-th is the network address plus k, for every k below the block
   * size.
   */
  function BlockRange(b: Block): (r: seq<Address>)
    ensures |r| == BlockSize(b)
  {
    seq<Address>(BlockSize(b), k requires 0 <= k < BlockSize(b) => AddressOf(Value(Network(b)) + k))
  }

  /** The address whose value is v modulo 2^32. */
  function AddressOf(v: nat): Address
  {
    ToBytes(v, 4)
  }

  /** An address of the block sits at the position its distance from the network address gives. */
  lemma Position(b: Block, x: Address)
    requires Value(Network(b)) <= Value(x) < Value(Network(b)) + BlockSize(b)
    ensures BlockRange(b)[Value(x) - Value(Network(b))] == x
  {
    var k := Value(x) - Value(Network(b));
    assert BlockRange(b)[k] == AddressOf(Value(x));
    ToBytesOfValue(x);
  }

  /** Every address of a block stands for the network address plus its position. */
  lemma RangeValue(b: Block, k: nat)
    requires k < BlockSize(b)
    ensures Value(BlockRange(b)[k]) == Value(Network(b)) + k
  {
    LastValue(b);
    AddressBound(Last(b));
    AddressValue(Value(Network(b)) + k);
  }

  /**
   * The expansion of a block holds 2^(32 - prefix) addresses, starts at the
   * network address, ends at the last address, and is strictly ascending,
   * so no address occurs twice.
   */
  lemma RangeShape(b: Block)
    ensures |BlockRange(b)| == Pow2(32 - b.prefix)
    ensures BlockRange(b)[0] == Network(b)
    ensures BlockRange(b)[|BlockRange(b)| - 1] == Last(b)
    ensures forall i, j :: 0 <= i < j < |BlockRange(b)| ==>
              Value(BlockRange(b)[i]) < Value(BlockRange(b)[j])
  {
    var r := BlockRange(b);
    RangeFirst(b);
    RangeFinal(b);
    forall i, j | 0 <= i < j < |r| ensures Value(r[i]) < Value(r[j]) {
      RangeValue(b, i);
      RangeValue(b, j);
    }
  }

  /**
   * The expansion lists exactly the addresses ipnet.Contains accepts:
   * none is left out and none outside the block is added.
   */
  lemma RangeMembers(b: Block, x: Address)
    ensures x in BlockRange(b) <==> Contains(b, x)
  {
    if x in BlockRange(b) {
      RangeSound(b, x);
    }
    if Contains(b, x) {
      RangeComplete(b, x);
    }
  }

  /** Every listed address is in the block. */
  lemma RangeSound(b: Block, x: Address)
    requires x in BlockRange(b)
    ensures Contains(b, x)
  {
    var r := BlockRange(b);
    var k :| 0 <= k < |r| && r[k] == x;
    RangeValue(b, k);
    ContainsRange(b, x);
  }

  /** Every address of the block is listed. */
  lemma RangeComplete(b: Block, x: Address)
    requires Contains(b, x)
    ensures x in BlockRange(b)
  {
    ContainsRange(b, x);
    Position(b, x);
  }

  /** Rendering one more address of a sequence appends its string. */
  lemma RenderStep(s: seq<Address>, k: nat, render: Address -> string)
    requires k < |s|
    ensures Render(s[..k + 1], render) == Render(s[..k], render) + [render(s[k])]
  {
  }

  /** A /32 block expands to the single address written. */
  lemma SingleHost(b: Block)
    requires b.prefix == 32
    ensures BlockRange(b) == [b.addr]
  {
    var n := Network(b);
    forall i | 0 <= i < 4 ensures n[i] == b.addr[i] {
      NetAt(b, i);
      MaskAt(b.prefix, i);
      AndOnes(b.addr[i], 8);
    }
    assert n == b.addr;
    RangeShape(b);
  }

  /** The strings a sequence of addresses is sent as. */
  function Render(addrs: seq<Address>, render: Address -> string): (r: seq<string>)
    ensures |r| == |addrs|
    ensures forall k :: 0 <= k < |addrs| ==> r[k] == render(addrs[k])
  {
    seq(|addrs|, k requires 0 <= k < |addrs| => render(addrs[k]))
  }

  /**
   * The loop over a parsed block: start at ip.Mask(ipnet.Mask), send the
   * address, stop after the last address, otherwise incrementIP, for as
   * long as ipnet.Contains holds.  It sends the rendering of every address
   * of the block, in ascending order.
   */
  method ExpandBlock(b: Block, render: Address -> string) returns (sent: seq<string>)
    ensures sent == Render(BlockRange(b), render)
  {
    var n, mask := Network(b), PrefixMask(b.prefix);
    ghost var size, r := BlockSize(b), BlockRange(b);
    RangeFirst(b);
    var ip := NewAddress(n);
    sent := [];
    ghost var pos := 0;
    while Contains(b, ip[..])
      invariant ip.Length == 4
      invariant pos < size && ip[..] == r[pos]
      invariant sent == Render(r[..pos], render)
      decreases size - pos
    {
      RenderStep(r, pos, render);
      sent := sent + [render(ip[..])];
      var last := LastAddress(n, mask);
      if Equal(ip[..], last) {
        EqualSame(ip[..], last);
        RangeAtLast(b, pos);
        assert r[..pos + 1] == r;
        break;
      }
      ghost var cur := ip[..];
      RangeNext(b, pos, cur);
      IncrementIP(ip);
      pos := pos + 1;
    }
    if !Contains(b, ip[..]) {
      RangeSound(b, ip[..]);
      assert false;
    }
  }

  /** The expansion starts at the network address. */
  lemma RangeFirst(b: Block)
    ensures BlockRange(b)[0] == Network(b)
  {
    RangeValue(b, 0);
    ValueInjective(BlockRange(b)[0], Network(b));
  }

  /** The expansion ends at the last address. */
  lemma RangeFinal(b: Block)
    ensures BlockRange(b)[BlockSize(b) - 1] == Last(b)
  {
    RangeValue(b, BlockSize(b) - 1);
    LastValue(b);
    ValueInjective(BlockRange(b)[BlockSize(b) - 1], Last(b));
  }

  /** Only the final position of the expansion holds the last address. */
  lemma RangeAtLast(b: Block, k: nat)
    requires k < BlockSize(b) && BlockRange(b)[k] == Last(b)
    ensures k == BlockSize(b) - 1
  {
    RangeValue(b, k);
    LastValue(b);
  }

  /** Below the final position, adding one to an address gives the next one. */
  lemma RangeNext(b: Block, k: nat, x: Address)
    requires k < BlockSize(b) && x == BlockRange(b)[k] && !Equal(x, Last(b))
    ensures k + 1 < BlockSize(b)
    ensures ToBytes(Value(x) + 1, 4) == BlockRange(b)[k + 1]
  {
    if k + 1 == BlockSize(b) {
      RangeFinal(b);
      EqualSame(x, Last(b));
      assert false;
    }
    RangeSucc(b, k, x);
  }

  /** The address after the k-th, when there is one, is the k-th plus one. */
  lemma RangeSucc(b: Block, k: nat, x: Address)
    requires k + 1 < BlockSize(b) && x == BlockRange(b)[k]
    ensures ToBytes(Value(x) + 1, 4) == BlockRange(b)[k + 1]
  {
    var v, w := Value(Network(b)) + k, Value(Network(b)) + (k + 1);
    RangeBound(b, k + 1);
    RangeAt(b, k);
    RangeAt(b, k + 1);
    NextAddress(v, w);
  }

  /** Every position of the expansion stands for a number below 2^32. */
  lemma RangeBound(b: Block, k: nat)
    requires k < BlockSize(b)
    ensures Value(Network(b)) + k < 0x1_0000_0000
  {
    LastValue(b);
    AddressBound(Last(b));
  }

  /** The k-th address of the expansion, by definition. */
  lemma RangeAt(b: Block, k: nat)
    requires k < BlockSize(b)
    ensures BlockRange(b)[k] == AddressOf(Value(Network(b)) + k)
  {
  }

  /** Below 2^32 - 1, incrementing the encoding of v gives the encoding of v + 1. */
  lemma NextAddress(v: nat, w: nat)
    requires w == v + 1 < 0x1_0000_0000
    ensures ToBytes(Value(AddressOf(v)) + 1, 4) == AddressOf(w)
  {
    AddressValue(v);
  }

  /** A fresh 4-byte slice holding the given address, as ip.Mask returns one. */
  method NewAddress(a: Address) returns (ip: array<Byte>)
    ensures fresh(ip) && ip[..] == a
  {
    ip := new Byte[4](i requires 0 <= i < 4 => a[i]);
    assert ip[..] == a;
  }

  /** The diagnostic written to standard error for a line that does not parse. */
  function Complaint(line: string): string
  {
    "Invalid CIDR block: " + line + "\n"
  }

  /** What one line sends on the address channel. */
  function LineQueued(line: string, parse: string -> Option<Block>, render: Address -> string): seq<string>
  {
    if '/' in line then
      match parse(line)
      case None => []
      case Some(b) => Render(BlockRange(b), render)
    else [line]
  }

  /** What one line writes to standard error. */
  function LineDiagnostics(line: string, parse: string -> Option<Block>): seq<string>
  {
    if '/' in line && parse(line).None? then [Complaint(line)] else []
  }

  /** Everything the lines send on the address channel, in order. */
  function Queued(lines: seq<string>, parse: string -> Option<Block>, render: Address -> string): seq<string>
  {
    if |lines| == 0 then []
    else Queued(lines[..|lines| - 1], parse, render) + LineQueued(lines[|lines| - 1], parse, render)
  }

  /** Everything the lines write to standard error, in order. */
  function Diagnostics(lines: seq<string>, parse: string -> Option<Block>): seq<string>
  {
    if |lines| == 0 then []
    else Diagnostics(lines[..|lines| - 1], parse) + LineDiagnostics(lines[|lines| - 1], parse)
  }

  /**
   * The reading goroutine: scan the lines one at a time and handle each as
   * a single address, a block, or an invalid block that is reported and
   * skipped.
   */
  method ReadInput(lines: seq<string>, parse: string -> Option<Block>, render: Address -> string)
    returns (queued: seq<string>, diagnostics: seq<string>)
    ensures queued == Queued(lines, parse, render)
    ensures diagnostics == Diagnostics(lines, parse)
  {
    queued, diagnostics := [], [];
    for i := 0 to |lines|
      invariant queued == Queued(lines[..i], parse, render)
      invariant diagnostics == Diagnostics(lines[..i], parse)
    {
      var input := lines[i];
      assert lines[..i + 1][..i] == lines[..i];
      if '/' in input {
        var parsed := parse(input);
        if parsed.None? {
          diagnostics := diagnostics + [Complaint(input)];
          continue;
        }
        var sent := ExpandBlock(parsed.value, render);
        queued := queued + sent;
      } else {
        queued := queued + [input];
      }
    }
    assert lines[..|lines|] == lines;
  }

  /** Lines are handled independently: the output for a concatenation is the concatenation of outputs. */
  lemma {:induction false} QueuedAppend(a: seq<string>, c: seq<string>, parse: string -> Option<Block>, render: Address -> string)
    ensures Queued(a + c, parse, render) == Queued(a, parse, render) + Queued(c, parse, render)
    ensures Diagnostics(a + c, parse) == Diagnostics(a, parse) + Diagnostics(c, parse)
  {
    if |c| > 0 {
      var c' := c[..|c| - 1];
      assert (a + c)[..|a + c| - 1] == a + c';
      assert (a + c)[|a + c| - 1] == c[|c| - 1];
      QueuedAppend(a, c', parse, render);
    } else {
      assert a + c == a;
    }
  }

  /** Lines before and after one line are handled as if that line were absent, plus its own outcome. */
  lemma AroundLine(pre: seq<string>, line: string, post: seq<string>,
                   parse: string -> Option<Block>, render: Address -> string)
    ensures Queued(pre + [line] + post, parse, render) ==
              Queued(pre, parse, render) + LineQueued(line, parse, render) + Queued(post, parse, render)
    ensures Diagnostics(pre + [line] + post, parse) ==
              Diagnostics(pre, parse) + LineDiagnostics(line, parse) + Diagnostics(post, parse)
  {
    QueuedAppend(pre + [line], post, parse, render);
    QueuedAppend(pre, [line], parse, render);
    assert [line][..0] == [];
  }

  /** A line without '/' is queued verbatim and reports nothing. */
  lemma BareLine(pre: seq<string>, line: string, post: seq<string>,
                 parse: string -> Option<Block>, render: Address -> string)
    requires '/' !in line
    ensures Queued(pre + [line] + post, parse, render) ==
              Queued(pre, parse, render) + [line] + Queued(post, parse, render)
    ensures Diagnostics(pre + [line] + post, parse) == Diagnostics(pre, parse) + Diagnostics(post, parse)
  {
    AroundLine(pre, line, post, parse, render);
  }

  /**
   * A line with '/' that does not parse queues nothing and reports exactly
   * one diagnostic naming the line; the lines after it are still handled.
   */
  lemma InvalidLine(pre: seq<string>, line: string, post: seq<string>,
                    parse: string -> Option<Block>, render: Address -> string)
    requires '/' in line && parse(line) == None
    ensures Queued(pre + [line] + post, parse, render) ==
              Queued(pre, parse, render) + Queued(post, parse, render)
    ensures Diagnostics(pre + [line] + post, parse) ==
              Diagnostics(pre, parse) + ["Invalid CIDR block: " + line + "\n"] + Diagnostics(post, parse)
  {
    AroundLine(pre, line, post, parse, render);
  }

  /** A line that parses as a block queues every address of the block, once each, and reports nothing. */
  lemma BlockLine(pre: seq<string>, line: string, post: seq<string>, b: Block,
                  parse: string -> Option<Block>, render: Address -> string)
    requires '/' in line && parse(line) == Some(b)
    ensures Queued(pre + [line] + post, parse, render) ==
              Queued(pre, parse, render) + Render(BlockRange(b), render) + Queued(post, parse, render)
    ensures Diagnostics(pre + [line] + post, parse) == Diagnostics(pre, parse) + Diagnostics(post, parse)
  {
    AroundLine(pre, line, post, parse, render);
  }
}
