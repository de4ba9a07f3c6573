/**
 * The resolver side of netprobe: a worker takes addresses off the address
 * channel, looks each one up, skips it when the lookup fails, and puts one
 * output line per returned hostname on the result channel.  The reverse
 * lookup itself (resolver.LookupAddr over UDP) is a parameter `lookup`,
 * which gives the hostnames for an address or nothing on error.
 */
module Workers {
  import opened Wrappers

  /** strings.TrimSuffix(s, suffix): s without the suffix if s ends with it, else s unchanged. */
  function TrimSuffix(s: string, suffix: string): (r: string)
    ensures |suffix| <= |s| && s[|s| - |suffix|..] == suffix ==> r + suffix == s
    ensures !(|suffix| <= |s| && s[|s| - |suffix|..] == suffix) ==> r == s
  {
    if |suffix| <= |s| && s[|s| - |suffix|..] == suffix then s[..|s| - |suffix|] else s
  }

  /** A hostname with its trailing root-label dot removed. */
  function Trimmed(host: string): string
  {
    TrimSuffix(host, ".")
  }

  /**
   * Trimming removes exactly one trailing dot when there is one and
   * changes nothing otherwise; a name that ends in two dots keeps one.
   */
  lemma TrimmedDot(host: string)
    ensures |host| > 0 && host[|host| - 1] == '.' ==> Trimmed(host) == host[..|host| - 1]
    ensures (|host| == 0 || host[|host| - 1] != '.') ==> Trimmed(host) == host
    ensures |Trimmed(host)| >= |host| - 1
  {
    if |host| > 0 {
      assert host[|host| - 1..] == [host[|host| - 1]];
    }
  }

  /** Trimming a trimmed name changes it only if it ended in two dots. */
  lemma TrimmedTwice(host: string)
    requires |host| < 2 || host[|host| - 2..] != ".."
    ensures Trimmed(Trimmed(host)) == Trimmed(host)
  {
    TrimmedDot(host);
    TrimmedDot(Trimmed(host));
    if |host| >= 2 && host[|host| - 1] == '.' {
      assert host[|host| - 2..] == [host[|host| - 2], host[|host| - 1]];
    }
  }

  /** The output line for one hostname: "ip: name" in verbose mode, the bare name otherwise. */
  function FormatLine(ip: string, host: string, verbose: bool): string
  {
    if verbose then ip + ": " + Trimmed(host) else Trimmed(host)
  }

  /**
   * The shape of an output line: in verbose mode it starts with the address
   * and ": " and goes on with the plain line; and a line ends in a dot
   * exactly when the hostname ended in two dots, since only one is removed.
   */
  lemma LineShape(ip: string, host: string, verbose: bool)
    ensures verbose ==> FormatLine(ip, host, true)[..|ip| + 2] == ip + ": "
    ensures verbose ==> FormatLine(ip, host, true)[|ip| + 2..] == FormatLine(ip, host, false)
    ensures var line := FormatLine(ip, host, verbose);
      (|line| > 0 && line[|line| - 1] == '.') <==> (|host| >= 2 && host[|host| - 2..] == "..")
  {
    TrimmedDot(host);
    var t := Trimmed(host);
    if |host| >= 2 {
      assert host[|host| - 2..] == [host[|host| - 2], host[|host| - 1]];
    }
    if verbose {
      var line := ip + ": " + t;
      assert line[..|ip| + 2] == ip + ": ";
      assert line[|ip| + 2..] == t;
      if |t| > 0 {
        assert line[|line| - 1] == t[|t| - 1];
      } else {
        assert line[|line| - 1] == ' ';
      }
    }
  }

  /** The lines one address contributes: one per hostname on success, none on error. */
  function AddressLines(ip: string, lookup: string -> Option<seq<string>>, verbose: bool): (r: seq<string>)
  {
    match lookup(ip)
    case None => []
    case Some(hosts) => seq(|hosts|, k requires 0 <= k < |hosts| => FormatLine(ip, hosts[k], verbose))
  }

  /** Everything one worker emits for the addresses it received, in order. */
  function WorkerOutput(ips: seq<string>, lookup: string -> Option<seq<string>>, verbose: bool): seq<string>
  {
    if |ips| == 0 then []
    else WorkerOutput(ips[..|ips| - 1], lookup, verbose) + AddressLines(ips[|ips| - 1], lookup, verbose)
  }

  /**
   * worker: for each address off the channel, look it up; on error go on
   * with the next address; otherwise send one formatted line per hostname.
   */
  method Worker(ips: seq<string>, lookup: string -> Option<seq<string>>, verbose: bool)
    returns (results: seq<string>)
    ensures results == WorkerOutput(ips, lookup, verbose)
  {
    results := [];
    for i := 0 to |ips|
      invariant results == WorkerOutput(ips[..i], lookup, verbose)
    {
      var ip := ips[i];
      OutputStep(ips, i, lookup, verbose);
      var hostnames := lookup(ip);
      if hostnames.None? {
        continue;
      }
      ghost var sent := results;
      for j := 0 to |hostnames.value|
        invariant results == sent + AddressLines(ip, lookup, verbose)[..j]
      {
        var result := "";
        if verbose {
          result := ip + ": " + TrimSuffix(hostnames.value[j], ".");
        } else {
          result := TrimSuffix(hostnames.value[j], ".");
        }
        LinesStep(ip, lookup, verbose, j);
        results := results + [result];
      }
      assert AddressLines(ip, lookup, verbose)[..|hostnames.value|] == AddressLines(ip, lookup, verbose);
    }
    assert ips[..|ips|] == ips;
  }

  /** Handling address i extends the output for the addresses before it by that address's lines. */
  lemma OutputStep(ips: seq<string>, i: nat, lookup: string -> Option<seq<string>>, verbose: bool)
    requires i < |ips|
    ensures WorkerOutput(ips[..i + 1], lookup, verbose) ==
      WorkerOutput(ips[..i], lookup, verbose) + AddressLines(ips[i], lookup, verbose)
  {
    assert ips[..i + 1][..i] == ips[..i];
  }

  /** Sending the line for hostname j extends the lines sent for the hostnames before it. */
  lemma LinesStep(ip: string, lookup: string -> Option<seq<string>>, verbose: bool, j: nat)
    requires lookup(ip).Some? && j < |lookup(ip).value|
    ensures AddressLines(ip, lookup, verbose)[..j + 1] ==
      AddressLines(ip, lookup, verbose)[..j] + [FormatLine(ip, lookup(ip).value[j], verbose)]
  {
  }

  /** A worker's output for a concatenation of inputs is the concatenation of its outputs. */
  lemma {:induction false} OutputAppend(a: seq<string>, c: seq<string>,
                                        lookup: string -> Option<seq<string>>, verbose: bool)
    ensures WorkerOutput(a + c, lookup, verbose) == WorkerOutput(a, lookup, verbose) + WorkerOutput(c, lookup, verbose)
  {
    if |c| > 0 {
      var c' := c[..|c| - 1];
      assert (a + c)[..|a + c| - 1] == a + c';
      assert (a + c)[|a + c| - 1] == c[|c| - 1];
      OutputAppend(a, c', lookup, verbose);
    } else {
      assert a + c == a;
    }
  }

  /** An address whose lookup fails adds nothing, and the addresses after it are still handled. */
  lemma FailedLookup(pre: seq<string>, ip: string, post: seq<string>,
                     lookup: string -> Option<seq<string>>, verbose: bool)
    requires lookup(ip) == None
    ensures WorkerOutput(pre + [ip] + post, lookup, verbose) ==
              WorkerOutput(pre, lookup, verbose) + WorkerOutput(post, lookup, verbose)
  {
    OutputAppend(pre + [ip], post, lookup, verbose);
    OutputAppend(pre, [ip], lookup, verbose);
    OutputSingle(ip, lookup, verbose);
  }

  /** A worker given one address emits that address's lines. */
  lemma OutputSingle(ip: string, lookup: string -> Option<seq<string>>, verbose: bool)
    ensures WorkerOutput([ip], lookup, verbose) == AddressLines(ip, lookup, verbose)
  {
    assert [ip][..0] == [];
  }

  /**
   * An output line occurs exactly when some address of the input resolved
   * to some hostname that formats to that line.
   */
  lemma {:induction false} OutputLines(ips: seq<string>, lookup: string -> Option<seq<string>>, verbose: bool, line: string)
    ensures line in WorkerOutput(ips, lookup, verbose) <==>
      exists i, k :: 0 <= i < |ips| && lookup(ips[i]).Some? && 0 <= k < |lookup(ips[i]).value| &&
        line == FormatLine(ips[i], lookup(ips[i]).value[k], verbose)
  {
    if |ips| > 0 {
      var n := |ips| - 1;
      var ips' := ips[..n];
      OutputLines(ips', lookup, verbose, line);
      var own := AddressLines(ips[n], lookup, verbose);
      assert WorkerOutput(ips, lookup, verbose) == WorkerOutput(ips', lookup, verbose) + own;
      assert forall i :: 0 <= i < n ==> ips'[i] == ips[i];
      if line in own {
        var k :| 0 <= k < |own| && own[k] == line;
        assert line == FormatLine(ips[n], lookup(ips[n]).value[k], verbose);
      }
      if exists i, k :: 0 <= i < |ips| && lookup(ips[i]).Some? && 0 <= k < |lookup(ips[i]).value| &&
           line == FormatLine(ips[i], lookup(ips[i]).value[k], verbose) {
        var i, k :| 0 <= i < |ips| && lookup(ips[i]).Some? && 0 <= k < |lookup(ips[i]).value| &&
          line == FormatLine(ips[i], lookup(ips[i]).value[k], verbose);
        if i == n {
          assert own[k] == line;
        }
      }
    }
  }

  /** The number of lines is the total number of hostnames of the addresses that resolved. */
  function HostCount(ips: seq<string>, lookup: string -> Option<seq<string>>): nat
  {
    if |ips| == 0 then 0
    else HostCount(ips[..|ips| - 1], lookup) + Hosts(ips[|ips| - 1], lookup)
  }

  /** The number of hostnames an address resolves to, zero on error. */
  function Hosts(ip: string, lookup: string -> Option<seq<string>>): nat
  {
    match lookup(ip)
    case None => 0
    case Some(hosts) => |hosts|
  }

  lemma {:induction false} OutputCount(ips: seq<string>, lookup: string -> Option<seq<string>>, verbose: bool)
    ensures |WorkerOutput(ips, lookup, verbose)| == HostCount(ips, lookup)
  {
    if |ips| > 0 {
      OutputCount(ips[..|ips| - 1], lookup, verbose);
    }
  }

  // ---- the worker pool ----

  /** The addresses the channel hands to worker w, when owner[i] is the worker that takes address i. */
  function Share<T>(ips: seq<T>, owner: seq<nat>, w: nat): (r: seq<T>)
    requires |owner| == |ips|
    ensures |r| <= |ips|
  {
    if |ips| == 0 then []
    else Share(ips[..|ips| - 1], owner[..|ips| - 1], w) + (if owner[|ips| - 1] == w then [ips[|ips| - 1]] else [])
  }

  /**
   * The addresses worker w receives, as a multiset, address by address.
   * This is multiset(Share(ips, owner, w)) (TakenShare), built directly
   * on multisets so that the proofs about the whole pool (ReceivedStep,
   * ShareCover) never unfold Share inside a multiset equality, which is
   * far more expensive for the solver.
   */
  function Taken<T>(ips: seq<T>, owner: seq<nat>, w: nat): multiset<T>
    requires |owner| == |ips|
  {
    if |ips| == 0 then multiset{}
    else
      var n := |ips| - 1;
      var before := Taken(ips[..n], owner[..n], w);
      if owner[n] == w then before + multiset{ips[n]} else before
  }

  /** Worker w receives exactly the addresses of its share. */
  lemma {:induction false} TakenShare<T>(ips: seq<T>, owner: seq<nat>, w: nat)
    requires |owner| == |ips|
    ensures Taken(ips, owner, w) == multiset(Share(ips, owner, w))
  {
    if |ips| > 0 {
      var n := |ips| - 1;
      var s0 := Share(ips[..n], owner[..n], w);
      TakenShare(ips[..n], owner[..n], w);
      if owner[n] == w {
        assert Share(ips, owner, w) == s0 + [ips[n]];
        Extend(Taken(ips, owner, w), Taken(ips[..n], owner[..n], w),
               multiset(Share(ips, owner, w)), multiset(s0), multiset{ips[n]});
      } else {
        assert Share(ips, owner, w) == s0 + [];
        assert s0 + [] == s0;
      }
    }
  }

  /** The addresses workers 0 .. k-1 receive, together. */
  function Received<T>(ips: seq<T>, owner: seq<nat>, k: nat): multiset<T>
    requires |owner| == |ips|
  {
    if k == 0 then multiset{} else Received(ips, owner, k - 1) + Taken(ips, owner, k - 1)
  }

  /** The last address is received once if its worker is among workers 0 .. k-1, and not at all otherwise. */
  lemma {:induction false} ReceivedStep<T>(ips: seq<T>, owner: seq<nat>, k: nat)
    requires |owner| == |ips| > 0
    ensures var n := |ips| - 1;
      owner[n] < k ==> Received(ips, owner, k) == Received(ips[..n], owner[..n], k) + multiset{ips[n]}
    ensures var n := |ips| - 1;
      owner[n] >= k ==> Received(ips, owner, k) == Received(ips[..n], owner[..n], k)
  {
    if k > 0 {
      var n, w := |ips| - 1, k - 1;
      ReceivedStep(ips, owner, w);
      if owner[n] == w {
        ReceivedByLast(ips, owner, k);
      } else if owner[n] < w {
        ReceivedByEarlier(ips, owner, k);
      } else {
        ReceivedByLater(ips, owner, k);
      }
    }
  }

  /** Worker k - 1 takes the last address: its share, and so the union, grows by it. */
  lemma ReceivedByLast<T>(ips: seq<T>, owner: seq<nat>, k: nat)
    requires |owner| == |ips| > 0 && k > 0 && owner[|ips| - 1] == k - 1
    requires Received(ips, owner, k - 1) == Received(ips[..|ips| - 1], owner[..|ips| - 1], k - 1)
    ensures Received(ips, owner, k) == Received(ips[..|ips| - 1], owner[..|ips| - 1], k) + multiset{ips[|ips| - 1]}
  {
    var n, w := |ips| - 1, k - 1;
    AddToSecond(Received(ips, owner, k), Received(ips[..n], owner[..n], k),
                Received(ips, owner, w), Received(ips[..n], owner[..n], w),
                Taken(ips, owner, w), Taken(ips[..n], owner[..n], w), multiset{ips[n]});
  }

  /** An earlier worker takes the last address: the first part of the union grows by it. */
  lemma ReceivedByEarlier<T>(ips: seq<T>, owner: seq<nat>, k: nat)
    requires |owner| == |ips| > 0 && k > 0 && owner[|ips| - 1] < k - 1
    requires Received(ips, owner, k - 1) == Received(ips[..|ips| - 1], owner[..|ips| - 1], k - 1) + multiset{ips[|ips| - 1]}
    ensures Received(ips, owner, k) == Received(ips[..|ips| - 1], owner[..|ips| - 1], k) + multiset{ips[|ips| - 1]}
  {
    var n, w := |ips| - 1, k - 1;
    AddToFirst(Received(ips, owner, k), Received(ips[..n], owner[..n], k),
               Received(ips, owner, w), Received(ips[..n], owner[..n], w),
               Taken(ips, owner, w), Taken(ips[..n], owner[..n], w), multiset{ips[n]});
  }

  /** A later worker takes the last address: no part of the union changes. */
  lemma ReceivedByLater<T>(ips: seq<T>, owner: seq<nat>, k: nat)
    requires |owner| == |ips| > 0 && k > 0 && owner[|ips| - 1] > k - 1
    requires Received(ips, owner, k - 1) == Received(ips[..|ips| - 1], owner[..|ips| - 1], k - 1)
    ensures Received(ips, owner, k) == Received(ips[..|ips| - 1], owner[..|ips| - 1], k)
  {
    var n, w := |ips| - 1, k - 1;
    SameUnion(Received(ips, owner, k), Received(ips[..n], owner[..n], k),
              Received(ips, owner, w), Received(ips[..n], owner[..n], w),
              Taken(ips, owner, w), Taken(ips[..n], owner[..n], w));
  }

  /**
   * The address channel hands every address to exactly one worker: when
   * each owner is one of workers 0 .. k-1, their shares together are the
   * queued addresses, each as often as it was queued.
   */
  lemma {:induction false} ShareCover<T>(ips: seq<T>, owner: seq<nat>, k: nat)
    requires |owner| == |ips|
    requires forall i :: 0 <= i < |owner| ==> owner[i] < k
    ensures Received(ips, owner, k) == multiset(ips)
  {
    if |ips| == 0 {
      ReceivedEmpty<T>(owner, k);
    } else {
      var n := |ips| - 1;
      ShareCover(ips[..n], owner[..n], k);
      ReceivedStep(ips, owner, k);
      assert ips == ips[..n] + [ips[n]];
    }
  }

  /** With no addresses no worker receives anything. */
  lemma {:induction false} ReceivedEmpty<T>(owner: seq<nat>, k: nat)
    requires |owner| == 0
    ensures Received<T>([], owner, k) == multiset{}
  {
    if k > 0 {
      ReceivedEmpty<T>(owner, k - 1);
    }
  }

  /** What worker w emits, as a multiset, address by address. */
  function Emitted(ips: seq<string>, owner: seq<nat>, w: nat,
                   lookup: string -> Option<seq<string>>, verbose: bool): multiset<string>
    requires |owner| == |ips|
  {
    if |ips| == 0 then multiset{}
    else
      var n := |ips| - 1;
      var before := Emitted(ips[..n], owner[..n], w, lookup, verbose);
      if owner[n] == w then before + multiset(AddressLines(ips[n], lookup, verbose)) else before
  }

  /** Worker w emits exactly the lines Worker produces for its share of the addresses. */
  lemma {:induction false} EmittedLines(ips: seq<string>, owner: seq<nat>, w: nat,
                                        lookup: string -> Option<seq<string>>, verbose: bool)
    requires |owner| == |ips|
    ensures Emitted(ips, owner, w, lookup, verbose) == multiset(WorkerOutput(Share(ips, owner, w), lookup, verbose))
  {
    if |ips| > 0 {
      var n := |ips| - 1;
      EmittedLines(ips[..n], owner[..n], w, lookup, verbose);
      if owner[n] == w {
        EmittedByOwner(ips, owner, w, lookup, verbose);
      } else {
        EmittedByOther(ips, owner, w, lookup, verbose);
      }
    }
  }

  /** When w takes the last address, both sides grow by that address's lines. */
  lemma EmittedByOwner(ips: seq<string>, owner: seq<nat>, w: nat,
                       lookup: string -> Option<seq<string>>, verbose: bool)
    requires |owner| == |ips| > 0 && owner[|ips| - 1] == w
    requires Emitted(ips[..|ips| - 1], owner[..|ips| - 1], w, lookup, verbose) ==
      multiset(WorkerOutput(Share(ips[..|ips| - 1], owner[..|ips| - 1], w), lookup, verbose))
    ensures Emitted(ips, owner, w, lookup, verbose) == multiset(WorkerOutput(Share(ips, owner, w), lookup, verbose))
  {
    var n := |ips| - 1;
    var e, e0 := Emitted(ips, owner, w, lookup, verbose), Emitted(ips[..n], owner[..n], w, lookup, verbose);
    var l := multiset(AddressLines(ips[n], lookup, verbose));
    assert e == e0 + l;
    ShareLast(ips, owner, w, lookup, verbose);
    Extend(e, e0, multiset(WorkerOutput(Share(ips, owner, w), lookup, verbose)),
           multiset(WorkerOutput(Share(ips[..n], owner[..n], w), lookup, verbose)), l);
  }

  /** When another worker takes the last address, neither side changes. */
  lemma EmittedByOther(ips: seq<string>, owner: seq<nat>, w: nat,
                       lookup: string -> Option<seq<string>>, verbose: bool)
    requires |owner| == |ips| > 0 && owner[|ips| - 1] != w
    requires Emitted(ips[..|ips| - 1], owner[..|ips| - 1], w, lookup, verbose) ==
      multiset(WorkerOutput(Share(ips[..|ips| - 1], owner[..|ips| - 1], w), lookup, verbose))
    ensures Emitted(ips, owner, w, lookup, verbose) == multiset(WorkerOutput(Share(ips, owner, w), lookup, verbose))
  {
    ShareLast(ips, owner, w, lookup, verbose);
  }

  /** All lines that workers 0 .. k-1 emit, as a multiset: the order in which they arrive is not fixed. */
  function PoolOutput(ips: seq<string>, owner: seq<nat>, k: nat,
                      lookup: string -> Option<seq<string>>, verbose: bool): multiset<string>
    requires |owner| == |ips|
  {
    if k == 0 then multiset{}
    else PoolOutput(ips, owner, k - 1, lookup, verbose) + Emitted(ips, owner, k - 1, lookup, verbose)
  }

  /** The last address, handed to worker owner[n], adds its lines to the pool's output once, if that worker is in the pool. */
  lemma {:induction false} PoolStep(ips: seq<string>, owner: seq<nat>, k: nat,
                                    lookup: string -> Option<seq<string>>, verbose: bool)
    requires |owner| == |ips| > 0
    ensures var n := |ips| - 1;
      owner[n] < k ==>
        PoolOutput(ips, owner, k, lookup, verbose) ==
          PoolOutput(ips[..n], owner[..n], k, lookup, verbose) + multiset(AddressLines(ips[n], lookup, verbose))
    ensures var n := |ips| - 1;
      owner[n] >= k ==>
        PoolOutput(ips, owner, k, lookup, verbose) == PoolOutput(ips[..n], owner[..n], k, lookup, verbose)
  {
    if k > 0 {
      var n, w := |ips| - 1, k - 1;
      PoolStep(ips, owner, w, lookup, verbose);
      if owner[n] == w {
        PoolByLast(ips, owner, k, lookup, verbose);
      } else if owner[n] < w {
        PoolByEarlier(ips, owner, k, lookup, verbose);
      } else {
        PoolByLater(ips, owner, k, lookup, verbose);
      }
    }
  }

  /** Worker k - 1 takes the last address: its lines, and so the pool's, grow by that address's lines. */
  lemma PoolByLast(ips: seq<string>, owner: seq<nat>, k: nat,
                   lookup: string -> Option<seq<string>>, verbose: bool)
    requires |owner| == |ips| > 0 && k > 0 && owner[|ips| - 1] == k - 1
    requires PoolOutput(ips, owner, k - 1, lookup, verbose) == PoolOutput(ips[..|ips| - 1], owner[..|ips| - 1], k - 1, lookup, verbose)
    ensures PoolOutput(ips, owner, k, lookup, verbose) ==
      PoolOutput(ips[..|ips| - 1], owner[..|ips| - 1], k, lookup, verbose) + multiset(AddressLines(ips[|ips| - 1], lookup, verbose))
  {
    var n, w := |ips| - 1, k - 1;
    var m, m0 := Emitted(ips, owner, w, lookup, verbose), Emitted(ips[..n], owner[..n], w, lookup, verbose);
    var l := multiset(AddressLines(ips[n], lookup, verbose));
    assert m == m0 + l;
    AddToSecond(PoolOutput(ips, owner, k, lookup, verbose), PoolOutput(ips[..n], owner[..n], k, lookup, verbose),
                PoolOutput(ips, owner, w, lookup, verbose), PoolOutput(ips[..n], owner[..n], w, lookup, verbose), m, m0, l);
  }

  /** An earlier worker takes the last address: the pool of the first k - 1 workers grows by its lines. */
  lemma PoolByEarlier(ips: seq<string>, owner: seq<nat>, k: nat,
                      lookup: string -> Option<seq<string>>, verbose: bool)
    requires |owner| == |ips| > 0 && k > 0 && owner[|ips| - 1] < k - 1
    requires PoolOutput(ips, owner, k - 1, lookup, verbose) ==
      PoolOutput(ips[..|ips| - 1], owner[..|ips| - 1], k - 1, lookup, verbose) + multiset(AddressLines(ips[|ips| - 1], lookup, verbose))
    ensures PoolOutput(ips, owner, k, lookup, verbose) ==
      PoolOutput(ips[..|ips| - 1], owner[..|ips| - 1], k, lookup, verbose) + multiset(AddressLines(ips[|ips| - 1], lookup, verbose))
  {
    var n, w := |ips| - 1, k - 1;
    var m, m0 := Emitted(ips, owner, w, lookup, verbose), Emitted(ips[..n], owner[..n], w, lookup, verbose);
    assert m == m0;
    AddToFirst(PoolOutput(ips, owner, k, lookup, verbose), PoolOutput(ips[..n], owner[..n], k, lookup, verbose),
               PoolOutput(ips, owner, w, lookup, verbose), PoolOutput(ips[..n], owner[..n], w, lookup, verbose),
               m, m0, multiset(AddressLines(ips[n], lookup, verbose)));
  }

  /** A later worker takes the last address: nothing in the pool of the first k workers changes. */
  lemma PoolByLater(ips: seq<string>, owner: seq<nat>, k: nat,
                    lookup: string -> Option<seq<string>>, verbose: bool)
    requires |owner| == |ips| > 0 && k > 0 && owner[|ips| - 1] > k - 1
    requires PoolOutput(ips, owner, k - 1, lookup, verbose) == PoolOutput(ips[..|ips| - 1], owner[..|ips| - 1], k - 1, lookup, verbose)
    ensures PoolOutput(ips, owner, k, lookup, verbose) == PoolOutput(ips[..|ips| - 1], owner[..|ips| - 1], k, lookup, verbose)
  {
    var n, w := |ips| - 1, k - 1;
    var m, m0 := Emitted(ips, owner, w, lookup, verbose), Emitted(ips[..n], owner[..n], w, lookup, verbose);
    assert m == m0;
    SameUnion(PoolOutput(ips, owner, k, lookup, verbose), PoolOutput(ips[..n], owner[..n], k, lookup, verbose),
              PoolOutput(ips, owner, w, lookup, verbose), PoolOutput(ips[..n], owner[..n], w, lookup, verbose), m, m0);
  }

  /** Equal multisets extended by the same lines stay equal. */
  lemma Extend<T>(e: multiset<T>, e0: multiset<T>, s: multiset<T>, s0: multiset<T>, l: multiset<T>)
    requires e == e0 + l && s == s0 + l && e0 == s0
    ensures e == s
  {
  }

  /** Adding l to the second part of a union adds it to the union. */
  lemma AddToSecond<T>(p: multiset<T>, p0: multiset<T>, a: multiset<T>, a0: multiset<T>,
                    m: multiset<T>, m0: multiset<T>, l: multiset<T>)
    requires p == a + m && p0 == a0 + m0 && a == a0 && m == m0 + l
    ensures p == p0 + l
  {
  }

  /** Adding l to the first part of a union adds it to the union. */
  lemma AddToFirst<T>(p: multiset<T>, p0: multiset<T>, a: multiset<T>, a0: multiset<T>,
                   m: multiset<T>, m0: multiset<T>, l: multiset<T>)
    requires p == a + m && p0 == a0 + m0 && a == a0 + l && m == m0
    ensures p == p0 + l
  {
  }

  /** Unions of equal parts are equal. */
  lemma SameUnion<T>(p: multiset<T>, p0: multiset<T>, a: multiset<T>, a0: multiset<T>,
                  m: multiset<T>, m0: multiset<T>)
    requires p == a + m && p0 == a0 + m0 && a == a0 && m == m0
    ensures p == p0
  {
  }

  /** What worker w emits grows by the last address's lines exactly when w takes that address. */
  lemma ShareLast(ips: seq<string>, owner: seq<nat>, w: nat,
                  lookup: string -> Option<seq<string>>, verbose: bool)
    requires |owner| == |ips| > 0
    ensures var n := |ips| - 1;
      owner[n] == w ==>
        multiset(WorkerOutput(Share(ips, owner, w), lookup, verbose)) ==
          multiset(WorkerOutput(Share(ips[..n], owner[..n], w), lookup, verbose)) +
          multiset(AddressLines(ips[n], lookup, verbose))
    ensures var n := |ips| - 1;
      owner[n] != w ==> Share(ips, owner, w) == Share(ips[..n], owner[..n], w)
  {
    var n := |ips| - 1;
    var s0 := Share(ips[..n], owner[..n], w);
    if owner[n] == w {
      assert Share(ips, owner, w) == s0 + [ips[n]];
      OutputAppend(s0, [ips[n]], lookup, verbose);
      OutputSingle(ips[n], lookup, verbose);
    } else {
      assert Share(ips, owner, w) == s0 + [];
      assert s0 + [] == s0;
    }
  }

  /**
   * However the channel distributes the addresses over k workers, the
   * lines the pool emits are, as a multiset, those one worker would emit
   * for all the addresses in order.
   */
  lemma {:induction false} PoolComplete(ips: seq<string>, owner: seq<nat>, k: nat,
                                        lookup: string -> Option<seq<string>>, verbose: bool)
    requires |owner| == |ips|
    requires forall i :: 0 <= i < |owner| ==> owner[i] < k
    ensures PoolOutput(ips, owner, k, lookup, verbose) == multiset(WorkerOutput(ips, lookup, verbose))
  {
    if |ips| == 0 {
      PoolEmpty(owner, k, lookup, verbose);
    } else {
      var n := |ips| - 1;
      PoolComplete(ips[..n], owner[..n], k, lookup, verbose);
      PoolStep(ips, owner, k, lookup, verbose);
    }
  }

  /**
   * However many workers there are and however the addresses are shared,
   * the pool emits exactly one line per hostname of every address that
   * resolved.
   */
  lemma PoolCount(ips: seq<string>, owner: seq<nat>, k: nat,
                  lookup: string -> Option<seq<string>>, verbose: bool)
    requires |owner| == |ips|
    requires forall i :: 0 <= i < |owner| ==> owner[i] < k
    ensures |PoolOutput(ips, owner, k, lookup, verbose)| == HostCount(ips, lookup)
  {
    PoolComplete(ips, owner, k, lookup, verbose);
    OutputCount(ips, lookup, verbose);
  }

  /** With no addresses no worker emits anything. */
  lemma {:induction false} PoolEmpty(owner: seq<nat>, k: nat, lookup: string -> Option<seq<string>>, verbose: bool)
    requires |owner| == 0
    ensures PoolOutput([], owner, k, lookup, verbose) == multiset{}
  {
    if k > 0 {
      PoolEmpty(owner, k - 1, lookup, verbose);
    }
  }
}
