/**
 * The scan loop of `main` in src/scli.go, run sequentially: parse the range,
 * probe every address from its first to its last end, record each peer that
 * answered with an Echo Reply, and sort what was found by address.
 *
 * Sending and receiving ICMP is not modelled.  What one probe observed is an
 * input: `replies[ip]` is the peer whose Echo Reply the probe of target `ip`
 * read, and a target absent from `replies` timed out, failed, or read a
 * message that was not an Echo Reply.  Because all probes read from one
 * shared socket, the peer need not be the target itself.
 */
module Sweep {
  import opened TextSplit
  import opened AddressCodec
  import opened Subnet
  import opened Discovery
  import opened ResultSort

  /**
   * The loop `for ip := ipToInt(startIP); ip <= ipToInt(endIP); ip++`: the
   * integers it visits, in order, and the text `intToIP(ip)` each probe is
   * sent to.
   */
  method EnumerateTargets(startIP: string, endIP: string) returns (targets: seq<int>, probes: seq<string>)
    ensures var lo, hi := IpToInt(startIP), IpToInt(endIP);
      |targets| == (if lo <= hi then hi - lo + 1 else 0)
    ensures forall k :: 0 <= k < |targets| ==> targets[k] == IpToInt(startIP) + k
    ensures forall k :: 0 <= k < |targets| ==> IpToInt(startIP) <= targets[k] <= IpToInt(endIP)
    ensures forall i, j :: 0 <= i < j < |targets| ==> targets[i] < targets[j]
    ensures |probes| == |targets|
    ensures forall k :: 0 <= k < |probes| ==> probes[k] == IntToIP(targets[k]) && IpToInt(probes[k]) == targets[k]
  {
    targets, probes := [], [];
    var ip := IpToInt(startIP);
    while ip <= IpToInt(endIP)
      invariant IpToInt(startIP) <= ip
      invariant IpToInt(startIP) <= IpToInt(endIP) ==> ip <= IpToInt(endIP) + 1
      invariant IpToInt(startIP) > IpToInt(endIP) ==> ip == IpToInt(startIP)
      invariant |targets| == ip - IpToInt(startIP) == |probes|
      invariant forall k :: 0 <= k < |targets| ==> targets[k] == IpToInt(startIP) + k
      invariant forall k :: 0 <= k < |probes| ==> probes[k] == IntToIP(targets[k]) && IpToInt(probes[k]) == targets[k]
      decreases IpToInt(endIP) + 1 - ip
    {
      var targetIP := IntToIP(ip);
      IpToIntOfIntToIP(ip);
      targets, probes := targets + [ip], probes + [targetIP];
      ip := ip + 1;
    }
  }

  /** The peers recorded by the probes of targets `lo` to `hi`. */
  ghost function Responders(replies: map<int, string>, lo: int, hi: int): set<string>
  {
    set ip | ip in replies && lo <= ip <= hi :: replies[ip]
  }

  /**
   * The probing loop of `main` with `add` called for every Echo Reply.  It is
   * the same loop over `lo` to `hi` as `EnumerateTargets` (src/scli.go:94),
   * with each target's reply handled in the body instead of the target being
   * collected.  Afterwards the discovered set holds exactly the peers that
   * answered the probes of `lo` to `hi`.
   */
  method RecordReplies(lo: int, hi: int, replies: map<int, string>) returns (d: DiscoverySet)
    ensures fresh(d) && d.Valid()
    ensures forall s :: s in d.a <==> s in Responders(replies, lo, hi)
  {
    d := new DiscoverySet();
    var ip := lo;
    while ip <= hi
      invariant d.Valid()
      invariant lo <= ip && (lo <= hi ==> ip <= hi + 1) && (lo > hi ==> ip == lo)
      invariant forall s :: s in d.a <==> s in Responders(replies, lo, ip - 1)
      decreases hi + 1 - ip
    {
      if ip in replies {
        d.Add(replies[ip]);
      }
      assert forall s :: s in Responders(replies, lo, ip) <==>
        s in Responders(replies, lo, ip - 1) || (ip in replies && s == replies[ip]);
      ip := ip + 1;
    }
    forall s ensures s in Responders(replies, lo, hi) <==> s in Responders(replies, lo, ip - 1) {
      if lo <= hi { assert ip - 1 == hi; }
    }
  }

  /** The `sort.Slice` call on the discovered list, and its result. */
  method SortedSnapshot(d: DiscoverySet) returns (found: seq<string>)
    requires d.Valid()
    ensures forall s :: s in found <==> s in d.a
    ensures NoDuplicates(found)
    ensures SortedByAddress(found)
  {
    var a := new string[|d.a|](k requires 0 <= k < |d.a| reads d => d.a[k]);
    assert a[..] == d.a;
    SortByAddress(a);
    found := a[..];
    forall s ensures s in found <==> s in d.a {
      assert s in found <==> s in multiset(found);
      assert s in d.a <==> s in multiset(d.a);
    }
    PermutationKeepsDistinct(d.a, found);
  }

  /**
   * The scan of `main` from the range text on: every probe whose read
   * returned an Echo Reply adds its peer, and the discovered list is sorted
   * by address.  The result lists each responding peer exactly once.
   */
  method Scan(rangeStr: string, replies: map<int, string>) returns (found: seq<string>)
    ensures var (startIP, endIP) := ParseIPRange(rangeStr);
      forall s :: s in found <==> s in Responders(replies, IpToInt(startIP), IpToInt(endIP))
    ensures NoDuplicates(found)
    ensures SortedByAddress(found)
  {
    var (startIP, endIP) := ParseIPRange(rangeStr);
    var d := RecordReplies(IpToInt(startIP), IpToInt(endIP), replies);
    found := SortedSnapshot(d);
  }

  /** Reordering a list without duplicates leaves none. */
  lemma PermutationKeepsDistinct(s: seq<string>, t: seq<string>)
    requires NoDuplicates(s) && multiset(s) == multiset(t)
    ensures NoDuplicates(t)
  {
    forall i, j | 0 <= i < j < |t| ensures t[i] != t[j] {
      if t[i] == t[j] {
        var x := t[i];
        assert multiset(t)[x] >= 2 by {
          assert t == t[..j] + t[j..];
          assert t[i] in t[..j];
          assert multiset(t[..j])[x] >= 1;
          assert multiset(t[j..])[x] >= 1 by { assert t[j..][0] == x; }
        }
        OccursOnce(s, x);
        assert false;
      }
    }
  }
}
