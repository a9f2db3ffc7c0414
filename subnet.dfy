/**
 * The range helpers of src/scli.go: `parseIPRange` cuts "A-B" into its two
 * ends, `lastIPInRange` computes a network's broadcast address and
 * `getIPRange` writes a network as "first-last".
 */
module Subnet {
  import opened Wrappers
  import opened TextSplit
  import opened AddressCodec

  /** The fallback pair for text that is not exactly two pieces around '-'. */
  const NoRange: (string, string) := ("0.0.0.0", "0.0.0.0")

  /** `parseIPRange`: the two ends of "A-B", or ("0.0.0.0", "0.0.0.0") otherwise. */
  function ParseIPRange(rangeStr: string): (r: (string, string))
    ensures multiset(rangeStr)['-'] == 1 ==> r.0 + "-" + r.1 == rangeStr && '-' !in r.0 && '-' !in r.1
    ensures multiset(rangeStr)['-'] != 1 ==> r == NoRange
  {
    SplitShape(rangeStr, '-');
    var ips := Split(rangeStr, '-');
    if |ips| == 2 then
      JoinSplit(rangeStr, '-');
      (ips[0], ips[1])
    else NoRange
  }

  /** Joining two '-'-free ends with '-' and parsing the result gives the ends back. */
  lemma ParseIPRangeOfJoin(startIP: string, endIP: string)
    requires '-' !in startIP && '-' !in endIP
    ensures ParseIPRange(startIP + "-" + endIP) == (startIP, endIP)
  {
    SplitAfterPiece(startIP, endIP, '-');
    SplitWithoutSeparator(endIP, '-');
  }

  /**
   * Text that is not one '-' between two pieces falls back to the range
   * 0.0.0.0 to 0.0.0.0, which the scan loop visits once (target 0), rather
   * than to an empty range.
   */
  lemma MalformedRangeIsZeroAddress(rangeStr: string)
    requires multiset(rangeStr)['-'] != 1
    ensures IpToInt(ParseIPRange(rangeStr).0) == 0 && IpToInt(ParseIPRange(rangeStr).1) == 0
    ensures IsIPv4(ParseIPRange(rangeStr).0)
  {
    assert FormatDecimal(0) == "0";
    assert IntToIP(0) == "0.0.0.0";
  }

  /** An address of Go's `net.IP`: 4 bytes, or 16 bytes for the IPv6 form. */
  type IP = seq<bv8>

  /** Go's `net.IPNet`: an address and a mask of the same form. */
  datatype IPNet = IPNet(ip: IP, mask: seq<bv8>)

  /** Go's `IP.To4`: the 4-byte form of an IPv4 address, or None (nil) when there is none. */
  function To4(ip: IP): (r: Option<IP>)
    ensures r.Some? ==> |r.value| == 4
    ensures |ip| == 4 ==> r == Some(ip)
    ensures |ip| != 4 && |ip| != 16 ==> r.None?
    ensures |ip| == 16 ==> (r.Some? <==> ip[..12] == [0, 0, 0, 0, 0, 0, 0, 0, 0, 0, 0xFF, 0xFF])
    ensures |ip| == 16 && r.Some? ==> r.value == ip[12..]
  {
    if |ip| == 4 then Some(ip)
    else if |ip| == 16 && ip[..10] == seq(10, _ => 0) && ip[10] == 0xFF && ip[11] == 0xFF then Some(ip[12..])
    else None
  }

  /**
   * The broadcast address of `ip` under `mask`: each byte keeps the bits the
   * mask selects (the network part) and has every other bit (the host part) set.
   */
  function Broadcast(ip: IP, mask: seq<bv8>): (b: IP)
    requires |ip| <= |mask|
    ensures |b| == |ip|
    ensures forall k :: 0 <= k < |b| ==> b[k] & mask[k] == ip[k] & mask[k]
    ensures forall k :: 0 <= k < |b| ==> b[k] | mask[k] == 0xFF
  {
    seq(|ip|, k requires 0 <= k < |ip| => ip[k] | !mask[k])
  }

  /** Keeping the network bits and setting the host bits leaves exactly one possible address. */
  lemma BroadcastUnique(ip: IP, mask: seq<bv8>, b: IP)
    requires |ip| <= |mask| && |b| == |ip|
    requires forall k :: 0 <= k < |b| ==> b[k] & mask[k] == ip[k] & mask[k]
    requires forall k :: 0 <= k < |b| ==> b[k] | mask[k] == 0xFF
    ensures b == Broadcast(ip, mask)
  {
  }

  /**
   * `lastIPInRange`: copies the 4-byte form of the network address into a
   * fresh buffer and ORs each byte with the complement of the mask byte.  Go
   * indexes the mask at every position of that buffer, so the mask must be at
   * least as long (it panics otherwise); an address without a 4-byte form
   * gives an empty buffer.
   */
  method LastIPInRange(n: IPNet) returns (last: array<bv8>)
    requires |To4(n.ip).GetOr([])| <= |n.mask|
    ensures fresh(last)
    ensures last[..] == Broadcast(To4(n.ip).GetOr([]), n.mask)
  {
    var ip := To4(n.ip).GetOr([]);
    last := new bv8[|ip|](k requires 0 <= k < |ip| => ip[k]);
    var i := 0;
    while i < last.Length
      invariant 0 <= i <= last.Length == |ip|
      invariant forall k :: 0 <= k < i ==> last[k] == ip[k] | !n.mask[k]
      invariant forall k :: i <= k < last.Length ==> last[k] == ip[k]
    {
      last[i] := last[i] | !n.mask[i];
      i := i + 1;
    }
  }

  /** The octets of a 4-byte address as ints, as `IP.String` prints them. */
  function Octets(ip: IP): (o: seq<Byte>)
    requires |ip| == 4
    ensures |o| == 4 && forall k :: 0 <= k < 4 ==> o[k] == ip[k] as int
  {
    [ip[0] as int, ip[1] as int, ip[2] as int, ip[3] as int]
  }

  /** Setting bits never lowers a byte. */
  lemma OrNotBelow(x: bv8, y: bv8)
    ensures (x | y) as int >= x as int
  {
  }

  /** The broadcast address of a 4-byte address is never below it as an integer. */
  lemma BroadcastNotBelow(ip: IP, mask: seq<bv8>)
    requires |ip| == 4 && |ip| <= |mask|
    ensures Pack(Octets(ip)) <= Pack(Octets(Broadcast(ip, mask)))
  {
    var b := Broadcast(ip, mask);
    forall k | 0 <= k < 4 ensures b[k] as int >= ip[k] as int {
      OrNotBelow(ip[k], !mask[k]);
    }
  }

  /**
   * `getIPRange`: the dotted-decimal network address, '-', and the
   * dotted-decimal broadcast address for a network with a 4-byte form,
   * "Invalid" otherwise.  The text it writes is read back by `ParseIPRange` as the
   * network address and its broadcast address, and the first is never above
   * the second, so the scan over it is never empty.
   */
  method GetIPRange(n: IPNet) returns (r: string)
    requires |To4(n.ip).GetOr([])| <= |n.mask|
    ensures To4(n.ip).None? ==> r == "Invalid"
    ensures To4(n.ip).Some? ==>
      r == FormatIPv4(Octets(To4(n.ip).value)) + "-" + FormatIPv4(Octets(Broadcast(To4(n.ip).value, n.mask)))
    ensures To4(n.ip).Some? ==>
      ParseIPRange(r) == (FormatIPv4(Octets(To4(n.ip).value)), FormatIPv4(Octets(Broadcast(To4(n.ip).value, n.mask))))
    ensures To4(n.ip).Some? ==> IpToInt(ParseIPRange(r).0) <= IpToInt(ParseIPRange(r).1)
  {
    var ip := To4(n.ip);
    if ip.None? {
      return "Invalid";
    }
    var startIP := FormatIPv4(Octets(ip.value));
    var last := LastIPInRange(n);
    var endIP := FormatIPv4(Octets(last[..]));
    r := startIP + "-" + endIP;
    ParseIPRangeOfJoin(startIP, endIP);
    BroadcastNotBelow(ip.value, n.mask);
  }
}
