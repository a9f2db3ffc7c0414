# scli: a verified model of the ICMP sweeper's address arithmetic and bookkeeping

scli finds live hosts in an IPv4 range. It sends an ICMP Echo Request to every
address from the first to the last end of the range. It records each peer that
answers with an Echo Reply, once. At the end it prints the recorded peers sorted
by address value.

This project models the sequential, deterministic part of `src/scli.go` in Dafny
and proves properties of it:

- **Address codec** (`AddressCodec`): `ipToInt` and `intToIP`.
  - The text parser stands in for `net.ParseIP(..).To4()`. It accepts the canonical
    dotted quad: four fields split at '.', each made of digits, with no leading
    zero and a value of at most 255.
  - Proved: the integer lies in [0, 2^32); text that is not IPv4 gives 0.
  - Proved: both round trips hold (integer → text → integer, and text → integer → text
    for dotted quads), and `intToIP` writes the octets `(n>>24)&0xFF … n&0xFF` in order.
- **Text splitting** (`TextSplit`): `strings.Split` with a one-character separator.
  Its pieces are separator-free and there is one more piece than there are
  separators. It is inverted by `Join`.
- **Range helpers** (`Subnet`): `parseIPRange`, `lastIPInRange` (an `array<bv8>`
  buffer updated in a loop), `getIPRange` and `IP.To4`.
  - The broadcast address keeps every network bit, sets every host bit, and is the
    only address that does both.
  - What `getIPRange` writes is read back by `parseIPRange` as the network address
    and its broadcast address, and the first is never above the second.
- **Discovery set** (`Discovery.DiscoverySet`): a class holding the package-level
  map `m` and slice `a`, updated by `add`.
  - Its invariant: `a` has no duplicates and holds exactly the keys of `m`, all mapped to true.
  - `add` appends a new address at the end and leaves earlier entries in place.
    Adding a known address again changes nothing.
- **Result sort** (`ResultSort`): `sort.Slice` keyed by `ipToInt`, as an in-place
  insertion sort on an `array<string>`. The result is non-decreasing by address
  and a permutation of the input. "2.0.0.1" comes before "10.0.0.1".
- **Scan loop** (`Sweep`): the `for ip := …; ip <= …; ip++` loop and the rest of
  `main` after the range is known, run sequentially.
  - The loop visits exactly `end - start + 1` targets in ascending order, and none
    when start > end.
  - The final list holds every peer that replied, once each, sorted by address.

What one probe observed is an input of the model. `replies[ip]` is the peer
whose Echo Reply the probe of target `ip` read. A target missing from `replies`
timed out, failed, or read a message that was not an Echo Reply. All probes read
from one shared socket, so that peer need not be the target itself.

Two behaviours of the code that a reader may not expect, and one modelling note:

- Text that is not an IPv4 address is not rejected with an error. `ipToInt` maps
  it to 0 (`AddressCodec.IpToInt`).
- A malformed range string does not give an empty scan. `parseIPRange` falls back
  to ("0.0.0.0", "0.0.0.0"), and the loop then probes address 0 once
  (`Subnet.MalformedRangeIsZeroAddress`).
- `intToIP` is modelled for every integer. Go's `>>` rounds toward minus infinity
  and `& 0xFF` takes the low byte, which are Dafny's `/` and `%` by a positive
  constant. Go's `int` is taken to be 64 bits wide (see "## Left out"), so
  `o0<<24 + …` does not overflow and `Pack` is plain arithmetic.

## Model

| member | source | states |
|---|---|---|
| `AddressCodec.IpToInt` | src/scli.go:169-175 | the integer is below 2^32, and is 0 for text that is not a dotted quad |
| `AddressCodec.ParseIPv4` | src/scli.go:170 | a successful parse yields exactly four octets |
| `AddressCodec.ParseByte` | src/scli.go:170 | a field is accepted exactly when it is digits without a leading zero and at most 255, and then yields its decimal value |
| `AddressCodec.Pack` | src/scli.go:174 | `o0<<24 + o1<<16 + o2<<8 + o3` of four octets lies in [0, 2^32) |
| `AddressCodec.UnpackPack` | src/scli.go:174-179 | packing four octets and splitting them again gives the same octets |
| `AddressCodec.FormatDecimal` | src/scli.go:179 | `%d` writes digits without a leading zero, no '.' or '-', whose decimal value is the number |
| `AddressCodec.CanonicalValueBound` | src/scli.go:170 | a digit string with no leading zero is at least 10 when longer than one digit, and at least 1 when it starts with a non-zero digit |
| `AddressCodec.CanonicalFormatValue` | src/scli.go:170 | a field without a leading zero is exactly what `%d` writes for its value |
| `AddressCodec.JoinFour` | src/scli.go:179 | four fields written with '.' between them are the four fields joined with '.' |
| `AddressCodec.FormatIPv4` | src/scli.go:179 | the `%d.%d.%d.%d` text of four octets parses back as those octets and holds no '-' |
| `AddressCodec.FormatParseIPv4` | src/scli.go:170-179 | any text accepted as IPv4 is already the dotted-decimal text of its octets |
| `AddressCodec.IntToIP` | src/scli.go:178-180 | for every int, `intToIP` yields a dotted quad whose octets are those of `Unpack`: `(n>>24)&0xFF, (n>>16)&0xFF, (n>>8)&0xFF, n&0xFF` in order |
| `AddressCodec.Unpack` | src/scli.go:179 | the four shifted and masked octets are the octets whose packing is n modulo 2^32 |
| `AddressCodec.ShiftsByBytes` | src/scli.go:179 | shifting by 16 or 24 bits is shifting by 8 bits repeatedly, and the low 32 bits of n are its four low bytes in place |
| `AddressCodec.IpToIntOfIntToIP` | src/scli.go:169-180 | `ipToInt(intToIP(n)) == n` for every n in [0, 2^32) |
| `AddressCodec.IntToIPOfIpToInt` | src/scli.go:169-180 | `intToIP(ipToInt(s)) == s` for every dotted quad s |
| `AddressCodec.IpToIntInjective` | src/scli.go:169-175 | two dotted quads have the same integer exactly when they are the same text |
| `AddressCodec.SmallDecimals` | src/scli.go:179 | `%d` writes 0, 1, 2 and 10 as "0", "1", "2" and "10" |
| `AddressCodec.TwoDotZeroDotZeroDotOne` | src/scli.go:169-175 | `ipToInt("2.0.0.1") == 0x02000001` |
| `AddressCodec.TenDotZeroDotZeroDotOne` | src/scli.go:169-175 | `ipToInt("10.0.0.1") == 0x0A000001` |
| `AddressCodec.NumericNotLexicographic` | src/scli.go:108-110 | "2.0.0.1" has the smaller key although "10.0.0.1" is smaller character by character |
| `TextSplit.Split` | src/scli.go:184 | a split always yields at least one piece |
| `TextSplit.SplitShape` | src/scli.go:184 | splitting yields one more piece than there are separators, and no piece holds the separator |
| `TextSplit.JoinSplit` | src/scli.go:184 | joining the pieces with the separator gives back the text |
| `TextSplit.SplitWithoutSeparator` | src/scli.go:184 | text without the separator is one piece |
| `TextSplit.SplitAfterPiece` | src/scli.go:184 | a separator-free prefix followed by the separator becomes the first piece |
| `TextSplit.SplitJoin` | src/scli.go:184 | splitting the join of separator-free pieces gives the pieces back |
| `Subnet.ParseIPRange` | src/scli.go:183-189 | with exactly one '-' the result is the two '-'-free pieces around it; otherwise ("0.0.0.0", "0.0.0.0") |
| `Subnet.ParseIPRangeOfJoin` | src/scli.go:183-189 | "A-B" with '-'-free ends is read back as (A, B) |
| `Subnet.MalformedRangeIsZeroAddress` | src/scli.go:183-189 | the fallback range starts and ends at address 0, a valid dotted quad |
| `Subnet.To4` | src/scli.go:193 | a 4-byte address is its own 4-byte form; a 16-byte address has one exactly when it starts with ten zero bytes and 0xFF, 0xFF, and it is then the last four bytes; other lengths have none |
| `Subnet.Broadcast` | src/scli.go:209-211 | each byte keeps the address's bits under the mask and has every other bit set |
| `Subnet.BroadcastUnique` | src/scli.go:209-211 | any address that keeps the network bits and sets the host bits is the broadcast address |
| `Subnet.LastIPInRange` | src/scli.go:205-213 | the freshly allocated buffer ends holding the broadcast address of the 4-byte form, or nothing when there is none |
| `Subnet.OrNotBelow` | src/scli.go:210 | OR-ing bits into a byte never lowers it |
| `Subnet.BroadcastNotBelow` | src/scli.go:205-213 | the broadcast address is never below the network address as an integer |
| `Subnet.Octets` | src/scli.go:198-199 | the four bytes of a 4-byte address as the ints `IP.String` prints |
| `Subnet.GetIPRange` | src/scli.go:192-202 | "Invalid" without a 4-byte form; otherwise the network address, '-', and the broadcast address in dotted decimal, which `parseIPRange` reads back as (network, broadcast), with network ≤ broadcast |
| `Discovery.OccursOnce` | src/scli.go:23-28 | in a list without duplicates every member occurs exactly once |
| `Discovery.DistinctCount` | src/scli.go:19-28 | a list without duplicates has as many entries as distinct members |
| `Discovery.DiscoverySet.constructor` | src/scli.go:19-20 | the scan starts with an empty map and an empty list, which satisfy the invariant |
| `Discovery.DiscoverySet.Add` | src/scli.go:23-30 | keeps the invariant; afterwards s is recorded and occurs in `a` exactly once; an address seen before leaves `m` and `a` unchanged; a new one is appended at the end with earlier entries kept, and `m` gains it mapped to true |
| `Discovery.DiscoverySet.SizeMatches` | src/scli.go:19-28 | under the invariant the list has as many entries as the map has keys |
| `Discovery.DiscoverySet.Seen` | src/scli.go:24 | Go's `m[s]`, false for a missing key; under the invariant it is true exactly when s is listed in `a` |
| `ResultSort.SortBy` | src/scli.go:108-110 | the array ends non-decreasing by the key and is a permutation of its old contents |
| `ResultSort.SortByAddress` | src/scli.go:108-110 | the array ends non-decreasing by `ipToInt` and is a permutation of its old contents |
| `ResultSort.SortedByAddressAt` | src/scli.go:108-110 | a sorted list has the smaller-or-equal key at the earlier of any two positions |
| `ResultSort.SortedDistinctIncreasing` | src/scli.go:108-110 | a sorted list of distinct dotted quads is strictly increasing by address |
| `ResultSort.TwoBeforeTen` | src/scli.go:108-110 | in a sorted list "2.0.0.1" stands before "10.0.0.1" |
| `Sweep.EnumerateTargets` | src/scli.go:94-103 | visits `end - start + 1` targets (none when start > end), the k-th being start + k, strictly ascending, each probed at `intToIP` of it, which reads back to the target |
| `Sweep.RecordReplies` | src/scli.go:94-105 | after the loop, the discovered list holds exactly the peers that replied to the probes of the range |
| `Sweep.SortedSnapshot` | src/scli.go:107-116 | the sorted result holds the discovered addresses, each once, non-decreasing by address |
| `Sweep.Scan` | src/scli.go:81-116 | the final list holds exactly the peers that replied to probes of the parsed range, without duplicates, sorted by address |
| `Sweep.PermutationKeepsDistinct` | src/scli.go:108-110 | reordering a list without duplicates leaves none |

## Left out

- The interface listing, the stdin prompts and the `strconv.Atoi` choice in `main` (src/scli.go:34-78) are left out. They are interactive I/O and OS queries. The model starts from the range text.
- `ping` (src/scli.go:120-166) is left out: the raw ICMP send and receive, the 5-second read deadline, `icmp.Message` marshalling and parsing, and `os.Getpid`. Its one effect on the model's state, `add(peer)` on an Echo Reply, is an input (`replies`). The 16-bit truncation of the echo ID and sequence number is part of this.
- `icmp.ListenPacket`, `defer c.Close()`, the `sync.WaitGroup` and one goroutine per target (src/scli.go:86-105) are left out. The loop runs sequentially. So the unsynchronised updates of `m` and `a` from many goroutines (a data race in the source) are not modelled, and neither is the interleaving of replies between probes.
- `log` and `fmt` output is left out, including the "Found IP" line in `add` and the final report. Only the decimal formatting in `intToIP` and `IP.String` is modelled.
- `AddressCodec.ParseIPv4`: the full grammar of `net.ParseIP` is not part of this model. IPv6 text and IPv4-mapped IPv6 text (for which `To4` succeeds) are treated as "not IPv4", so `ipToInt` gives 0 for them where Go gives the embedded IPv4 address.
- `AddressCodec.Pack`: Go's `int` is taken to be 64 bits wide, as on amd64 and arm64. On 32-bit targets (386, arm, mips) `int(ip[0])<<24` wraps for a first octet of 128 or more, so `ipToInt` is negative there and the sort order changes; that is not modelled.
- `AddressCodec.ParseIPv4`: the parser follows `net.ParseIP` from Go 1.17 on. Earlier versions also accept octets with leading zeros ("010"), which this model rejects (key 0).
- `Subnet.GetIPRange`: the `net.IPNet` that `net.ParseCIDR` builds is an input, so only nets with a mask at least as long as the address's 4-byte form are covered. With a shorter mask Go panics with an index out of range.
