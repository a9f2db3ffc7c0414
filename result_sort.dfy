/**
 * The final ordering of src/scli.go: `sort.Slice(a, less)` with
 * `less(i, j) == ipToInt(a[i]) < ipToInt(a[j])`, which orders the discovered
 * addresses by their integer value rather than by their text.  The sort is
 * written for any key, as `sort.Slice` is written for any comparator, and
 * `SortByAddress` applies it to `ipToInt`.
 */
module ResultSort {
  import opened AddressCodec

  /** Non-decreasing by `key` between every two positions. */
  ghost predicate SortedBy(s: seq<string>, key: string -> nat)
  {
    forall i, j :: 0 <= i < j < |s| ==> key(s[i]) <= key(s[j])
  }

  /** Non-decreasing by `ipToInt`. */
  ghost predicate SortedByAddress(s: seq<string>)
  {
    SortedBy(s, IpToInt)
  }

  /** Exchanges two neighbouring entries; nothing else changes. */
  method SwapDown(a: array<string>, j: int)
    requires 0 < j < a.Length
    modifies a
    ensures a[j - 1] == old(a[j]) && a[j] == old(a[j - 1])
    ensures forall k :: 0 <= k < a.Length && k != j - 1 && k != j ==> a[k] == old(a[k])
    ensures multiset(a[..]) == old(multiset(a[..]))
  {
    a[j - 1], a[j] := a[j], a[j - 1];
  }

  /** Moves `a[i]` left past every entry with a larger key, so that `a[..i + 1]` becomes sorted. */
  method InsertAt(a: array<string>, i: int, key: string -> nat)
    requires 0 <= i < a.Length
    requires SortedBy(a[..i], key)
    modifies a
    ensures SortedBy(a[..i + 1], key)
    ensures multiset(a[..]) == old(multiset(a[..]))
  {
    var j := i;
    while j > 0 && key(a[j - 1]) > key(a[j])
      invariant 0 <= j <= i
      invariant multiset(a[..]) == old(multiset(a[..]))
      invariant forall p, q :: 0 <= p < q <= i && p != j && q != j ==> key(a[p]) <= key(a[q])
      invariant forall q :: j < q <= i ==> key(a[j]) <= key(a[q])
    {
      SwapDown(a, j);
      j := j - 1;
    }
  }

  /** Sorts `a` in place by `key`: insertion sort, one entry at a time. */
  method SortBy(a: array<string>, key: string -> nat)
    modifies a
    ensures SortedBy(a[..], key)
    ensures multiset(a[..]) == old(multiset(a[..]))
  {
    var i := 0;
    while i < a.Length
      invariant 0 <= i <= a.Length
      invariant SortedBy(a[..i], key)
      invariant multiset(a[..]) == old(multiset(a[..]))
    {
      InsertAt(a, i, key);
      i := i + 1;
    }
    assert a[..a.Length] == a[..];
  }

  /**
   * The `sort.Slice` call: `a` ends non-decreasing by address and holds the
   * same entries as before.  Go's sort is not stable, so entries with equal
   * keys (two texts that are not IPv4, both keyed 0) may end in any order.
   */
  method SortByAddress(a: array<string>)
    modifies a
    ensures SortedByAddress(a[..])
    ensures multiset(a[..]) == old(multiset(a[..]))
  {
    SortBy(a, IpToInt);
  }

  /** What `SortedByAddress` says about two positions. */
  lemma SortedByAddressAt(s: seq<string>, i: int, j: int)
    requires SortedByAddress(s)
    requires 0 <= i < j < |s|
    ensures IpToInt(s[i]) <= IpToInt(s[j])
  {
  }

  /** Among dotted quads, a sorted list is strictly increasing once duplicates are gone. */
  lemma SortedDistinctIncreasing(s: seq<string>)
    requires SortedByAddress(s)
    requires forall k :: 0 <= k < |s| ==> IsIPv4(s[k])
    requires forall i, j :: 0 <= i < j < |s| ==> s[i] != s[j]
    ensures forall i, j :: 0 <= i < j < |s| ==> IpToInt(s[i]) < IpToInt(s[j])
  {
    forall i, j | 0 <= i < j < |s| ensures IpToInt(s[i]) < IpToInt(s[j]) {
      SortedByAddressAt(s, i, j);
      IpToIntInjective(s[i], s[j]);
    }
  }

  /** "2.0.0.1" is placed before "10.0.0.1". */
  lemma TwoBeforeTen(s: seq<string>, i: int, j: int)
    requires SortedByAddress(s)
    requires 0 <= i < |s| && 0 <= j < |s|
    requires s[i] == "2.0.0.1" && s[j] == "10.0.0.1"
    ensures i < j
  {
    NumericNotLexicographic();
    if j < i {
      SortedByAddressAt(s, j, i);
    }
  }
}
