/**
 * The accumulator of responding hosts in src/scli.go: the package-level map
 * `m` (address -> true) and slice `a`, which `add` updates together so that
 * `a` lists every address of `m` once, in the order of first discovery.
 */
module Discovery {

  predicate NoDuplicates<T(==)>(s: seq<T>)
  {
    forall i, j :: 0 <= i < j < |s| ==> s[i] != s[j]
  }

  /** In a list without duplicates each member occurs exactly once. */
  lemma {:induction false} OccursOnce<T>(s: seq<T>, x: T)
    requires NoDuplicates(s) && x in s
    ensures multiset(s)[x] == 1
    decreases |s|
  {
    assert s == [s[0]] + s[1..];
    assert NoDuplicates(s[1..]);
    if s[0] == x {
      assert x !in s[1..] by {
        forall k | 0 <= k < |s[1..]| ensures s[1..][k] != x { assert s[k + 1] != s[0]; }
      }
    } else {
      OccursOnce(s[1..], x);
    }
  }

  /** A list without duplicates has as many entries as its set of members. */
  lemma {:induction false} DistinctCount<T>(s: seq<T>)
    requires NoDuplicates(s)
    ensures |set x | x in s| == |s|
    decreases |s|
  {
    if s != [] {
      var t := s[1..];
      assert NoDuplicates(t);
      DistinctCount(t);
      assert s[0] !in t by {
        forall k | 0 <= k < |t| ensures t[k] != s[0] { assert s[k + 1] != s[0]; }
      }
      assert (set x | x in s) == (set x | x in t) + {s[0]} by {
        assert s == [s[0]] + t;
      }
    }
  }

  class DiscoverySet {
    /** The Go map `m`: an address is recorded by mapping it to true. */
    var m: map<string, bool>
    /** The Go slice `a`: the recorded addresses in order of discovery. */
    var a: seq<string>

    /**
     * Go's `m[s]`: the stored flag, or false (the zero value) when `s` is
     * absent.  Under the invariant it tells exactly whether `s` is listed in `a`.
     */
    function Seen(s: string): (b: bool)
      reads this
      ensures Valid() ==> (b <==> s in a)
    {
      s in m && m[s]
    }

    /** `a` holds no address twice and holds exactly the addresses `m` maps to true. */
    ghost predicate Valid()
      reads this
    {
      && NoDuplicates(a)
      && (forall s :: s in m ==> m[s])
      && (forall s :: s in m <==> s in a)
    }

    /** The state before the scan: `make(map[string]bool)` and `[]string{}`. */
    constructor ()
      ensures Valid()
      ensures m == map[] && a == []
    {
      m := map[];
      a := [];
    }

    /**
     * `add`: an address not seen yet is appended to `a` and recorded in `m`;
     * one already seen changes nothing.
     */
    method Add(s: string)
      requires Valid()
      modifies this
      ensures Valid()
      ensures Seen(s) && s in a && multiset(a)[s] == 1
      ensures old(Seen(s)) ==> m == old(m) && a == old(a)
      ensures !old(Seen(s)) ==> a == old(a) + [s] && m == old(m)[s := true]
      ensures |a| == |m|
    {
      if Seen(s) {
        OccursOnce(a, s);
        SizeMatches();
        return;
      }
      a := a + [s];
      m := m[s := true];
      OccursOnce(a, s);
      SizeMatches();
    }

    /** The number of discovered addresses is the number of keys of `m`. */
    lemma SizeMatches()
      requires Valid()
      ensures |a| == |m|
    {
      DistinctCount(a);
      assert m.Keys == set x | x in a;
    }
  }
}
