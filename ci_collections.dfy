/** The two collections the suite puts CiString into: a `HashSet<CiString>`,
    whose keys are told apart by GetHashCode and Equals, and a
    `List<CiString>` sorted in place by `Sort()`, which orders elements with
    Compare (null first). */
module CiCollections {
  import opened Wrappers
  import opened CaseFolding
  import opened CaseInsensitiveString

  /** Some key of `keys` has the same folded form as `x`, that is, equals it
      under Equals. */
  predicate HasKey(keys: seq<CiString>, x: CiString) {
    exists i :: 0 <= i < |keys| && Key(keys[i]) == Key(x)
  }

  /** No two keys are equal under Equals: the set invariant. */
  predicate DistinctKeys(keys: seq<CiString>) {
    forall i, j :: 0 <= i < j < |keys| ==> Key(keys[i]) != Key(keys[j])
  }

  /** The folded forms of the keys: the set's contents up to case. */
  function KeySet(keys: seq<CiString>): set<string> {
    if keys == [] then {} else KeySet(keys[..|keys| - 1]) + {Key(keys[|keys| - 1])}
  }

  /** `x` is in the set exactly when its folded form is among the keys'. */
  lemma {:induction false} KeySetMembers(keys: seq<CiString>, x: CiString)
    ensures Key(x) in KeySet(keys) <==> HasKey(keys, x)
  {
    if keys != [] {
      var init := keys[..|keys| - 1];
      KeySetMembers(init, x);
      assert forall i :: 0 <= i < |init| ==> init[i] == keys[i];
      if HasKey(keys, x) && !HasKey(init, x) {
        assert Key(keys[|keys| - 1]) == Key(x);
      }
    }
  }

  /** A set without case duplicates holds one folded form per key. */
  lemma {:induction false} DistinctKeysCardinality(keys: seq<CiString>)
    requires DistinctKeys(keys)
    ensures |KeySet(keys)| == |keys|
  {
    if keys != [] {
      var init := keys[..|keys| - 1];
      var last := keys[|keys| - 1];
      assert forall i :: 0 <= i < |init| ==> init[i] == keys[i];
      DistinctKeysCardinality(init);
      KeySetMembers(init, last);
    }
  }

  /** Membership depends only on the folded form: a case variant of a present
      key is present too. */
  lemma HasKeyIgnoresCase(keys: seq<CiString>, x: CiString, y: CiString)
    requires HasKey(keys, x) && SameIgnoringCase(x.value, y.value)
    ensures HasKey(keys, y)
  {
    var i :| 0 <= i < |keys| && EqualsCi(keys[i], x);
    FoldedAgrees(keys[i].value, x.value);
    FoldedAgrees(x.value, y.value);
    FoldedAgrees(keys[i].value, y.value);
  }

  /** `HashSet<CiString>` with the keys in insertion order. */
  class CiHashSet {
    var keys: seq<CiString>

    ghost predicate Valid()
      reads this
    {
      DistinctKeys(keys)
    }

    /** `new HashSet<CiString>()`. */
    constructor ()
      ensures Valid() && keys == []
    {
      keys := [];
    }

    /** `Contains(x)`: some key has the same hash and is Equals to `x`. */
    method Contains(x: CiString) returns (found: bool)
      ensures found <==> HasKey(keys, x)
      ensures found <==> Key(x) in KeySet(keys)
    {
      KeySetMembers(keys, x);
      var h := HashCode(x);
      var i := 0;
      found := false;
      while i < |keys|
        invariant 0 <= i <= |keys|
        invariant !HasKey(keys[..i], x)
      {
        if HashCode(keys[i]) == h && EqualsCi(keys[i], x) {
          found := true;
          return;
        }
        assert !EqualsCi(keys[i], x) by {
          if EqualsCi(keys[i], x) { HashConsistent(keys[i], x); }
        }
        assert forall j :: 0 <= j < i + 1 ==> keys[..i + 1][j] == keys[j];
        i := i + 1;
      }
      assert keys[..i] == keys;
    }

    /** `Add(x)`: inserts and returns true when no key equals `x`; otherwise
        returns false and leaves the set as it was. */
    method Add(x: CiString) returns (added: bool)
      requires Valid()
      modifies this
      ensures Valid()
      ensures added <==> !HasKey(old(keys), x)
      ensures keys == if added then old(keys) + [x] else old(keys)
      ensures KeySet(keys) == old(KeySet(keys)) + {Key(x)}
    {
      KeySetMembers(keys, x);
      var present := Contains(x);
      added := !present;
      if added {
        keys := keys + [x];
        assert keys[..|keys| - 1] == old(keys);
        forall i | 0 <= i < |keys| - 1 ensures !EqualsCi(keys[i], x) {
          assert keys[i] == old(keys)[i];
        }
      } else {
        assert Key(x) in KeySet(keys);
      }
    }
  }

  // ---------------------------------------------------------------- Sorting

  /** `cmp` is a three-way comparer whose `<= 0` is total and transitive, the
      contract `List.Sort` relies on. */
  ghost predicate TotalPreorder<T(!new)>(cmp: (T, T) -> int) {
    && (forall a, b :: cmp(a, b) <= 0 || cmp(b, a) <= 0)
    && (forall a, b, c :: cmp(a, b) <= 0 && cmp(b, c) <= 0 ==> cmp(a, c) <= 0)
  }

  /** Every earlier element compares <= every later one. */
  predicate SortedBy<T>(s: seq<T>, cmp: (T, T) -> int) {
    forall i, j :: 0 <= i < j < |s| ==> cmp(s[i], s[j]) <= 0
  }

  /** Ordered by CiString.Compare, null first. */
  predicate Sorted(s: seq<Option<CiString>>) {
    SortedBy(s, Compare)
  }

  /** Compare is a comparer `List.Sort` can use. */
  lemma CompareIsComparer()
    ensures TotalPreorder(Compare)
  {
    forall a, b ensures Compare(a, b) <= 0 || Compare(b, a) <= 0 {
      CompareAntisymmetric(a, b);
    }
    forall a, b, c | Compare(a, b) <= 0 && Compare(b, c) <= 0 ensures Compare(a, c) <= 0 {
      CompareTransitive(a, b, c);
    }
  }

  /** Placing `x` between a prefix of elements <= `x` and a suffix of elements
      >= `x` keeps a sorted sequence sorted. */
  lemma SortedSplice<T>(s: seq<T>, j: nat, x: T, cmp: (T, T) -> int)
    requires SortedBy(s, cmp) && j <= |s|
    requires forall k :: 0 <= k < j ==> cmp(s[k], x) <= 0
    requires forall k :: j <= k < |s| ==> cmp(x, s[k]) <= 0
    ensures SortedBy(s[..j] + [x] + s[j..], cmp)
  {
    var t := s[..j] + [x] + s[j..];
    forall a, b | 0 <= a < b < |t| ensures cmp(t[a], t[b]) <= 0 {
      var a' := if a < j then a else a - 1;
      var b' := if b < j then b else b - 1;
      if a != j && b != j {
        assert t[a] == s[a'] && t[b] == s[b'];
      } else if a == j {
        assert t[b] == s[b'];
      } else {
        assert t[a] == s[a'];
      }
    }
  }

  /** Inserts `x` into the sorted `s` after every element that is <= `x`. */
  method InsertSorted<T(!new)>(s: seq<T>, x: T, cmp: (T, T) -> int) returns (t: seq<T>)
    requires TotalPreorder(cmp) && SortedBy(s, cmp)
    ensures SortedBy(t, cmp)
    ensures multiset(t) == multiset(s) + multiset{x}
  {
    var j := 0;
    while j < |s| && cmp(s[j], x) <= 0
      invariant 0 <= j <= |s|
      invariant forall k :: 0 <= k < j ==> cmp(s[k], x) <= 0
    {
      j := j + 1;
    }
    forall k | j <= k < |s| ensures cmp(x, s[k]) <= 0 {
      assert cmp(x, s[j]) <= 0;
    }
    SortedSplice(s, j, x, cmp);
    t := s[..j] + [x] + s[j..];
    assert s == s[..j] + s[j..];
  }

  /** Insertion sort by `cmp`: the result is sorted and a permutation of `s`. */
  method SortBy<T(!new)>(s: seq<T>, cmp: (T, T) -> int) returns (r: seq<T>)
    requires TotalPreorder(cmp)
    ensures SortedBy(r, cmp)
    ensures multiset(r) == multiset(s)
  {
    r := [];
    var i := 0;
    while i < |s|
      invariant 0 <= i <= |s|
      invariant SortedBy(r, cmp)
      invariant multiset(r) == multiset(s[..i])
    {
      r := InsertSorted(r, s[i], cmp);
      assert s[..i + 1] == s[..i] + [s[i]];
      i := i + 1;
    }
    assert s[..i] == s;
  }

  /** `List<CiString>`: the items in list order (null allowed). */
  class CiList {
    var items: seq<Option<CiString>>

    /** `new List<CiString>()`. */
    constructor ()
      ensures items == []
    {
      items := [];
    }

    /** `Add(x)`: appends at the end. */
    method Add(x: Option<CiString>)
      modifies this
      ensures items == old(items) + [x]
    {
      items := items + [x];
    }

    /** `Sort()`: reorders the items in place by Compare. */
    method Sort()
      modifies this
      ensures Sorted(items)
      ensures multiset(items) == multiset(old(items))
    {
      CompareIsComparer();
      items := SortBy(items, Compare);
    }
  }
}
