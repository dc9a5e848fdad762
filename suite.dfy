/** The facts CaseInsensitiveStringTest asserts, stated over the model. */
module CaseInsensitiveSuite {
  import opened Wrappers
  import opened CaseFolding
  import opened CaseInsensitiveString
  import opened CiCollections

  function Alice(): CiString { New("Alice") }
  function Lower(): CiString { New("alice") }
  function Upper(): CiString { New("ALICE") }
  function Reimu(): CiString { New("Reimu") }

  /** The folded forms of the suite's strings. */
  lemma FoldedExamples()
    ensures Key(Alice()) == "ALICE" && Key(Lower()) == "ALICE" && Key(Upper()) == "ALICE"
    ensures Key(Reimu()) == "REIMU" && Key(Empty()) == ""
  {
  }

  lemma EqualityExamples()
    ensures Empty().value == "" && Alice().value == "Alice"
    ensures Lower().value == "alice" && Upper().value == "ALICE"
    ensures OpEquals(Some(Alice()), Some(Lower())) && OpEquals(Some(Alice()), Some(Upper()))
    ensures OpEquals(Some(Lower()), Some(Upper())) && Lower().value != Upper().value
    ensures OpNotEquals(Some(Alice()), Some(Reimu()))
    ensures HashCode(Lower()) == HashCode(Upper())
    ensures !EqualsObject(Alice(), None) && !OpEquals(Some(Alice()), None) && !OpEquals(None, Some(Alice()))
    ensures OpEquals(None, None)
    ensures !EqualsObject(Alice(), Some(Str("Alice"))) && Alice().value == "Alice"
    ensures EqualsCi(Alice(), Alice()) && EqualsObject(Alice(), Some(Ci(Alice())))
    ensures OpEquals(Some(Alice()), Some(Alice())) && !OpNotEquals(Some(Alice()), Some(Alice()))
    ensures HashCode(Alice()) == HashCode(Alice())
    ensures OpEquals(Some(Alice()), Some(New("Alice"))) && HashCode(Alice()) == HashCode(New("Alice"))
  {
    HashIgnoresCase("alice", "ALICE");
    OpEqualsIsEquivalence(Some(Alice()), Some(Alice()), Some(Alice()));
  }

  lemma ComparisonExamples()
    ensures CompareTo(Alice(), Some(Ci(Alice()))) == Success(0)
    ensures CompareTo(Alice(), Some(Ci(Reimu()))) == Success(-1)
    ensures Compare(Some(Alice()), Some(Alice())) == 0
    ensures Compare(Some(Reimu()), Some(Alice())) == 1
    ensures CompareTo(Alice(), None) == Success(1)
    ensures Compare(Some(Alice()), None) == 1 && Compare(None, Some(Alice())) == -1
    ensures Compare(None, None) == 0
    ensures CompareTo(Alice(), Some(Str("Yukari"))) == Failure(ArgumentException)
  {
    CompareAntisymmetric(Some(Alice()), Some(Reimu()));
  }

  lemma RelationalExamples()
    ensures !Less(Some(Alice()), Some(Alice())) && !Greater(Some(Alice()), Some(Alice()))
    ensures LessEq(Some(Alice()), Some(Alice())) && GreaterEq(Some(Alice()), Some(Alice()))
    ensures Less(Some(Alice()), Some(Reimu())) && LessEq(Some(Alice()), Some(Reimu()))
    ensures !Greater(Some(Alice()), Some(Reimu())) && !GreaterEq(Some(Alice()), Some(Reimu()))
    ensures !Less(Some(Alice()), Some(Upper())) && !Greater(Some(Alice()), Some(Upper()))
    ensures !Less(Some(Alice()), Some(Lower())) && !Greater(Some(Alice()), Some(Lower()))
  {
    RelationalReflexivity(Some(Alice()));
    FoldedExamples();
  }

  /** The suite's three list elements in the order Compare gives them. */
  lemma OrderExamples()
    ensures Compare(Some(Empty()), Some(Alice())) == -1
    ensures Compare(Some(Alice()), Some(Reimu())) == -1
  {
    FoldedExamples();
  }

  /** The HashSet part of the test: `lower` and `upper` are case variants of
      `alice`, while `reimu` and `empty` differ from it and from each other;
      the suite's own strings are such values (FoldedExamples). */
  method HashSetExample(alice: CiString, reimu: CiString, lower: CiString, upper: CiString, empty: CiString)
    returns (addAlice: bool, addReimu: bool, addLower: bool, addUpper: bool,
             hasAlice: bool, hasReimu: bool, hasEmpty: bool, hasLower: bool, hasUpper: bool)
    requires Key(lower) == Key(alice) && Key(upper) == Key(alice)
    requires Key(reimu) != Key(alice) && Key(empty) != Key(alice) && Key(empty) != Key(reimu)
    ensures addAlice && addReimu && !addLower && !addUpper
    ensures hasAlice && hasReimu && !hasEmpty && hasLower && hasUpper
  {
    var keys := new CiHashSet();
    addAlice := keys.Add(alice);
    assert keys.keys == [alice];
    addReimu := keys.Add(reimu);
    assert keys.keys == [alice, reimu];
    assert Key(keys.keys[0]) == Key(lower) && Key(keys.keys[0]) == Key(upper);
    addLower := keys.Add(lower);
    assert keys.keys == [alice, reimu];
    addUpper := keys.Add(upper);
    assert keys.keys == [alice, reimu];
    assert !HasKey(keys.keys, empty) by {
      assert Key(keys.keys[0]) != Key(empty) && Key(keys.keys[1]) != Key(empty);
    }
    hasAlice := keys.Contains(alice);
    hasReimu := keys.Contains(reimu);
    hasEmpty := keys.Contains(empty);
    hasLower := keys.Contains(lower);
    hasUpper := keys.Contains(upper);
  }

  /** HashSetExample on the suite's own strings. */
  method SuiteHashSet()
    returns (addAlice: bool, addReimu: bool, addLower: bool, addUpper: bool,
             hasAlice: bool, hasReimu: bool, hasEmpty: bool, hasLower: bool, hasUpper: bool)
    ensures addAlice && addReimu && !addLower && !addUpper
    ensures hasAlice && hasReimu && !hasEmpty && hasLower && hasUpper
  {
    FoldedExamples();
    addAlice, addReimu, addLower, addUpper, hasAlice, hasReimu, hasEmpty, hasLower, hasUpper :=
      HashSetExample(Alice(), Reimu(), Lower(), Upper(), Empty());
  }

  /** The List.Sort part of the test: three values that Compare orders as
      `empty < alice < reimu`, added as reimu, empty, alice, come out in that
      order; the suite's own strings are such values (OrderExamples). */
  method SortExample(reimu: CiString, empty: CiString, alice: CiString) returns (sorted: seq<Option<CiString>>)
    requires Compare(Some(empty), Some(alice)) == -1 && Compare(Some(alice), Some(reimu)) == -1
    ensures sorted == [Some(empty), Some(alice), Some(reimu)]
  {
    var list := new CiList();
    list.Add(Some(reimu));
    list.Add(Some(empty));
    list.Add(Some(alice));
    assert list.items == [Some(reimu), Some(empty), Some(alice)];
    list.Sort();
    sorted := list.items;
    CompareIsComparer();
    CompareAntisymmetric(Some(empty), Some(alice));
    CompareAntisymmetric(Some(alice), Some(reimu));
    SortedOfThree(sorted, Some(empty), Some(alice), Some(reimu), Compare);
  }

  /** SortExample on the suite's own strings. */
  method SuiteSort() returns (sorted: seq<Option<CiString>>)
    ensures sorted == [Some(Empty()), Some(Alice()), Some(Reimu())]
  {
    OrderExamples();
    sorted := SortExample(Reimu(), Empty(), Alice());
  }

  /** Under a comparer, a sorted permutation of three strictly increasing values
      is those values in order. */
  lemma SortedOfThree<T(!new)>(s: seq<T>, a: T, b: T, c: T, cmp: (T, T) -> int)
    requires TotalPreorder(cmp) && cmp(b, a) > 0 && cmp(c, b) > 0
    requires SortedBy(s, cmp) && multiset(s) == multiset{c, a, b}
    ensures s == [a, b, c]
  {
    assert a in multiset(s) && b in multiset(s) && c in multiset(s);
    var ia :| 0 <= ia < |s| && s[ia] == a;
    var ib :| 0 <= ib < |s| && s[ib] == b;
    var ic :| 0 <= ic < |s| && s[ic] == c;
    assert ia < ib < ic;
    assert |s| == 3;
  }

  lemma FormatExample(x: CiString)
    ensures Format("Name is {0}", x) == "Name is " + x.value
  {
    FormatSplicesValue("Name is ", "", x);
    assert "Name is {0}" == "Name is " + "{0}" + "";
  }
}
