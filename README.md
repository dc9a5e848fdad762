# CaseInsensitiveString, modelled in Dafny

`Meringue.CaseInsensitiveString`, aliased `CiString` in the suite, is an immutable
string wrapper. Its identity, equality, hash code and ordering ignore letter case,
while `value` keeps the text exactly as it was constructed. The repository holds only its NUnit suite
(`Assets/Editor/Scripts/String/CaseInsensitiveSuite.cs`), so the model
follows what that suite asserts:

- `CaseFolding` (`case_folding.dfy`) defines ordinal ASCII case folding.
  `FoldChar` maps 'a'..'z' to 'A'..'Z' and leaves every other character alone.
  `Folded` folds a string one character at a time. `SameIgnoringCase` is a reference
  definition of "equal up to case", written without folding. It is proved to agree
  with `Folded`.
- `CaseInsensitiveString` (`ci_string.dfy`) defines the value type and its API:
  - constructors and `value`;
  - `Equals(CiString)` and `Equals(object)`;
  - the null-safe `==` and `!=`;
  - `GetHashCode`;
  - the static `Compare` and `CompareTo(object)`;
  - `<`, `<=`, `>`, `>=`;
  - formatting.

  A null reference is `Option.None`. An `object` argument is `Boxed`: either `Ci`
  (a CiString) or `Str` (a raw string). The `ArgumentException` that `CompareTo`
  throws is a `Result.Failure`.
- `CiCollections` (`ci_collections.dfy`) models the two collections the suite uses:
  - `HashSet<CiString>` is the class `CiHashSet`. Its `keys` field is a sequence in
    insertion order. The invariant is that no two keys are case-equal. `Add` and
    `Contains` scan the keys and check the hash code, then `Equals`.
  - `List<CiString>` is the class `CiList`. Its `Sort` reorders `items` in place,
    using an insertion sort that is generic over the comparer. The comparer is
    `Compare`, which puts null first.
- `CaseInsensitiveSuite` (`suite.dfy`) restates the suite's assertions about the
  model, as lemmas and client methods.

Folding upper-cases, as `OrdinalIgnoreCase` does. The suite cannot tell this apart
from lower-casing: all its strings are letters.

## Model

| member | source | states |
|---|---|---|
| CaseFolding.FoldChar | Assets/Editor/Scripts/String/CaseInsensitiveSuite.cs:16-18 | the folded character is never a lower-case ASCII letter; a lower-case letter becomes its upper-case partner (code point minus 32); every other character is kept |
| CaseFolding.Folded | Assets/Editor/Scripts/String/CaseInsensitiveSuite.cs:45-47 | the folded form has the input's length and is FoldChar applied at every position |
| CaseFolding.SameIgnoringCasePointwise | Assets/Editor/Scripts/String/CaseInsensitiveSuite.cs:45-49 | the recursive definition of "equal up to case" holds exactly when the lengths agree and every position holds the same letter up to case |
| CaseFolding.FoldCharAgrees | Assets/Editor/Scripts/String/CaseInsensitiveSuite.cs:45-47 | two characters fold alike if and only if they are the same letter up to case |
| CaseFolding.FoldedAgrees | Assets/Editor/Scripts/String/CaseInsensitiveSuite.cs:45-47 | two strings fold alike if and only if they are the same up to case (both directions) |
| CaseFolding.FoldedIdempotent | Assets/Editor/Scripts/String/CaseInsensitiveSuite.cs:45-47 | folding a folded string changes nothing |
| CaseFolding.FoldedIsCaseVariant | Assets/Editor/Scripts/String/CaseInsensitiveSuite.cs:45-47 | a string and its folded form are the same up to case |
| CaseInsensitiveString.Empty | Assets/Editor/Scripts/String/CaseInsensitiveSuite.cs:15-25 | the no-argument constructor holds the empty value |
| CaseInsensitiveString.New | Assets/Editor/Scripts/String/CaseInsensitiveSuite.cs:16-28 | the constructor keeps the given text verbatim as `value`, case included |
| CaseInsensitiveString.ToString | Assets/Editor/Scripts/String/CaseInsensitiveSuite.cs:148 | a CiString renders as its stored value |
| CaseInsensitiveString.Format | Assets/Editor/Scripts/String/CaseInsensitiveSuite.cs:148 | a template with no opening brace is copied unchanged, whatever the argument |
| CaseInsensitiveString.FormatSplicesValue | Assets/Editor/Scripts/String/CaseInsensitiveSuite.cs:148 | formatting a template "prefix{0}suffix" copies a brace-free prefix, puts the value where "{0}" was, and goes on with the suffix |
| CaseInsensitiveString.EqualsCi | Assets/Editor/Scripts/String/CaseInsensitiveSuite.cs:34-53 | `Equals` between two CiStrings is true exactly when their values are the same up to case |
| CaseInsensitiveString.EqualsObject | Assets/Editor/Scripts/String/CaseInsensitiveSuite.cs:58-69 | `Equals(object)` is false for null and for a raw string; for a CiString it is case-insensitive equality |
| CaseInsensitiveString.OpEquals | Assets/Editor/Scripts/String/CaseInsensitiveSuite.cs:35-63 | `==` holds of null and null, never of null and a non-null value (either order), and between two non-null values means same up to case |
| CaseInsensitiveString.OpNotEquals | Assets/Editor/Scripts/String/CaseInsensitiveSuite.cs:36-41 | `!=` is the negation of `==` in every null/non-null combination |
| CaseInsensitiveString.OpEqualsIsEquivalence | Assets/Editor/Scripts/String/CaseInsensitiveSuite.cs:33-63 | `==` is reflexive, symmetric and transitive, nulls included |
| CaseInsensitiveString.StringHash | Assets/Editor/Scripts/String/CaseInsensitiveSuite.cs:37 | the string hash is an unsigned 32-bit value |
| CaseInsensitiveString.HashCode | Assets/Editor/Scripts/String/CaseInsensitiveSuite.cs:37 | `GetHashCode` is a signed 32-bit integer |
| CaseInsensitiveString.HashConsistent | Assets/Editor/Scripts/String/CaseInsensitiveSuite.cs:37-55 | instances that are Equals have equal hash codes |
| CaseInsensitiveString.HashIgnoresCase | Assets/Editor/Scripts/String/CaseInsensitiveSuite.cs:48 | case variants of one text hash alike |
| CaseInsensitiveString.CompareOrdinal | Assets/Editor/Scripts/String/CaseInsensitiveSuite.cs:75-78 | ordinal string comparison returns -1, 0 or 1, and 0 exactly when the strings are equal |
| CaseInsensitiveString.CompareOrdinalIsLex | Assets/Editor/Scripts/String/CaseInsensitiveSuite.cs:76-78 | ordinal comparison gives -1 exactly when the first string is a proper prefix of the second or smaller at the first differing position |
| CaseInsensitiveString.CompareOrdinalAntisymmetric | Assets/Editor/Scripts/String/CaseInsensitiveSuite.cs:76-78 | swapping the arguments negates the ordinal comparison |
| CaseInsensitiveString.CompareOrdinalTransitive | Assets/Editor/Scripts/String/CaseInsensitiveSuite.cs:139 | ordinal `<=` is transitive |
| CaseInsensitiveString.Compare | Assets/Editor/Scripts/String/CaseInsensitiveSuite.cs:77-84 | static Compare returns exactly -1, 0 or 1; 0 exactly when `==` holds; null is before every non-null value, and Compare(null, null) is 0 |
| CaseInsensitiveString.CompareIsFoldedLex | Assets/Editor/Scripts/String/CaseInsensitiveSuite.cs:76-78 | between non-null values, Compare is -1 or 1 exactly as the folded forms are in lexicographic order |
| CaseInsensitiveString.CompareTo | Assets/Editor/Scripts/String/CaseInsensitiveSuite.cs:75-89 | CompareTo fails with ArgumentException exactly for a raw-string argument; it is 1 against null and agrees with Compare against a CiString |
| CaseInsensitiveString.CompareAntisymmetric | Assets/Editor/Scripts/String/CaseInsensitiveSuite.cs:76-83 | Compare(a, b) is minus Compare(b, a), nulls included |
| CaseInsensitiveString.CompareTransitive | Assets/Editor/Scripts/String/CaseInsensitiveSuite.cs:139 | Compare's `<= 0` is transitive, nulls included |
| CaseInsensitiveString.CompareIsTotalPreorder | Assets/Editor/Scripts/String/CaseInsensitiveSuite.cs:75-107 | Compare is reflexive, total and transitive, and its ties are transitive |
| CaseInsensitiveString.Less | Assets/Editor/Scripts/String/CaseInsensitiveSuite.cs:92-107 | null is below every non-null value and not below null; a non-null value is never below null; two values compare by the ordinal order of their upper-case folded forms |
| CaseInsensitiveString.LessEq | Assets/Editor/Scripts/String/CaseInsensitiveSuite.cs:92-101 | null is at most anything; a non-null value is never at most null; for two values, `a <= b` holds exactly when b's folded form is not ordinally below a's |
| CaseInsensitiveString.Greater | Assets/Editor/Scripts/String/CaseInsensitiveSuite.cs:92-107 | null is above nothing; a non-null value is above null; for two values, `a > b` holds exactly when b's folded form is ordinally below a's |
| CaseInsensitiveString.GreaterEq | Assets/Editor/Scripts/String/CaseInsensitiveSuite.cs:92-101 | null is at least null only; a non-null value is at least null; for two values, `a >= b` holds exactly when a's folded form is not ordinally below b's |
| CaseInsensitiveString.RelationalLaws | Assets/Editor/Scripts/String/CaseInsensitiveSuite.cs:92-107 | `<` is `>` reversed; `<=` is `>=` reversed and is not-`>`; `<` is `<=` without `==`; `<=` and `>=` together are `==`; exactly one of `<`, `==`, `>` holds |
| CaseInsensitiveString.RelationalReflexivity | Assets/Editor/Scripts/String/CaseInsensitiveSuite.cs:92-95 | `x < x` and `x > x` are false; `x <= x` and `x >= x` are true |
| CaseInsensitiveString.RelationalIgnoresCase | Assets/Editor/Scripts/String/CaseInsensitiveSuite.cs:104-107 | case variants are neither `<` nor `>` each other; both `<=` and `>=` hold |
| CaseInsensitiveString.LessEqTransitive | Assets/Editor/Scripts/String/CaseInsensitiveSuite.cs:139 | `<=` is transitive |
| CiCollections.KeySetMembers | Assets/Editor/Scripts/String/CaseInsensitiveSuite.cs:122-128 | a value is a key up to case exactly when its folded form is in the set of the keys' folded forms |
| CiCollections.DistinctKeysCardinality | Assets/Editor/Scripts/String/CaseInsensitiveSuite.cs:114-119 | a key sequence without case duplicates holds exactly one folded form per key |
| CiCollections.HasKeyIgnoresCase | Assets/Editor/Scripts/String/CaseInsensitiveSuite.cs:127-128 | if a value is present, so is every case variant of it |
| CiCollections.CiHashSet.constructor | Assets/Editor/Scripts/String/CaseInsensitiveSuite.cs:112 | a new set is empty and meets the invariant |
| CiCollections.CiHashSet.Contains | Assets/Editor/Scripts/String/CaseInsensitiveSuite.cs:122-128 | Contains is true exactly when some key is Equals to the argument, that is, when its folded form is among the keys' |
| CiCollections.CiHashSet.Add | Assets/Editor/Scripts/String/CaseInsensitiveSuite.cs:114-119 | Add returns true exactly when no key is Equals to the argument, and then appends it; otherwise the keys are unchanged; the invariant is kept and the folded-key set grows by the argument's folded form |
| CiCollections.CompareIsComparer | Assets/Editor/Scripts/String/CaseInsensitiveSuite.cs:139 | Compare is a total, transitive comparer, as List.Sort needs |
| CiCollections.SortedSplice | Assets/Editor/Scripts/String/CaseInsensitiveSuite.cs:139 | inserting a value between the elements <= it and the elements >= it keeps a sequence sorted |
| CiCollections.InsertSorted | Assets/Editor/Scripts/String/CaseInsensitiveSuite.cs:139 | inserting into a sorted sequence gives a sorted sequence with the value added to its multiset |
| CiCollections.SortBy | Assets/Editor/Scripts/String/CaseInsensitiveSuite.cs:139 | the result is sorted by the comparer and is a permutation of the input |
| CiCollections.CiList.constructor | Assets/Editor/Scripts/String/CaseInsensitiveSuite.cs:133 | a new list is empty |
| CiCollections.CiList.Add | Assets/Editor/Scripts/String/CaseInsensitiveSuite.cs:135-137 | Add appends the element at the end |
| CiCollections.CiList.Sort | Assets/Editor/Scripts/String/CaseInsensitiveSuite.cs:139 | after Sort the items are ordered by Compare (null first) and are a permutation of the items before |
| CaseInsensitiveSuite.FoldedExamples | Assets/Editor/Scripts/String/CaseInsensitiveSuite.cs:15-20 | the folded forms of "Alice", "alice" and "ALICE" are "ALICE"; of "Reimu", "REIMU"; of the empty value, "" |
| CaseInsensitiveSuite.EqualityExamples | Assets/Editor/Scripts/String/CaseInsensitiveSuite.cs:25-69 | the suite's assertions on values, equality (X == X, X == Y, case variants, a second reference), hash codes, null and raw strings |
| CaseInsensitiveSuite.ComparisonExamples | Assets/Editor/Scripts/String/CaseInsensitiveSuite.cs:75-89 | the suite's assertions on CompareTo and Compare, with null and with a raw string |
| CaseInsensitiveSuite.RelationalExamples | Assets/Editor/Scripts/String/CaseInsensitiveSuite.cs:92-107 | the suite's assertions on `<`, `<=`, `>`, `>=` |
| CaseInsensitiveSuite.OrderExamples | Assets/Editor/Scripts/String/CaseInsensitiveSuite.cs:141-143 | Compare orders the empty value before "Alice" and "Alice" before "Reimu" |
| CaseInsensitiveSuite.HashSetExample | Assets/Editor/Scripts/String/CaseInsensitiveSuite.cs:112-128 | adding alice and reimu succeeds; adding lower and upper fails; alice, reimu, lower and upper are found; the empty value is not |
| CaseInsensitiveSuite.SortExample | Assets/Editor/Scripts/String/CaseInsensitiveSuite.cs:133-143 | a list built as reimu, empty, alice sorts to empty, alice, reimu |
| CaseInsensitiveSuite.SuiteHashSet | Assets/Editor/Scripts/String/CaseInsensitiveSuite.cs:112-128 | on "Alice", "Reimu", "alice", "ALICE" and the empty value: the first two adds succeed, the case variants are rejected, every present value and variant is found and the empty value is not |
| CaseInsensitiveSuite.SuiteSort | Assets/Editor/Scripts/String/CaseInsensitiveSuite.cs:133-143 | the list built as "Reimu", "", "Alice" sorts to "", "Alice", "Reimu" |
| CaseInsensitiveSuite.SortedOfThree | Assets/Editor/Scripts/String/CaseInsensitiveSuite.cs:141-143 | a sorted permutation of three strictly increasing values is those three values in order |
| CaseInsensitiveSuite.FormatExample | Assets/Editor/Scripts/String/CaseInsensitiveSuite.cs:148 | "Name is {0}" formats to "Name is " followed by the value |

## Left out

- The source of `Meringue.CaseInsensitiveString` is not part of this model. The
  type is modelled from its suite, so any behaviour the suite does not pin down is a
  modelling choice: upper-case folding, values -1/0/1 from Compare, and the hash
  function.
- Culture-aware and full-Unicode case folding are not modelled. Only ASCII letters
  fold.
- Ordinal comparison compares Dafny characters, which are Unicode scalar values.
  .NET compares UTF-16 code units, so the two orders differ for characters outside
  the Basic Multilingual Plane.
- StringHash and HashCode are one deterministic 32-bit hash of the folded form.
  `CaseInsensitiveString.GetHashCode` is not part of this model, so concrete hash
  values are not modelled. Only "equal implies equal hash" is stated.
- HashSet buckets, capacity, `Remove`, and null keys are not modelled. `CiHashSet`
  holds its keys as a sequence.
- CiList.Sort: the specific algorithm of `List.Sort` (an unstable introsort) is not
  modelled. Its contract states only sortedness and permutation, which is all the
  suite relies on.
- FormatSplicesValue: `string.Format` is modelled for the single placeholder "{0}".
  Other placeholders, alignment and format strings, brace escapes, and
  `FormatException` are left out.
- FormatExample: stated for any CiString x. With x = "Alice" it gives "Name is
  Alice".
- HashSetExample: stated for any five values related as the suite's strings are;
  SuiteHashSet applies it to the suite's own strings.
- SortExample: stated for any three values that Compare orders as the suite's
  strings are; SuiteSort applies it to the suite's own strings.
- Throwing and catching `ArgumentException` is not modelled as control flow. It is a
  `Result.Failure`.
- The `#if CANNOT_COMPILE` block (CaseInsensitiveSuite.cs:151-164) claims that
  CiString cannot be compared with `LanguageId`. That is a claim about the C# type
  checker, and `LanguageId` is not part of this model. In Dafny, typing rules out
  such a comparison.
- Reference aliasing (`reffer = alice`) has no counterpart: a CiString is an
  immutable value.
