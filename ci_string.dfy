/** Meringue.CaseInsensitiveString (aliased CiString): an immutable string
    whose identity, equality, hash and order ignore ASCII letter case, while
    `value` keeps the text exactly as it was given. A null reference is
    `None`; an argument of another static type (a raw string passed as
    `object`) is `Str`. */
module CaseInsensitiveString {
  import opened Wrappers
  import opened CaseFolding

  datatype CiString = CiString(value: string)

  /** What may be passed where the source takes an `object`. */
  datatype Boxed = Ci(ci: CiString) | Str(s: string)

  /** The one error the type raises: CompareTo with a non-CiString argument. */
  datatype Error = ArgumentException

  // ---------------------------------------------------------------- Construction

  /** `new CiString()`. */
  function Empty(): (r: CiString)
    ensures r.value == ""
  {
    CiString("")
  }

  /** `new CiString(text)`: the text is kept verbatim, case included. */
  function New(text: string): (r: CiString)
    ensures r.value == text
  {
    CiString(text)
  }

  /** `ToString`, the hook `string.Format` uses: the stored value, case kept. */
  function ToString(x: CiString): (r: string)
    ensures r == x.value
  {
    x.value
  }

  /** No character of `s` is an opening brace. */
  predicate BraceFree(s: string) {
    s == [] || (s[0] != '{' && BraceFree(s[1..]))
  }

  /** `string.Format(template, x)` with the single argument `x`: each "{0}" is
      replaced by `ToString(x)` and every other character is copied. */
  function Format(template: string, x: CiString): (r: string)
    ensures BraceFree(template) ==> r == template
    decreases |template|
  {
    if |template| >= 3 && template[0] == '{' && template[1] == '0' && template[2] == '}' then
      ToString(x) + Format(template[3..], x)
    else if template == [] then []
    else [template[0]] + Format(template[1..], x)
  }

  /** Text without a brace is copied verbatim, and "{0}" renders as the value. */
  lemma {:induction false} FormatSplicesValue(prefix: string, suffix: string, x: CiString)
    requires BraceFree(prefix)
    ensures Format(prefix + "{0}" + suffix, x) == prefix + x.value + Format(suffix, x)
  {
    var t := prefix + "{0}" + suffix;
    if prefix == [] {
      assert t == "{0}" + suffix;
      assert t[0] == '{' && t[1] == '0' && t[2] == '}' && t[3..] == suffix;
    } else {
      var rest := prefix[1..] + "{0}" + suffix;
      assert t == [prefix[0]] + rest;
      FormatCopies(t, x);
      FormatSplicesValue(prefix[1..], suffix, x);
      assert prefix == [prefix[0]] + prefix[1..];
    }
  }

  /** A first character that opens no placeholder is copied. */
  lemma FormatCopies(t: string, x: CiString)
    requires t != [] && t[0] != '{'
    ensures Format(t, x) == [t[0]] + Format(t[1..], x)
  {
  }

  /** The folded form every comparison works on. */
  function Key(x: CiString): string {
    Folded(x.value)
  }

  // ---------------------------------------------------------------- Equality

  /** `Equals(CiString)` between two non-null instances. */
  function EqualsCi(a: CiString, b: CiString): (r: bool)
    ensures r <==> SameIgnoringCase(a.value, b.value)
  {
    FoldedAgrees(a.value, b.value);
    Key(a) == Key(b)
  }

  /** `Equals(object)`: false for null and for any argument that is not a CiString. */
  function EqualsObject(self: CiString, other: Option<Boxed>): (r: bool)
    ensures other.None? ==> !r
    ensures other.Some? && other.value.Str? ==> !r
    ensures other.Some? && other.value.Ci? ==> (r <==> SameIgnoringCase(self.value, other.value.ci.value))
  {
    match other
    case None => false
    case Some(Str(_)) => false
    case Some(Ci(b)) => EqualsCi(self, b)
  }

  /** Operator `==`: null equals only null. */
  function OpEquals(a: Option<CiString>, b: Option<CiString>): (r: bool)
    ensures a.None? || b.None? ==> (r <==> a.None? && b.None?)
    ensures a.Some? && b.Some? ==> (r <==> SameIgnoringCase(a.value.value, b.value.value))
  {
    match (a, b)
    case (None, None) => true
    case (Some(x), Some(y)) => EqualsCi(x, y)
    case _ => false
  }

  /** Operator `!=`. */
  function OpNotEquals(a: Option<CiString>, b: Option<CiString>): (r: bool)
    ensures a.None? || b.None? ==> (r <==> a.Some? || b.Some?)
    ensures a.Some? && b.Some? ==> (r <==> !SameIgnoringCase(a.value.value, b.value.value))
  {
    !OpEquals(a, b)
  }

  /** `==` is an equivalence relation on possibly-null values. */
  lemma {:induction false} OpEqualsIsEquivalence(a: Option<CiString>, b: Option<CiString>, c: Option<CiString>)
    ensures OpEquals(a, a)
    ensures OpEquals(a, b) <==> OpEquals(b, a)
    ensures OpEquals(a, b) && OpEquals(b, c) ==> OpEquals(a, c)
  {
    if a.Some? {
      FoldedAgrees(a.value.value, a.value.value);
    }
  }

  // ---------------------------------------------------------------- Hashing

  const HashModulus: int := 0x1_0000_0000

  /** A 32-bit polynomial string hash (an unsigned accumulator that wraps). */
  function StringHash(s: string): (h: int)
    ensures 0 <= h < HashModulus
  {
    if s == [] then 0 else (StringHash(s[..|s| - 1]) * 31 + s[|s| - 1] as int) % HashModulus
  }

  /** `GetHashCode`: computed from the folded form only, as a signed 32-bit int. */
  function HashCode(x: CiString): (h: int)
    ensures -0x8000_0000 <= h < 0x8000_0000
  {
    var u := StringHash(Key(x));
    if u < 0x8000_0000 then u else u - HashModulus
  }

  /** Equal instances have equal hash codes. */
  lemma HashConsistent(a: CiString, b: CiString)
    requires EqualsCi(a, b)
    ensures HashCode(a) == HashCode(b)
  {
    FoldedAgrees(a.value, b.value);
  }

  /** Case variants of one text hash alike. */
  lemma HashIgnoresCase(s: string, t: string)
    requires SameIgnoringCase(s, t)
    ensures HashCode(New(s)) == HashCode(New(t))
  {
    HashConsistent(New(s), New(t));
  }

  // ---------------------------------------------------------------- Ordering

  /** Ordinal three-way comparison of two strings, normalised to -1, 0 or 1. */
  function CompareOrdinal(a: string, b: string): (r: int)
    ensures -1 <= r <= 1
    ensures r == 0 <==> a == b
  {
    if a == [] && b == [] then 0
    else if a == [] then -1
    else if b == [] then 1
    else if a[0] < b[0] then -1
    else if a[0] > b[0] then 1
    else
      var r := CompareOrdinal(a[1..], b[1..]);
      assert a == [a[0]] + a[1..] && b == [b[0]] + b[1..];
      r
  }

  /** Reference definition of ordinal order: `a` is a proper prefix of `b`, or
      the first position where they differ holds the smaller character in `a`. */
  ghost predicate LexLess(a: string, b: string) {
    exists k :: 0 <= k <= |a| && k <= |b| && a[..k] == b[..k] &&
      ((k == |a| && k < |b|) || (k < |a| && k < |b| && a[k] < b[k]))
  }

  lemma {:induction false} CompareOrdinalIsLex(a: string, b: string)
    ensures CompareOrdinal(a, b) == -1 <==> LexLess(a, b)
  {
    if a == [] {
      if b != [] { assert a[..0] == b[..0]; }
    } else if b == [] {
    } else if a[0] < b[0] {
      assert a[..0] == b[..0];
    } else if a[0] > b[0] {
      forall k | 0 < k <= |a| && k <= |b| && a[..k] == b[..k]
        ensures a[0] == b[0]
      {
        assert a[..k][0] == b[..k][0];
      }
    } else {
      CompareOrdinalIsLex(a[1..], b[1..]);
      LexLessDropsHead(a, b);
      LexLessAddsHead(a, b);
    }
  }

  /** Past an equal first character, ordinal order is decided by the tails. */
  lemma LexLessDropsHead(a: string, b: string)
    requires a != [] && b != [] && a[0] == b[0]
    ensures LexLess(a, b) ==> LexLess(a[1..], b[1..])
  {
    if LexLess(a, b) {
      var k :| 0 <= k <= |a| && k <= |b| && a[..k] == b[..k] &&
        ((k == |a| && k < |b|) || (k < |a| && k < |b| && a[k] < b[k]));
      if k != 0 {
        assert a[1..][..k - 1] == a[..k][1..];
        assert b[1..][..k - 1] == b[..k][1..];
      }
    }
  }

  /** Putting an equal first character before both tails keeps their order. */
  lemma LexLessAddsHead(a: string, b: string)
    requires a != [] && b != [] && a[0] == b[0]
    ensures LexLess(a[1..], b[1..]) ==> LexLess(a, b)
  {
    if LexLess(a[1..], b[1..]) {
      var k :| 0 <= k <= |a[1..]| && k <= |b[1..]| && a[1..][..k] == b[1..][..k] &&
        ((k == |a[1..]| && k < |b[1..]|) || (k < |a[1..]| && k < |b[1..]| && a[1..][k] < b[1..][k]));
      assert a[..k + 1] == [a[0]] + a[1..][..k];
      assert b[..k + 1] == [b[0]] + b[1..][..k];
    }
  }

  lemma {:induction false} CompareOrdinalAntisymmetric(a: string, b: string)
    ensures CompareOrdinal(a, b) == -CompareOrdinal(b, a)
  {
    if a != [] && b != [] && a[0] == b[0] {
      CompareOrdinalAntisymmetric(a[1..], b[1..]);
    }
  }

  lemma {:induction false} CompareOrdinalTransitive(a: string, b: string, c: string)
    requires CompareOrdinal(a, b) <= 0 && CompareOrdinal(b, c) <= 0
    ensures CompareOrdinal(a, c) <= 0
  {
    if a != [] && b != [] && c != [] && a[0] == b[0] && b[0] == c[0] {
      CompareOrdinalTransitive(a[1..], b[1..], c[1..]);
    }
  }

  /** Static `Compare(a, b)`: null before every non-null value, then the ordinal
      order of the folded forms; exactly -1, 0 or 1. */
  function Compare(a: Option<CiString>, b: Option<CiString>): (r: int)
    ensures r == -1 || r == 0 || r == 1
    ensures r == 0 <==> OpEquals(a, b)
    ensures a.None? ==> r == (if b.None? then 0 else -1)
    ensures a.Some? && b.None? ==> r == 1
  {
    match (a, b)
    case (None, None) => 0
    case (None, Some(_)) => -1
    case (Some(_), None) => 1
    case (Some(x), Some(y)) =>
      FoldedAgrees(x.value, y.value);
      CompareOrdinal(Key(x), Key(y))
  }

  /** Between two non-null values, Compare is the ordinal order of the folded forms. */
  lemma CompareIsFoldedLex(x: CiString, y: CiString)
    ensures Compare(Some(x), Some(y)) == -1 <==> LexLess(Key(x), Key(y))
    ensures Compare(Some(x), Some(y)) == 1 <==> LexLess(Key(y), Key(x))
  {
    CompareOrdinalIsLex(Key(x), Key(y));
    CompareOrdinalIsLex(Key(y), Key(x));
    CompareOrdinalAntisymmetric(Key(x), Key(y));
  }

  /** `CompareTo(object)`: 1 against null, Compare against a CiString, and an
      ArgumentException for anything else. */
  function CompareTo(self: CiString, other: Option<Boxed>): (r: Result<int, Error>)
    ensures r.Failure? <==> other.Some? && other.value.Str?
    ensures r.Failure? ==> r.error == ArgumentException
    ensures other.None? ==> r == Success(1)
    ensures other.Some? && other.value.Ci? ==> r == Success(Compare(Some(self), Some(other.value.ci)))
  {
    match other
    case None => Success(1)
    case Some(Str(_)) => Failure(ArgumentException)
    case Some(Ci(b)) => Success(Compare(Some(self), Some(b)))
  }

  lemma CompareAntisymmetric(a: Option<CiString>, b: Option<CiString>)
    ensures Compare(a, b) == -Compare(b, a)
  {
    if a.Some? && b.Some? {
      CompareOrdinalAntisymmetric(Key(a.value), Key(b.value));
    }
  }

  lemma CompareTransitive(a: Option<CiString>, b: Option<CiString>, c: Option<CiString>)
    requires Compare(a, b) <= 0 && Compare(b, c) <= 0
    ensures Compare(a, c) <= 0
  {
    if a.Some? && b.Some? && c.Some? {
      CompareOrdinalTransitive(Key(a.value), Key(b.value), Key(c.value));
    }
  }

  /** Compare is a total preorder whose ties are exactly the `==` classes. */
  lemma CompareIsTotalPreorder(a: Option<CiString>, b: Option<CiString>, c: Option<CiString>)
    ensures Compare(a, a) == 0
    ensures Compare(a, b) <= 0 || Compare(b, a) <= 0
    ensures Compare(a, b) <= 0 && Compare(b, c) <= 0 ==> Compare(a, c) <= 0
    ensures Compare(a, b) == 0 && Compare(b, c) == 0 ==> Compare(a, c) == 0
  {
    OpEqualsIsEquivalence(a, b, c);
    CompareAntisymmetric(a, b);
    if Compare(a, b) <= 0 && Compare(b, c) <= 0 {
      CompareTransitive(a, b, c);
    }
  }

  // ---------------------------------------------------------------- Relational operators

  /** Operator `<`: null is below every non-null value; two non-null values
      are ordered by their folded forms. */
  function Less(a: Option<CiString>, b: Option<CiString>): (r: bool)
    ensures a.None? ==> (r <==> b.Some?)
    ensures a.Some? && b.None? ==> !r
    ensures a.Some? && b.Some? ==> (r <==> LexLess(Key(a.value), Key(b.value)))
  {
    if a.Some? && b.Some? then CompareIsFoldedLex(a.value, b.value); Compare(a, b) < 0
    else Compare(a, b) < 0
  }

  /** Operator `<=`. */
  function LessEq(a: Option<CiString>, b: Option<CiString>): (r: bool)
    ensures a.None? ==> r
    ensures a.Some? && b.None? ==> !r
    ensures a.Some? && b.Some? ==> (r <==> !LexLess(Key(b.value), Key(a.value)))
  {
    if a.Some? && b.Some? then CompareIsFoldedLex(a.value, b.value); Compare(a, b) <= 0
    else Compare(a, b) <= 0
  }

  /** Operator `>`. */
  function Greater(a: Option<CiString>, b: Option<CiString>): (r: bool)
    ensures a.None? ==> !r
    ensures a.Some? && b.None? ==> r
    ensures a.Some? && b.Some? ==> (r <==> LexLess(Key(b.value), Key(a.value)))
  {
    if a.Some? && b.Some? then CompareIsFoldedLex(a.value, b.value); Compare(a, b) > 0
    else Compare(a, b) > 0
  }

  /** Operator `>=`. */
  function GreaterEq(a: Option<CiString>, b: Option<CiString>): (r: bool)
    ensures a.None? ==> (r <==> b.None?)
    ensures a.Some? && b.None? ==> r
    ensures a.Some? && b.Some? ==> (r <==> !LexLess(Key(a.value), Key(b.value)))
  {
    if a.Some? && b.Some? then CompareIsFoldedLex(a.value, b.value); Compare(a, b) >= 0
    else Compare(a, b) >= 0
  }

  /** The four operators agree with each other and with `==`. */
  lemma RelationalLaws(a: Option<CiString>, b: Option<CiString>)
    ensures Less(a, b) <==> Greater(b, a)
    ensures LessEq(a, b) <==> GreaterEq(b, a)
    ensures LessEq(a, b) <==> !Greater(a, b)
    ensures Less(a, b) <==> LessEq(a, b) && !OpEquals(a, b)
    ensures LessEq(a, b) && GreaterEq(a, b) <==> OpEquals(a, b)
    ensures Less(a, b) || OpEquals(a, b) || Greater(a, b)
  {
    CompareAntisymmetric(a, b);
  }

  /** `x < x` and `x > x` never hold; `x <= x` and `x >= x` always do. */
  lemma RelationalReflexivity(a: Option<CiString>)
    ensures !Less(a, a) && !Greater(a, a) && LessEq(a, a) && GreaterEq(a, a)
  {
    OpEqualsIsEquivalence(a, a, a);
  }

  /** Case variants of one text are neither `<` nor `>` each other. */
  lemma RelationalIgnoresCase(s: string, t: string)
    requires SameIgnoringCase(s, t)
    ensures !Less(Some(New(s)), Some(New(t))) && !Greater(Some(New(s)), Some(New(t)))
    ensures LessEq(Some(New(s)), Some(New(t))) && GreaterEq(Some(New(s)), Some(New(t)))
  {
  }

  /** `<=` is transitive, so sorting by it is meaningful. */
  lemma LessEqTransitive(a: Option<CiString>, b: Option<CiString>, c: Option<CiString>)
    requires LessEq(a, b) && LessEq(b, c)
    ensures LessEq(a, c)
  {
    CompareTransitive(a, b, c);
  }
}
