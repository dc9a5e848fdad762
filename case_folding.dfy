/** Ordinal ASCII case folding: the primitive behind every comparison of
    CaseInsensitiveString. A string is folded character by character, mapping
    'a'..'z' to 'A'..'Z' and leaving every other character alone. */
module CaseFolding {

  predicate IsAsciiLower(c: char) { 'a' <= c <= 'z' }

  predicate IsAsciiUpper(c: char) { 'A' <= c <= 'Z' }

  /** The folded form of one character: its ASCII upper-case letter, or itself. */
  function FoldChar(c: char): (d: char)
    ensures !IsAsciiLower(d)
    ensures IsAsciiLower(c) ==> IsAsciiUpper(d) && d as int == c as int - 32
    ensures !IsAsciiLower(c) ==> d == c
  {
    if IsAsciiLower(c) then (c as int - 32) as char else c
  }

  /** Reference definition of "the same letter up to case", independent of
      FoldChar: equal, or the lower/upper pair of one ASCII letter. */
  predicate CharEqualsIgnoreCase(c: char, d: char) {
    || c == d
    || (IsAsciiLower(c) && d as int == c as int - 32)
    || (IsAsciiUpper(c) && d as int == c as int + 32)
  }

  /** Reference definition of "the same string up to case": equal length and
      each pair of characters the same letter up to case. */
  predicate SameIgnoringCase(s: string, t: string) {
    if s == [] || t == [] then s == t
    else CharEqualsIgnoreCase(s[0], t[0]) && SameIgnoringCase(s[1..], t[1..])
  }

  lemma {:induction false} SameIgnoringCasePointwise(s: string, t: string)
    ensures SameIgnoringCase(s, t) <==>
      |s| == |t| && forall i :: 0 <= i < |s| ==> CharEqualsIgnoreCase(s[i], t[i])
  {
    if s != [] && t != [] {
      SameIgnoringCasePointwise(s[1..], t[1..]);
      if |s| == |t| && forall i :: 0 <= i < |s| ==> CharEqualsIgnoreCase(s[i], t[i]) {
        forall i | 0 <= i < |s| - 1 ensures CharEqualsIgnoreCase(s[1..][i], t[1..][i]) {
          assert s[1..][i] == s[i + 1];
        }
      }
    }
  }

  /** The folded form of a string, one character at a time. */
  function Folded(s: string): (r: string)
    ensures |r| == |s|
    ensures forall i :: 0 <= i < |s| ==> r[i] == FoldChar(s[i])
  {
    if s == [] then [] else [FoldChar(s[0])] + Folded(s[1..])
  }

  /** Two characters fold alike exactly when they are the same letter up to case. */
  lemma FoldCharAgrees(c: char, d: char)
    ensures FoldChar(c) == FoldChar(d) <==> CharEqualsIgnoreCase(c, d)
  {
  }

  /** Two strings fold alike exactly when they are the same up to case. */
  lemma {:induction false} FoldedAgrees(s: string, t: string)
    ensures Folded(s) == Folded(t) <==> SameIgnoringCase(s, t)
  {
    if s != [] && t != [] {
      FoldedAgrees(s[1..], t[1..]);
      FoldCharAgrees(s[0], t[0]);
      if Folded(s) == Folded(t) {
        assert Folded(s)[0] == Folded(t)[0];
        assert Folded(s[1..]) == Folded(s)[1..];
        assert Folded(t[1..]) == Folded(t)[1..];
      }
    }
  }

  /** Folding a folded string changes nothing. */
  lemma FoldedIdempotent(s: string)
    ensures Folded(Folded(s)) == Folded(s)
  {
  }

  /** Folding keeps the string the same up to case. */
  lemma FoldedIsCaseVariant(s: string)
    ensures SameIgnoringCase(s, Folded(s))
  {
    FoldedIdempotent(s);
    FoldedAgrees(s, Folded(s));
  }
}
