/**
 * The .NET string operations the core relies on: `char.IsWhiteSpace`,
 * `string.IsNullOrWhiteSpace`, `ToLowerInvariant` and `StartsWith`.
 * Case mapping is modelled over ASCII only.
 */
module Text {

  /** `char.IsWhiteSpace`: the characters with the Unicode White_Space property. */
  predicate IsWhiteSpace(c: char) {
    || ('\t' <= c <= '\r')
    || c == ' '
    || c == '\U{0085}'
    || c == '\U{00A0}'
    || c == '\U{1680}'
    || ('\U{2000}' <= c <= '\U{200A}')
    || c == '\U{2028}'
    || c == '\U{2029}'
    || c == '\U{202F}'
    || c == '\U{205F}'
    || c == '\U{3000}'
  }

  /**
   * `string.IsNullOrWhiteSpace` on a non-null string: empty, or whitespace
   * only. (A null string behaves as the empty one in every such check.)
   */
  predicate IsNullOrWhiteSpace(s: string) {
    forall i :: 0 <= i < |s| ==> IsWhiteSpace(s[i])
  }

  predicate IsAsciiUpper(c: char) {
    'A' <= c <= 'Z'
  }

  /** `char.ToLowerInvariant` restricted to ASCII: upper-case letters move down by 32. */
  function ToLowerChar(c: char): (r: char)
    ensures !IsAsciiUpper(r)
    ensures !IsAsciiUpper(c) ==> r == c
  {
    if IsAsciiUpper(c) then (c as int + 32) as char else c
  }

  /** `string.ToLowerInvariant`, character by character. */
  function ToLowerInvariant(s: string): (r: string)
    ensures |r| == |s|
    ensures forall i :: 0 <= i < |r| ==> !IsAsciiUpper(r[i])
    ensures forall i :: 0 <= i < |s| && !IsAsciiUpper(s[i]) ==> r[i] == s[i]
  {
    seq(|s|, i requires 0 <= i < |s| => ToLowerChar(s[i]))
  }

  /**
   * Two strings are equal ignoring ASCII letter case: same length, and at
   * every position the characters are equal or are the two cases of one letter.
   */
  predicate EqualsIgnoreCase(a: string, b: string) {
    && |a| == |b|
    && forall i :: 0 <= i < |a| ==> SameLetterIgnoringCase(a[i], b[i])
  }

  predicate SameLetterIgnoringCase(x: char, y: char) {
    || x == y
    || (IsAsciiUpper(x) && y as int == x as int + 32)
    || (IsAsciiUpper(y) && x as int == y as int + 32)
  }

  /**
   * `s.StartsWith(prefix)` as a character-by-character comparison. .NET's
   * one-argument overload compares under the current culture, which can
   * ignore some characters (a soft hyphen, say); on strings of ASCII
   * letters, digits and punctuation the two agree.
   */
  predicate StartsWith(s: string, prefix: string) {
    |prefix| <= |s| && s[..|prefix|] == prefix
  }

  /** Lower-casing twice is lower-casing once. */
  lemma ToLowerInvariantIdempotent(s: string)
    ensures ToLowerInvariant(ToLowerInvariant(s)) == ToLowerInvariant(s)
  {
  }

  /** Case-insensitive equality is exactly equality of the lower-cased forms. */
  lemma EqualsIgnoreCaseIffSameLower(a: string, b: string)
    ensures EqualsIgnoreCase(a, b) <==> ToLowerInvariant(a) == ToLowerInvariant(b)
  {
    if ToLowerInvariant(a) == ToLowerInvariant(b) {
      forall i | 0 <= i < |a|
        ensures SameLetterIgnoringCase(a[i], b[i])
      {
        assert ToLowerInvariant(a)[i] == ToLowerInvariant(b)[i];
      }
    }
    if EqualsIgnoreCase(a, b) {
      forall i | 0 <= i < |a|
        ensures ToLowerInvariant(a)[i] == ToLowerInvariant(b)[i]
      {
        assert SameLetterIgnoringCase(a[i], b[i]);
      }
    }
  }

  /** Changing letter case never turns a whitespace-only string into another kind. */
  lemma EqualsIgnoreCasePreservesBlank(a: string, b: string)
    requires EqualsIgnoreCase(a, b)
    ensures IsNullOrWhiteSpace(a) <==> IsNullOrWhiteSpace(b)
  {
    forall i | 0 <= i < |a|
      ensures IsWhiteSpace(a[i]) <==> IsWhiteSpace(b[i])
    {
      assert SameLetterIgnoringCase(a[i], b[i]);
    }
  }
}
