/**
 * The two facts about a Java `String` that the validation rules depend on:
 * `isBlank()` and `length()`.
 *
 * A Dafny `char` is a Unicode scalar value, whereas Java's `length()` counts
 * UTF-16 code units, so a character outside the Basic Multilingual Plane
 * counts twice.
 */
module JavaString {

  /** `Character.isWhitespace`: the Unicode space, line and paragraph
      separators other than the non-breaking spaces U+00A0, U+2007 and U+202F,
      plus the control characters U+0009..U+000D and U+001C..U+001F. */
  predicate IsWhitespace(c: char) {
    || ('\U{9}' <= c <= '\U{D}')
    || ('\U{1C}' <= c <= '\U{20}')
    || c == '\U{1680}'
    || ('\U{2000}' <= c <= '\U{2006}')
    || ('\U{2008}' <= c <= '\U{200A}')
    || c == '\U{2028}'
    || c == '\U{2029}'
    || c == '\U{205F}'
    || c == '\U{3000}'
  }

  /** `String.isBlank`: empty, or whitespace only. */
  predicate IsBlank(s: string) {
    forall i :: 0 <= i < |s| ==> IsWhitespace(s[i])
  }

  /** Number of UTF-16 code units a character occupies. */
  function CodeUnits(c: char): (n: nat)
    ensures n == 1 || n == 2
  {
    if c as int < 0x1_0000 then 1 else 2
  }

  /** `String.length()`: the number of UTF-16 code units. */
  function Utf16Length(s: string): (n: nat)
    ensures |s| <= n <= 2 * |s|
    ensures n == 0 <==> s == []
  {
    if s == [] then 0 else CodeUnits(s[0]) + Utf16Length(s[1..])
  }

  /** For text made only of Basic Multilingual Plane characters, Java's
      `length()` is the number of characters. */
  lemma {:induction false} Utf16LengthOfBmp(s: string)
    requires forall i :: 0 <= i < |s| ==> s[i] as int < 0x1_0000
    ensures Utf16Length(s) == |s|
  {
    if s != [] {
      assert forall i :: 0 <= i < |s[1..]| ==> s[1..][i] == s[i + 1];
      Utf16LengthOfBmp(s[1..]);
    }
  }
}
