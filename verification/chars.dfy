/** Character classes shared by the title sanitiser and the video-id matcher. */
module Chars {

  /** The .NET notion of white space, which `Char.IsWhiteSpace`, `String.Trim()` and the
      regular-expression class `\s` all use: U+0009..U+000D, U+0085, and the Unicode
      categories Zs (space separators), Zl (line separator) and Zp (paragraph separator). */
  predicate IsWhitespace(c: char) {
    ('\U{0009}' <= c <= '\U{000D}') || c == ' ' || c == '\U{0085}' || c == '\U{00A0}'
    || c == '\U{1680}' || ('\U{2000}' <= c <= '\U{200A}') || c == '\U{2028}' || c == '\U{2029}'
    || c == '\U{202F}' || c == '\U{205F}' || c == '\U{3000}'
  }

  predicate IsAsciiLetter(c: char) {
    ('a' <= c <= 'z') || ('A' <= c <= 'Z')
  }

  predicate IsAsciiDigit(c: char) {
    '0' <= c <= '9'
  }

  /** ASCII case folding: the case-insensitive comparisons below only ever compare
      against lower-case ASCII letters and punctuation. */
  function Lower(c: char): (r: char)
    ensures IsAsciiLetter(c) ==> 'a' <= r <= 'z'
    ensures !('A' <= c <= 'Z') ==> r == c
  {
    if 'A' <= c <= 'Z' then (c as int + 32) as char else c
  }

  /** Folding maps each upper-case ASCII letter to its own lower-case letter, fixes
      everything else, and so identifies two characters exactly when they are the same
      letter up to case or the same character. */
  lemma LowerSpec(c: char, d: char)
    ensures 'A' <= c <= 'Z' ==> Lower(c) as int == c as int + 32
    ensures Lower(c) == Lower(d) <==>
      c == d || (IsAsciiLetter(c) && IsAsciiLetter(d) && (c as int - d as int == 32 || d as int - c as int == 32))
  {
  }
}
