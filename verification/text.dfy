/** The string predicates the catalogue relies on: Java's notion of a blank
    string, the case folding the database applies to "IgnoreCase" queries,
    and substring search. */
module Text {
  import opened Common

  /** Character.isWhitespace: the Unicode space, line and paragraph
      separators other than the no-break spaces, plus the ASCII controls
      HT, LF, VT, FF, CR and FS, GS, RS, US. */
  predicate IsWhitespace(c: char) {
    || c == ' '
    || ('\t' <= c <= '\r')
    || ('\U{1C}' <= c <= '\U{1F}')
    || c == '\U{1680}'
    || ('\U{2000}' <= c <= '\U{2006}')
    || ('\U{2008}' <= c <= '\U{200A}')
    || c == '\U{2028}' || c == '\U{2029}' || c == '\U{205F}' || c == '\U{3000}'
  }

  /** String.isBlank: empty, or whitespace only. */
  predicate IsBlank(s: string) {
    forall i :: 0 <= i < |s| ==> IsWhitespace(s[i])
  }

  /** `trim().isEmpty()`: String.trim strips every character up to U+0020,
      so this holds for strings of such characters only. It is what the
      @NotBlank constraint tests, and it differs from IsBlank on control
      characters (trimmed but not whitespace) and on Unicode spaces such as
      U+3000 (whitespace but not trimmed). */
  predicate IsTrimBlank(s: string) {
    forall i :: 0 <= i < |s| ==> s[i] <= ' '
  }

  /** A request parameter that is present and not blank. */
  predicate HasText(s: Option<string>) {
    s.Some? && !IsBlank(s.value)
  }

  /** ASCII case folding, standing for the collation the database applies. */
  function Lower(c: char): char {
    if 'A' <= c <= 'Z' then (c as int + 32) as char else c
  }

  function Fold(s: string): string {
    seq(|s|, i requires 0 <= i < |s| => Lower(s[i]))
  }

  /** Two strings that a case-insensitive comparison treats as equal. */
  predicate SameIgnoringCase(a: string, b: string) {
    Fold(a) == Fold(b)
  }

  /** `needle` occurs in `hay` as a contiguous block. */
  predicate IsInfix(needle: string, hay: string) {
    exists k :: 0 <= k <= |hay| && needle <= hay[k..]
  }

  /** SQL `upper(hay) like upper('%' || needle || '%')`, with the wildcards
      of `needle` escaped, as derived "ContainingIgnoreCase" queries issue. */
  predicate ContainsIgnoringCase(hay: string, needle: string) {
    IsInfix(Fold(needle), Fold(hay))
  }
}
