/**
 * Character classes and substring search on Python `str` values,
 * modelled as `seq<char>`.
 */
module Text {

  /**
   * Python's `\s` for a `str` pattern: the characters for which
   * `str.isspace()` holds. This covers space, `\t`, `\n`, `\v`, `\f`, `\r`,
   * the separators U+001C..U+001F, NEL, no-break space and the Unicode
   * space separators.
   */
  function IsSpace(c: char): (b: bool)
    ensures c == ' ' || c == '\t' || c == '\n' || c == '\r' || c == '\U{0B}' || c == '\U{0C}' ==> b
    // No printable ASCII character (in particular none of `http://`) is whitespace.
    ensures '!' <= c <= '~' ==> !b
  {
    || c == ' '
    || ('\t' <= c <= '\r')
    || ('\U{1C}' <= c <= '\U{1F}')
    || c == '\U{85}'
    || c == '\U{A0}'
    || c == '\U{1680}'
    || ('\U{2000}' <= c <= '\U{200A}')
    || c == '\U{2028}'
    || c == '\U{2029}'
    || c == '\U{202F}'
    || c == '\U{205F}'
    || c == '\U{3000}'
  }

  /** `pat` occurs in `s` starting at index `i`. */
  predicate OccursAt(s: string, pat: string, i: nat) {
    i + |pat| <= |s| && s[i..i + |pat|] == pat
  }

  /** Python's `pat in s`, searching from index `from` onwards. */
  function ContainsFrom(s: string, pat: string, from: nat): (b: bool)
    decreases |s| - from
    ensures b <==> exists i: nat :: from <= i && OccursAt(s, pat, i)
  {
    if from + |pat| > |s| then false
    else OccursAt(s, pat, from) || ContainsFrom(s, pat, from + 1)
  }

  /** Python's `pat in s`: `pat` is a contiguous substring of `s`. */
  function Contains(s: string, pat: string): (b: bool)
    ensures b <==> exists i: nat :: OccursAt(s, pat, i)
  {
    ContainsFrom(s, pat, 0)
  }
}
