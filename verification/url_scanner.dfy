/**
 * The semantics of `re.search(r'https?://[^\s]+', text)` and of `.group(0)`
 * on its result: the leftmost position where the pattern matches, and the
 * longest run of non-whitespace the greedy `[^\s]+` takes from there.
 */
module UrlScanner {
  import opened Wrappers
  import opened Text

  const Http := "http://"
  const Https := "https://"

  /**
   * The pattern `https?://[^\s]+` matches at index `i`. The greedy `s?`
   * first tries `https://`; backtracking to `http://` cannot succeed at an
   * `https://` position, because the character after `http` is then `s`
   * and not `:`. Either way `[^\s]+` needs at least one non-whitespace
   * character after the `://`.
   */
  function MatchesAt(text: string, i: nat): (b: bool)
    ensures b ==> i + |Http| < |text| && text[i] == 'h' && text[i + 6] == '/'
  {
    || (OccursAt(text, Https, i) && i + |Https| < |text| && !IsSpace(text[i + |Https|]))
    || (OccursAt(text, Http, i) && i + |Http| < |text| && !IsSpace(text[i + |Http|]))
  }

  /** The word `w` is `scheme` followed by one or more non-whitespace characters. */
  ghost predicate SchemeWord(w: string, scheme: string) {
    && |w| > |scheme|
    && w[..|scheme|] == scheme
    && forall k :: |scheme| <= k < |w| ==> !IsSpace(w[k])
  }

  /** The word `w` belongs to the language of `https?://[^\s]+`. */
  ghost predicate InPattern(w: string) {
    SchemeWord(w, Https) || SchemeWord(w, Http)
  }

  /** A piece `text[i..j]` is a scheme word exactly when the scheme occurs at `i` and whitespace-free text follows up to `j`. */
  lemma SchemeWordAt(text: string, i: nat, j: nat, scheme: string)
    requires i < j <= |text|
    ensures SchemeWord(text[i..j], scheme) <==>
      && OccursAt(text, scheme, i)
      && i + |scheme| < j
      && forall k :: i + |scheme| <= k < j ==> !IsSpace(text[k])
  {
    var w := text[i..j];
    if i + |scheme| < j {
      assert w[..|scheme|] == text[i..i + |scheme|];
      forall k | |scheme| <= k < |w|
        ensures w[k] == text[i + k]
      {
      }
    }
  }

  /**
   * `MatchesAt` is the regular expression's own notion of a match: the
   * pattern matches at `i` exactly when some non-empty piece of the text
   * starting at `i` is in its language.
   */
  lemma MatchesAtIffPattern(text: string, i: nat)
    ensures MatchesAt(text, i) <==> exists j :: i < j <= |text| && InPattern(text[i..j])
  {
    if OccursAt(text, Https, i) && i + |Https| < |text| && !IsSpace(text[i + |Https|]) {
      SchemeWordAt(text, i, i + |Https| + 1, Https);
      assert InPattern(text[i..i + |Https| + 1]);
    } else if OccursAt(text, Http, i) && i + |Http| < |text| && !IsSpace(text[i + |Http|]) {
      SchemeWordAt(text, i, i + |Http| + 1, Http);
      assert InPattern(text[i..i + |Http| + 1]);
    }
    if exists j :: i < j <= |text| && InPattern(text[i..j]) {
      var j :| i < j <= |text| && InPattern(text[i..j]);
      SchemeWordAt(text, i, j, Https);
      SchemeWordAt(text, i, j, Http);
    }
  }

  /** The span `text[start..end]` of a match, as Python's match object holds it. */
  datatype Match = Match(start: nat, end: nat)

  /**
   * The end of the longest run of non-whitespace characters starting at `j`:
   * the first index at or after `j` that holds whitespace, or the end of text.
   */
  function RunEnd(text: string, j: nat): (k: nat)
    requires j <= |text|
    decreases |text| - j
    ensures j <= k <= |text|
    ensures forall m :: j <= m < k ==> !IsSpace(text[m])
    ensures k == |text| || IsSpace(text[k])
  {
    if j == |text| || IsSpace(text[j]) then j else RunEnd(text, j + 1)
  }

  /**
   * What `re.search` promises: `m` starts at a matching position, no earlier
   * position matches, and `m` extends over the longest whitespace-free run.
   */
  ghost predicate IsLeftmostLongest(text: string, m: Match) {
    && m.start <= m.end <= |text|
    && MatchesAt(text, m.start)
    && (forall i :: 0 <= i < m.start ==> !MatchesAt(text, i))
    && (forall k :: m.start <= k < m.end ==> !IsSpace(text[k]))
    && (m.end == |text| || IsSpace(text[m.end]))
  }

  /** The search, trying each start position from `from` left to right. */
  function SearchFrom(text: string, from: nat): (r: Option<Match>)
    requires from <= |text|
    decreases |text| - from
    ensures r.None? <==> forall i :: from <= i < |text| ==> !MatchesAt(text, i)
    ensures r.Some? ==>
      && from <= r.value.start <= r.value.end <= |text|
      && MatchesAt(text, r.value.start)
      && (forall i :: from <= i < r.value.start ==> !MatchesAt(text, i))
      && (forall k :: r.value.start <= k < r.value.end ==> !IsSpace(text[k]))
      && (r.value.end == |text| || IsSpace(text[r.value.end]))
  {
    if from == |text| then None
    else if MatchesAt(text, from) then Some(Match(from, RunEnd(text, from)))
    else SearchFrom(text, from + 1)
  }

  /** `re.search(r'https?://[^\s]+', text)`. */
  function Search(text: string): (r: Option<Match>)
    ensures r.None? <==> forall i :: 0 <= i < |text| ==> !MatchesAt(text, i)
    ensures r.Some? ==> IsLeftmostLongest(text, r.value)
  {
    SearchFrom(text, 0)
  }

  /** `match.group(0)`: the matched text. */
  function Group(text: string, m: Match): string
    requires m.start <= m.end <= |text|
  {
    text[m.start..m.end]
  }

  /** The URL `handle_message` works with: the matched text, if any. */
  function ScanUrl(text: string): (u: Option<string>)
    ensures u.None? <==> forall i :: 0 <= i < |text| ==> !MatchesAt(text, i)
    ensures u.Some? ==> exists m :: IsLeftmostLongest(text, m) && u.value == text[m.start..m.end]
  {
    match Search(text)
    case None => None
    case Some(m) => Some(Group(text, m))
  }

  /** At most one span satisfies the search specification, so the search result is determined by it. */
  lemma LeftmostLongestUnique(text: string, m1: Match, m2: Match)
    requires IsLeftmostLongest(text, m1)
    requires IsLeftmostLongest(text, m2)
    ensures m1 == m2
  {
  }

  /**
   * A scanned URL is a word of the pattern's language: it begins with
   * `https://` or `http://` and has at least one non-whitespace character
   * after the `://`.
   */
  lemma ScannedUrlScheme(text: string)
    ensures ScanUrl(text).Some? ==> InPattern(ScanUrl(text).value)
  {
    if Search(text).None? { return; }
    var m := Search(text).value;
    assert ScanUrl(text) == Some(text[m.start..m.end]);
    SpanInPattern(text, m.start, m.end);
  }

  /** Neither scheme contains a whitespace character. */
  lemma SchemesHaveNoSpace()
    ensures forall k :: 0 <= k < |Https| ==> !IsSpace(Https[k])
    ensures forall k :: 0 <= k < |Http| ==> !IsSpace(Http[k])
  {
  }

  /**
   * The longest whitespace-free run from a matching position is a word of
   * the pattern's language.
   */
  lemma SpanInPattern(text: string, a: nat, b: nat)
    requires a <= b <= |text|
    requires MatchesAt(text, a)
    requires forall k :: a <= k < b ==> !IsSpace(text[k])
    requires b == |text| || IsSpace(text[b])
    ensures InPattern(text[a..b])
  {
    SchemesHaveNoSpace();
    if OccursAt(text, Https, a) && a + |Https| < |text| && !IsSpace(text[a + |Https|]) {
      assert a + |Https| < b;
      SchemeWordAt(text, a, b, Https);
    } else {
      assert a + |Http| < b;
      SchemeWordAt(text, a, b, Http);
    }
  }

  /** A scanned URL contains no whitespace. */
  lemma ScannedUrlHasNoSpace(text: string)
    ensures ScanUrl(text).Some? ==>
      var u := ScanUrl(text).value;
      forall k :: 0 <= k < |u| ==> !IsSpace(u[k])
  {
    if Search(text).None? { return; }
    var m := Search(text).value;
    assert ScanUrl(text).value == text[m.start..m.end];
    SliceHasNoSpace(text, m.start, m.end);
  }

  /** A slice of a whitespace-free stretch of text is whitespace-free. */
  lemma SliceHasNoSpace(text: string, a: nat, b: nat)
    requires a <= b <= |text|
    requires forall k :: a <= k < b ==> !IsSpace(text[k])
    ensures forall k :: 0 <= k < b - a ==> !IsSpace(text[a..b][k])
  {
    forall k | 0 <= k < b - a
      ensures !IsSpace(text[a..b][k])
    {
      assert text[a..b][k] == text[a + k];
    }
  }

  /**
   * A scanned URL is a contiguous piece of the text that is maximal (it ends
   * at the end of the text or just before whitespace) and starts at the
   * leftmost matching position.
   */
  lemma ScannedUrlIsLeftmostMaximal(text: string)
    ensures ScanUrl(text).Some? ==>
      var u := ScanUrl(text).value;
      exists i: nat ::
        && OccursAt(text, u, i)
        && MatchesAt(text, i)
        && (i + |u| == |text| || IsSpace(text[i + |u|]))
        && (forall j :: 0 <= j < i ==> !MatchesAt(text, j))
  {
    if Search(text).None? { return; }
    var m := Search(text).value;
    var u := text[m.start..m.end];
    assert ScanUrl(text) == Some(u);
    assert OccursAt(text, u, m.start);
  }

  /** Python's `re` cannot fall back to `http://` at a position spelling `https://`. */
  lemma HttpsPositionIsNotHttp(text: string, i: nat)
    requires OccursAt(text, Https, i)
    ensures !OccursAt(text, Http, i)
  {
    assert text[i + 4] == Https[4];
  }

  /** At an `https://` position followed by whitespace or the end, no match starts. */
  lemma HttpsWithoutHostDoesNotMatch(text: string, i: nat)
    requires OccursAt(text, Https, i)
    requires i + |Https| == |text| || IsSpace(text[i + |Https|])
    ensures !MatchesAt(text, i)
  {
    HttpsPositionIsNotHttp(text, i);
  }
}
