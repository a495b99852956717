/**
 * The post-processing shared by `extract_from_www_jw_org` and
 * `extract_from_wol_jw_org`. The fetch and the HTML parse are abstract: a
 * `Page` records what the site's selectors found.
 */
module Extractor {
  import opened Wrappers

  /**
   * What fetching and parsing one page produced. `FetchFailed` covers a
   * transport error, a timeout and a non-success status. For a fetched page,
   * `title` is the stripped text of the first `h1` (`None` when there is no
   * `h1`) and `container` the serialised `p`/`h2` elements of the site's
   * body container, in document order (`None` when there is no container).
   */
  datatype Page =
    | FetchFailed
    | Fetched(title: Option<string>, container: Option<seq<string>>)

  /** The `(title, content_html)` pair an extractor returns. */
  datatype Extraction = Extraction(title: Option<string>, content: Option<string>)

  /** Python truthiness of an optional string: present and non-empty. */
  function Truthy(s: Option<string>): (b: bool)
    ensures s == None ==> !b
    ensures s == Some("") ==> !b
    ensures s.Some? && |s.value| > 0 ==> b
  {
    s.Some? && s.value != ""
  }

  /** `''.join(fragments)`. */
  function Concat(fragments: seq<string>): (r: string)
    ensures r == "" <==> forall k :: 0 <= k < |fragments| ==> fragments[k] == ""
  {
    if |fragments| == 0 then "" else fragments[0] + Concat(fragments[1..])
  }

  /** Joining two runs of fragments is joining each and appending the results. */
  lemma {:induction false} ConcatAppend(a: seq<string>, b: seq<string>)
    ensures Concat(a + b) == Concat(a) + Concat(b)
  {
    if |a| == 0 {
      assert a + b == b;
    } else {
      assert (a + b)[1..] == a[1..] + b;
      ConcatAppend(a[1..], b);
    }
  }

  /** Every fragment appears in the joined content, at the offset where the earlier fragments end. */
  lemma {:induction false} ConcatKeepsOrder(fragments: seq<string>, k: nat)
    requires k < |fragments|
    ensures var off := |Concat(fragments[..k])|;
      && off + |fragments[k]| <= |Concat(fragments)|
      && Concat(fragments)[off..off + |fragments[k]|] == fragments[k]
  {
    assert fragments == fragments[..k] + fragments[k..];
    ConcatAppend(fragments[..k], fragments[k..]);
    assert fragments[k..][0] == fragments[k];
  }

  /**
   * The extractor's result for a page: `(None, None)` when the fetch failed,
   * there is no `h1` (the `AttributeError` is caught), the title is empty,
   * or the container is missing; otherwise the title and the joined
   * fragments. An empty container is still present (a parsed tag is always
   * truthy) and yields empty content.
   */
  function Extract(page: Page): (r: Extraction)
    ensures r.title.None? <==> r.content.None?
    ensures r.title.None? <==>
      || page.FetchFailed?
      || !Truthy(page.title)
      || page.container.None?
    ensures r.title.Some? ==> r.title == page.title && r.title.value != ""
    ensures r.content.Some? ==>
      && page.Fetched? && page.container.Some?
      && r.content.value == Concat(page.container.value)
      && (r.content.value == "" <==>
            forall k :: 0 <= k < |page.container.value| ==> page.container.value[k] == "")
  {
    match page
    case FetchFailed => Extraction(None, None)
    case Fetched(title, container) =>
      if !Truthy(title) || container.None? then Extraction(None, None)
      else Extraction(title, Some(Concat(container.value)))
  }

  /**
   * The content of a successful extraction is the in-order join of the
   * container's fragments; in particular a page whose container holds a
   * paragraph `p` and then a sub-heading `h` yields `p + h`.
   */
  lemma ExtractJoinsInOrder(t: string, p: string, h: string)
    requires t != ""
    ensures Extract(Fetched(Some(t), Some([p, h]))) == Extraction(Some(t), Some(p + h))
  {
    assert [p, h][1..] == [h];
    assert [h][1..] == [];
    assert Concat([h]) == h + "";
    assert h + "" == h;
  }

  /** Both the title and the content of an extraction are non-empty exactly when the page is usable. */
  lemma PublishableIff(page: Page)
    ensures Truthy(Extract(page).title) && Truthy(Extract(page).content) <==>
      && page.Fetched?
      && Truthy(page.title)
      && page.container.Some?
      && exists k :: 0 <= k < |page.container.value| && page.container.value[k] != ""
  {
  }
}
