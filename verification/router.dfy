/**
 * The site router of `handle_message`: an ordered substring test on the
 * whole scanned URL.
 */
module Router {
  import opened Text

  /** The two supported publishing sites, or neither. */
  datatype Site = Www | Wol | Unsupported

  const WwwHost := "www.jw.org"
  const WolHost := "wol.jw.org"

  /**
   * `"www.jw.org" in url` is tested first, then `"wol.jw.org" in url`.
   * The pattern may occur anywhere in the URL, not only in its host.
   */
  function Route(url: string): (s: Site)
    ensures s == Www <==> exists i: nat :: OccursAt(url, WwwHost, i)
    ensures s == Wol <==>
      && (forall i: nat :: !OccursAt(url, WwwHost, i))
      && (exists i: nat :: OccursAt(url, WolHost, i))
    ensures s == Unsupported <==>
      && (forall i: nat :: !OccursAt(url, WwwHost, i))
      && (forall i: nat :: !OccursAt(url, WolHost, i))
  {
    if Contains(url, WwwHost) then Www
    else if Contains(url, WolHost) then Wol
    else Unsupported
  }

  /** A URL naming both sites goes to the `www.jw.org` extractor. */
  lemma BothHostsRouteToWww(url: string, i: nat, j: nat)
    requires OccursAt(url, WwwHost, i)
    requires OccursAt(url, WolHost, j)
    ensures Route(url) == Www
  {
  }

  /**
   * The test is on the whole URL: a link on another host whose path or
   * query mentions `www.jw.org` is routed to the `www.jw.org` extractor.
   */
  lemma PathMentionRoutesToWww()
    ensures Route("https://example.com/?u=www.jw.org") == Www
  {
    var url := "https://example.com/?u=www.jw.org";
    assert url[23..33] == WwwHost;
    assert OccursAt(url, WwwHost, 23);
  }
}
