/**
 * The Telegram handlers `handle_message` and `start` as pure decision
 * tables. The fetched page and the outcome of the publish call are inputs;
 * the calls the handler makes are reported in an `Effects` record.
 */
module Handler {
  import opened Wrappers
  import opened Text
  import opened UrlScanner
  import opened Router
  import opened Extractor

  const NoLinkReply := "Por favor, envie um link válido."
  // Written in two pieces: the verifier does not look inside a string literal this long.
  const UnsupportedReply := "Desculpe, só consigo " + "processar links dos sites configurados."
  const ExtractFailedReply := "Não foi possível processar este link."
  const PublishFailedReply := "Não foi possível criar a página no Telegra.ph."
  const StartReply := "Bot de artigos iniciado. Envie um link de um site configurado."
  /** The hosted-page service's base URL; a created page lives at this plus its path. */
  const PageBase := "https://telegra.ph/"
  /** The fixed attribution label sent with every page. */
  const AuthorName := "JW.ORG"

  /** A call to the extractor for `site` on `url` (which fetches the page). */
  datatype Fetch = Fetch(site: Site, url: string)

  /** The arguments of `telegraph.create_page`. */
  datatype PublishRequest = PublishRequest(title: string, htmlContent: string, authorName: string, authorUrl: string)

  /** What `create_page` did: returned a page path, or raised. */
  datatype PublishOutcome = Created(path: string) | CreateFailed

  /** The outside calls one handler run attempted. */
  datatype Effects = Effects(fetch: Option<Fetch>, publish: Option<PublishRequest>)

  const NoEffects := Effects(None, None)

  /** The reply sent (`None` when nothing is sent) and the calls attempted. */
  datatype Handled = Handled(reply: Option<string>, effects: Effects)

  /**
   * `handle_message`. `page` is what the routed extractor's fetch and parse
   * of the scanned URL found, and `publish` is what `create_page` does with
   * the request; neither is consulted unless the handler gets that far.
   */
  function HandleMessage(senderId: int, authorizedId: int, text: string, page: Page, publish: PublishOutcome): (h: Handled)
    ensures h.reply.None? <==> senderId != authorizedId
    ensures senderId != authorizedId ==> h.effects == NoEffects
    ensures h.effects.publish.Some? ==> h.effects.fetch.Some?
    ensures h.effects.fetch.Some? ==>
      && ScanUrl(text) == Some(h.effects.fetch.value.url)
      && h.effects.fetch.value.site != Unsupported
  {
    if senderId != authorizedId then Handled(None, NoEffects)
    else
      match ScanUrl(text)
      case None => Handled(Some(NoLinkReply), NoEffects)
      case Some(url) => HandleUrl(url, page, publish)
  }

  /** The rest of `handle_message` once a URL was scanned: routing, extraction and publishing. */
  function HandleUrl(url: string, page: Page, publish: PublishOutcome): (h: Handled)
    ensures h.reply.Some?
    ensures h.effects.fetch.Some? <==> Route(url) != Unsupported
    ensures h.effects.fetch.Some? ==> h.effects.fetch.value == Fetch(Route(url), url)
    ensures h.effects.publish.Some? ==> h.effects.fetch.Some?
  {
    var site := Route(url);
    if site == Unsupported then Handled(Some(UnsupportedReply), NoEffects)
    else PublishStep(Fetch(site, url), Extract(page), publish)
  }

  /**
   * The step after the extractor ran: publish when both title and content
   * are truthy, and reply with the page link or one of the failure messages.
   */
  function PublishStep(fetch: Fetch, ex: Extraction, publish: PublishOutcome): (h: Handled)
    ensures h.reply.Some?
    ensures h.effects.fetch == Some(fetch)
    ensures h.effects.publish.Some? <==> Truthy(ex.title) && Truthy(ex.content)
  {
    if Truthy(ex.title) && Truthy(ex.content) then
      var request := PublishRequest(ex.title.value, ex.content.value, AuthorName, fetch.url);
      match publish
      case Created(path) => Handled(Some(PageBase + path), Effects(Some(fetch), Some(request)))
      case CreateFailed => Handled(Some(PublishFailedReply), Effects(Some(fetch), Some(request)))
    else Handled(Some(ExtractFailedReply), Effects(Some(fetch), None))
  }

  /** `start`: the greeting goes to the authorised sender only; nothing is fetched or published. */
  function Start(senderId: int, authorizedId: int): (r: Option<string>)
    ensures r.Some? <==> senderId == authorizedId
    ensures r.Some? ==> r.value == StartReply
  {
    if senderId == authorizedId then Some(StartReply) else None
  }

  /** A text with no match of the URL pattern gets the "valid link" prompt and causes no fetch or publish. */
  lemma NoUrlMeansNoCalls(senderId: int, text: string, page: Page, publish: PublishOutcome)
    requires forall i :: 0 <= i < |text| ==> !MatchesAt(text, i)
    ensures HandleMessage(senderId, senderId, text, page, publish) == Handled(Some(NoLinkReply), NoEffects)
  {
  }

  /** A scanned URL naming neither site gets the "configured sites" reply and causes no fetch or publish. */
  lemma UnsupportedMeansNoCalls(senderId: int, text: string, page: Page, publish: PublishOutcome)
    ensures
      && ScanUrl(text).Some?
      && (forall i: nat :: !OccursAt(ScanUrl(text).value, WwwHost, i))
      && (forall i: nat :: !OccursAt(ScanUrl(text).value, WolHost, i))
      ==> HandleMessage(senderId, senderId, text, page, publish) == Handled(Some(UnsupportedReply), NoEffects)
  {
  }

  /**
   * The extractor runs exactly when the sender is authorised and the
   * scanned URL names a site, and it is the `www.jw.org` extractor whenever
   * the URL contains `www.jw.org`.
   */
  lemma FetchIff(senderId: int, authorizedId: int, text: string, page: Page, publish: PublishOutcome)
    ensures var h := HandleMessage(senderId, authorizedId, text, page, publish);
      && (h.effects.fetch.Some? <==>
            && senderId == authorizedId
            && ScanUrl(text).Some?
            && ((exists i: nat :: OccursAt(ScanUrl(text).value, WwwHost, i))
                || (exists i: nat :: OccursAt(ScanUrl(text).value, WolHost, i))))
      && (h.effects.fetch.Some? ==>
            (h.effects.fetch.value.site == Www <==>
               exists i: nat :: OccursAt(h.effects.fetch.value.url, WwwHost, i)))
  {
  }

  /**
   * A publish is attempted exactly when the extractor ran and found a
   * non-empty title and a container holding some non-empty fragment; the
   * request carries that title, the joined fragments, the label `JW.ORG`
   * and the scanned URL.
   */
  lemma PublishIff(senderId: int, authorizedId: int, text: string, page: Page, publish: PublishOutcome)
    ensures var h := HandleMessage(senderId, authorizedId, text, page, publish);
      && (h.effects.publish.Some? <==>
            && h.effects.fetch.Some?
            && page.Fetched?
            && Truthy(page.title)
            && page.container.Some?
            && exists k :: 0 <= k < |page.container.value| && page.container.value[k] != "")
      && (h.effects.publish.Some? ==>
            && page.Fetched? && page.title.Some? && page.container.Some?
            && h.effects.publish.value ==
                 PublishRequest(page.title.value, Concat(page.container.value), "JW.ORG", h.effects.fetch.value.url))
  {
    PublishableIff(page);
  }

  /**
   * Once the extractor has run, the reply is the processing-failure message
   * when nothing was published, the page link `https://telegra.ph/` + path
   * when the publish succeeded, and the page-creation failure message when
   * it failed.
   */
  lemma ReplyAfterFetch(senderId: int, authorizedId: int, text: string, page: Page, publish: PublishOutcome)
    ensures var h := HandleMessage(senderId, authorizedId, text, page, publish);
      h.effects.fetch.Some? ==>
      && (h.effects.publish.None? ==> h.reply == Some("Não foi possível processar este link."))
      && (h.effects.publish.Some? && publish.Created? ==> h.reply == Some("https://telegra.ph/" + publish.path))
      && (h.effects.publish.Some? && publish.CreateFailed? ==>
            h.reply == Some("Não foi possível criar a página no Telegra.ph."))
  {
  }

  /** The page and the publish outcome matter only to the steps that consult them. */
  lemma UnusedInputsDoNotMatter(senderId: int, authorizedId: int, text: string,
                                page: Page, page': Page, publish: PublishOutcome, publish': PublishOutcome)
    ensures var h := HandleMessage(senderId, authorizedId, text, page, publish);
      && (h.effects.fetch.None? ==> HandleMessage(senderId, authorizedId, text, page', publish') == h)
      && (h.effects.publish.None? ==> HandleMessage(senderId, authorizedId, text, page, publish') == h)
  {
  }

  /** The ways a message can end. */
  datatype Terminal = Dropped | NoLink | UnsupportedSite | ExtractionFailed | PublishFailed | Published(path: string)

  /** The reply each ending sends. */
  function ReplyFor(t: Terminal): (r: Option<string>)
    ensures r.None? <==> t == Dropped
    ensures t.Published? ==> r.Some? && |r.value| >= |PageBase| && r.value[..|PageBase|] == PageBase
  {
    match t
    case Dropped => None
    case NoLink => Some(NoLinkReply)
    case UnsupportedSite => Some(UnsupportedReply)
    case ExtractionFailed => Some(ExtractFailedReply)
    case PublishFailed => Some(PublishFailedReply)
    case Published(path) => Some(PageBase + path)
  }

  /** Different endings send different replies, so the reply tells the operator how the message ended. */
  lemma ReplyForInjective(t1: Terminal, t2: Terminal)
    requires ReplyFor(t1) == ReplyFor(t2)
    ensures t1 == t2
  {
    // The fixed replies start with 'P', 'D' or 'N' and a page link with 'h';
    // the two failure replies part at index 17 ("processar" / "criar").
    assert NoLinkReply[0] == 'P' && UnsupportedReply[0] == 'D';
    assert ExtractFailedReply[0] == 'N' && PublishFailedReply[0] == 'N';
    assert ExtractFailedReply[17] != PublishFailedReply[17];
    if t1.Published? {
      assert (PageBase + t1.path)[0] == 'h';
    }
    if t2.Published? {
      assert (PageBase + t2.path)[0] == 'h';
    }
    if t1.Published? && t2.Published? {
      assert (PageBase + t1.path)[|PageBase|..] == t1.path;
      assert (PageBase + t2.path)[|PageBase|..] == t2.path;
    }
  }

  /** Every run of `handle_message` ends in exactly one of the endings, and sends that ending's reply. */
  lemma HandleEndsInOneTerminal(senderId: int, authorizedId: int, text: string, page: Page, publish: PublishOutcome)
    ensures exists t :: HandleMessage(senderId, authorizedId, text, page, publish).reply == ReplyFor(t)
    ensures var h := HandleMessage(senderId, authorizedId, text, page, publish);
      forall t :: h.reply == ReplyFor(t) ==> (t == Dropped <==> senderId != authorizedId)
  {
    if senderId != authorizedId {
      assert HandleMessage(senderId, authorizedId, text, page, publish).reply == ReplyFor(Dropped);
    } else if ScanUrl(text).None? {
      assert HandleMessage(senderId, authorizedId, text, page, publish).reply == ReplyFor(NoLink);
    } else {
      var t := UrlEnding(ScanUrl(text).value, page, publish);
      assert HandleMessage(senderId, authorizedId, text, page, publish) == HandleUrl(ScanUrl(text).value, page, publish);
    }
  }

  /** The ending reached once a URL was scanned. */
  lemma UrlEnding(url: string, page: Page, publish: PublishOutcome) returns (t: Terminal)
    ensures HandleUrl(url, page, publish).reply == ReplyFor(t)
  {
    if Route(url) == Unsupported {
      t := UnsupportedSite;
    } else {
      t := PublishEnding(Fetch(Route(url), url), Extract(page), publish);
    }
  }

  /** The ending reached once the extractor ran. */
  lemma PublishEnding(fetch: Fetch, ex: Extraction, publish: PublishOutcome) returns (t: Terminal)
    ensures PublishStep(fetch, ex, publish).reply == ReplyFor(t)
  {
    if !(Truthy(ex.title) && Truthy(ex.content)) {
      t := ExtractionFailed;
    } else if publish.CreateFailed? {
      t := PublishFailed;
    } else {
      t := Published(publish.path);
    }
  }
}
