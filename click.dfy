/**
  What `handleUsernameClick` in content.js decides for one click. The event
  plumbing is left to the host: `closest('a')` is the parameter `target`, the
  settings read is the parameter `stored`, and `preventDefault`,
  `stopPropagation` and `window.open` are the actions returned.
 */
module Click {
  import opened Wrappers
  import opened Links
  import Settings
  import Redirect
  import FormUrlEncoded

  datatype Action =
    | LeaveAlone              // the browser follows the link as usual
    | Suppress                // default prevented and propagation stopped, nothing opened
    | SuppressAndOpen(url: string)  // as Suppress, then the URL opened in a new tab

  /**
    A link the classifier rejects is left alone; a classified one is suppressed, and
    when a username comes out of its href, the redirect opens. Both Suppress
    branches are unreachable: a classified link has a non-empty `href`
    (`IsUsernameLink`'s ensures), and a username always comes out of it
    (`InterceptedClickOpens`).
   */
  function HandleUsernameClick(target: Option<Element>, stored: Settings.Stored): (r: Action)
    ensures r.LeaveAlone? <==> !(target.Some? && IsUsernameLink(target.value))
    ensures r.SuppressAndOpen? ==>
              target.Some? && target.value.href.Some? && ExtractUsername(target.value.href.value).Some?
  {
    match target
    case None => LeaveAlone
    case Some(e) =>
      if !IsUsernameLink(e) then LeaveAlone
      else
        match e.href
        case None => Suppress
        case Some(href) =>
          match ExtractUsername(href)
          case None => Suppress
          case Some(username) =>
            SuppressAndOpen(Redirect.CreateRedirectUrl(username, Settings.GetSettings(stored)))
  }

  /**
    A click is intercepted exactly when its closest anchor is a username link, and an
    intercepted click always opens a tab: Suppress alone never happens.
   */
  lemma InterceptedClickOpens(target: Option<Element>, stored: Settings.Stored)
    ensures HandleUsernameClick(target, stored) != Suppress
    ensures HandleUsernameClick(target, stored).LeaveAlone? <==> !(target.Some? && IsUsernameLink(target.value))
  {
    if target.Some? && IsUsernameLink(target.value) {
      ClassifiedLinkExtracts(target.value);
    }
  }

  /**
    A click on an anchor whose href matches a pattern opens the search for the
    `<name>` that pattern matched, with the merged settings; read back, the opened
    URL's `author` is that name.
   */
  lemma OpensSearchForMatchedName(e: Element, stored: Settings.Stored, p: Pattern)
    requires e.tagName == "A" && e.href.Some? && Matches(p, e.href.value)
    ensures var name := MatchedName(p, e.href.value);
      && HandleUsernameClick(Some(e), stored)
         == SuppressAndOpen(Redirect.CreateRedirectUrl(name, Settings.GetSettings(stored)))
      && var url := HandleUsernameClick(Some(e), stored).url;
      && Redirect.BeforeQuery(url) == Redirect.BASE_URL
      && Redirect.QueryOf(url).Some?
      && FormUrlEncoded.Parse(Redirect.QueryOf(url).value).Some?
      && FormUrlEncoded.Get(FormUrlEncoded.Parse(Redirect.QueryOf(url).value).value, "author") == Some(name)
  {
    var name := MatchedName(p, e.href.value);
    var settings := Settings.GetSettings(stored);
    MatchedLinkOpens(e, stored, p);
    Redirect.RedirectUrlQuery(name, settings);
    Redirect.RedirectUrlValues(name, settings);
  }

  /** A click on an anchor whose href matches a pattern opens the redirect for that pattern's name. */
  lemma MatchedLinkOpens(e: Element, stored: Settings.Stored, p: Pattern)
    requires e.tagName == "A" && e.href.Some? && Matches(p, e.href.value)
    ensures HandleUsernameClick(Some(e), stored)
      == SuppressAndOpen(Redirect.CreateRedirectUrl(MatchedName(p, e.href.value), Settings.GetSettings(stored)))
  {
    var href := e.href.value;
    var name := MatchedName(p, href);
    MatchesShape(p, name, href[|href| - 1] == '/');
    ShapeOfMatch(p, href);
    IsUsernameHrefIff(href);
    ExtractsMatchedName(p, href);
  }
}
