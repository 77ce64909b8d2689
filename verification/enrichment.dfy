/** Best-effort enrichment of a new bookmark (app/api/bookmarks/route.ts): the
    summary from the external reader service and the title and favicon from the
    page itself. Each outbound fetch is an input: its outcome, not the call. */
module Enrichment {
  import opened Wrappers
  import opened Text
  import opened TitleMatch

  /** The outcome of one `fetch` followed by reading the body as text. A
      rejected fetch or an unreadable body is `FetchFailed`, whose detail is only
      ever logged. */
  datatype Fetched = FetchFailed(detail: string) | Response(ok: bool, text: string)

  const SummaryLimit: nat := 500
  const Ellipsis: string := "..."
  const SummaryFallback: string := "Unable to generate summary for this link."
  const FaviconService: string := "https://www.google.com/s2/favicons?domain="

  /** `text.slice(0, 500) + (text.length > 500 ? '...' : '')`. */
  function Truncate(text: string): (r: string)
    ensures |text| <= SummaryLimit ==> r == text
    ensures |text| > SummaryLimit ==> r == text[..SummaryLimit] + Ellipsis
    ensures |r| <= SummaryLimit + |Ellipsis|
  {
    text[..if |text| < SummaryLimit then |text| else SummaryLimit]
      + (if |text| > SummaryLimit then Ellipsis else [])
  }

  /** A summary already within the budget, or already cut to it, is not cut
      again. */
  lemma TruncateIdempotent(text: string)
    ensures Truncate(Truncate(text)) == Truncate(text)
  {
    if |text| > SummaryLimit {
      var r := Truncate(text);
      assert r[..SummaryLimit] == text[..SummaryLimit];
    }
  }

  /** `generateSummary`: a non-OK status or any failure gives the fixed
      fallback sentence; otherwise the reader's text, truncated. */
  function GenerateSummary(reply: Fetched): (summary: string)
    ensures reply.FetchFailed? || !reply.ok ==> summary == SummaryFallback
    ensures reply.Response? && reply.ok ==> summary == Truncate(reply.text)
    ensures |summary| <= SummaryLimit + |Ellipsis|
  {
    match reply
    case FetchFailed(_) => SummaryFallback
    case Response(ok, text) => if ok then Truncate(text) else SummaryFallback
  }

  /** The favicon proxy address for a host name; nothing is encoded. */
  function FaviconUrl(host: string): (url: string)
    ensures |url| == |FaviconService| + |host|
    ensures url[..|FaviconService|] == FaviconService
    ensures url[|FaviconService|..] == host
  {
    FaviconService + host
  }

  datatype Metadata = Metadata(title: string, favicon: string)

  /** `extractMetadata`. `host` is what `new URL(url).hostname` gives, `None`
      when that constructor throws. The page fetch is used whatever its status.
      Without a host name the function throws even from its fallback path, so
      the result is `None`. */
  function ExtractMetadata(page: Fetched, host: Option<string>): (r: Option<Metadata>)
    ensures r.None? <==> host.None?
    ensures r.Some? ==> r.value.favicon == FaviconUrl(host.value)
    ensures r.Some? && page.FetchFailed? ==> r.value.title == host.value
    ensures r.Some? && page.Response? ==>
      match FirstTitle(page.text)
      case Some(c) => r.value.title == Trim(c)
      case None => r.value.title == host.value
  {
    match host
    case None => None
    case Some(h) =>
      var title :=
        match page
        case FetchFailed(_) => h
        case Response(_, html) =>
          match FirstTitle(html)
          case Some(c) => Trim(c)
          case None => h;
      Some(Metadata(title, FaviconUrl(h)))
  }

  /** The favicon depends on the host name alone: the page fetch succeeding,
      failing or returning an error status makes no difference to it. */
  lemma FaviconIndependentOfPage(page1: Fetched, page2: Fetched, host: string)
    ensures ExtractMetadata(page1, Some(host)).value.favicon
         == ExtractMetadata(page2, Some(host)).value.favicon
  {
  }

  /** A page title taken from the page is trimmed and contains no `<`,
      whatever the page's status. */
  lemma PageTitleShape(html: string, ok: bool, host: string)
    requires FirstTitle(html).Some?
    ensures var t := ExtractMetadata(Response(ok, html), Some(host)).value.title;
      IsTrimmed(t) && '<' !in t
  {
    var c := FirstTitle(html).value;
    var i: nat :| CapturesAt(html, i, c) && NoMatchBetween(html, 0, i);
    var lead, trail := TrimDecomposes(c);
    assert Trim(c) == c[|lead|..|lead| + |Trim(c)|];
  }

  /** A title element holding only whitespace yields an empty title, not the
      host name: the pattern needs one character, and trimming removes it. */
  lemma BlankTitleGivesEmptyTitle(html: string, ok: bool, host: string)
    requires FirstTitle(html).Some? && AllSpace(FirstTitle(html).value)
    ensures ExtractMetadata(Response(ok, html), Some(host)).value.title == []
  {
    TrimEmptyIffAllSpace(FirstTitle(html).value);
  }

  /** The pattern is ASCII case-insensitive, allows attributes in the opening
      tag, and its capture may hold anything but `<`, line breaks included: a
      page that starts with such a title element has that capture as its
      first title. */
  lemma TitleElementCaptured(open: string, attrs: string, c: string, close: string)
    requires Lower(open) == Lower(OpenTag) && Lower(close) == Lower(CloseTag)
    requires '>' !in attrs && c != [] && '<' !in c
    ensures FirstTitle(open + attrs + ">" + c + close) == Some(c)
  {
    var html := open + attrs + ">" + c + close;
    var gt := |open| + |attrs|;
    var lt := gt + 1 + |c|;
    assert html[0..|OpenTag|] == open;
    assert html[|OpenTag|..gt] == attrs;
    assert html[gt] == '>';
    assert html[gt + 1..lt] == c;
    assert html[lt..lt + |CloseTag|] == close;
    assert MatchesWith(html, 0, gt, lt);
    assert CapturesAt(html, 0, c);
    FirstTitleIsLeftmost(html, 0, c);
  }

  /** The title of a page that starts with such an element is its trimmed
      capture. */
  lemma AnyCaseMultiLineTitle(open: string, attrs: string, c: string, close: string,
                              ok: bool, host: string)
    requires Lower(open) == Lower(OpenTag) && Lower(close) == Lower(CloseTag)
    requires '>' !in attrs && c != [] && '<' !in c
    ensures ExtractMetadata(Response(ok, open + attrs + ">" + c + close), Some(host)).value.title == Trim(c)
  {
    TitleElementCaptured(open, attrs, c, close);
  }
}
