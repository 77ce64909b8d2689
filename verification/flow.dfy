/** The add and delete flows end to end: the dialog's submission handed to
    the page's handler, the request it sends handled by the endpoint, and the
    endpoint's response reconciled into the page's list. */
module Flow {
  import opened Wrappers
  import opened Text
  import opened Records
  import opened Enrichment
  import opened BookmarksApi
  import opened BookmarkView
  import opened AddForm

  /** What the page's `fetch` makes of an endpoint response. The page checks
      only `response.ok`, so any 2xx body would be prepended; `Post` answers
      2xx only with a record, so requiring one here loses nothing. */
  function CreateReply(response: HttpResponse): (r: Reply<Bookmark>)
    ensures r.Succeeded? <==> 200 <= response.status < 300 && response.body.OneBookmark?
    ensures r.Succeeded? ==> r.value == response.body.bookmark
  {
    if 200 <= response.status < 300 && response.body.OneBookmark? then Succeeded(response.body.bookmark)
    else Failed
  }

  function DeleteReply(response: HttpResponse): (r: Reply<()>)
    ensures r.Succeeded? <==> 200 <= response.status < 300
  {
    if 200 <= response.status < 300 then Succeeded(()) else Failed
  }

  datatype AddFlow = AddFlow(form: Form, view: ViewState, post: Option<PostOutcome>)

  /** One submission of the dialog wired to the page: `onAddBookmark` is the
      page's `handleAddBookmark`, which catches every failure and so always
      completes; its request, if any, goes to `POST`. */
  function SubmitThroughPage(form: Form, view: ViewState, uid: Option<string>, host: Option<string>,
                             page: Fetched, reader: Fetched, store: StoreReply<Bookmark>): (flow: AddFlow)
    ensures flow.post.Some? <==> !AllSpace(form.url) && Truthy(uid)
    ensures AllSpace(form.url) ==> flow.form == form && flow.view == view
    ensures flow.view.filters == view.filters
  {
    TrimEmptyIffAllSpace(form.url);
    var sub := Submit(form, Completed);
    match sub.call
    case None => AddFlow(sub.form, view, None)
    case Some(p) =>
      match AddRequest(uid, p)
      case None => AddFlow(sub.form, HandleAdd(view, uid, p, Failed).view, None)
      case Some(req) =>
        var post := Post(Some(req), host, page, reader, store);
        AddFlow(sub.form, HandleAdd(view, uid, p, CreateReply(post.response)).view, Some(post))
  }

  /** A request built by the page from a non-blank submission of a signed-in
      user always passes the endpoint's validation. */
  lemma UiCreateNeverBadRequest(form: Form, view: ViewState, uid: Option<string>, host: Option<string>,
                                page: Fetched, reader: Fetched, store: StoreReply<Bookmark>)
    requires Truthy(uid) && !AllSpace(form.url)
    ensures var flow := SubmitThroughPage(form, view, uid, host, page, reader, store);
      flow.post.Some? && flow.post.value.response.status != 400
  {
    TrimEmptyIffAllSpace(form.url);
  }

  /** The stored row carries what the user typed, normalised: the trimmed URL,
      the parsed tags, the trimmed custom summary or, when it was blank, the
      generated one, and the user's id. */
  lemma UiCreateStoresNormalisedFields(form: Form, view: ViewState, uid: string, host: string,
                                       page: Fetched, reader: Fetched, store: StoreReply<Bookmark>)
    requires uid != [] && !AllSpace(form.url)
    ensures var flow := SubmitThroughPage(form, view, Some(uid), Some(host), page, reader, store);
      && flow.post.Some? && flow.post.value.insert.Some?
      && var row := flow.post.value.insert.value;
      && row.url == Trim(form.url)
      && row.tags == ParseTags(form.tags)
      && row.userId == uid
      && row.summary == (if AllSpace(form.customSummary) then GenerateSummary(reader) else Trim(form.customSummary))
  {
    TrimEmptyIffAllSpace(form.url);
    TrimEmptyIffAllSpace(form.customSummary);
  }

  /** When the store accepts the row, the record it returns heads the page's
      list; when anything fails on the way, the list is unchanged. */
  lemma UiCreateReconciles(form: Form, view: ViewState, uid: string, host: Option<string>,
                           page: Fetched, reader: Fetched, store: StoreReply<Bookmark>)
    requires uid != [] && !AllSpace(form.url)
    ensures var flow := SubmitThroughPage(form, view, Some(uid), host, page, reader, store);
      && (host.Some? && store.Stored? ==> flow.view.bookmarks == [store.value] + view.bookmarks)
      && (host.None? || store.StoreFailed? ==> flow.view == view)
  {
    TrimEmptyIffAllSpace(form.url);
  }

  /** The dialog's reset-on-success rule never sees a failure: because the
      page's handler swallows every error, a non-blank submission resets and
      closes the dialog even when nothing was saved. */
  lemma FormResetsEvenWhenCreateFails(form: Form, view: ViewState, uid: Option<string>,
                                      host: Option<string>, page: Fetched, reader: Fetched,
                                      store: StoreReply<Bookmark>)
    requires !AllSpace(form.url)
    ensures SubmitThroughPage(form, view, uid, host, page, reader, store).form == ResetForm
  {
  }

  /** One delete wired to the endpoint: the page's query goes to `DELETE`, and
      its response decides the reconciliation. */
  function DeleteThroughPage(view: ViewState, uid: Option<string>, id: string,
                             store: StoreReply<()>): (r: (ViewState, Option<DeleteOutcome>))
    ensures r.1.Some? <==> Truthy(uid)
    ensures r.1.Some? ==> (r.1.value.delete.Some? <==> id != [])
    ensures r.0.filters == view.filters
  {
    match HandleDelete(view, uid, id, Failed).sent
    case None => (view, None)
    case Some(q) =>
      var out := Delete(Some(q.id), Some(q.userId), store);
      (HandleDelete(view, uid, id, DeleteReply(out.response)).view, Some(out))
  }

  /** A delete the store accepts removes the id from the page's list; one the
      store refuses, or one with an empty id that the endpoint rejects, leaves
      the list alone. */
  lemma UiDeleteReconciles(view: ViewState, uid: string, id: string, store: StoreReply<()>)
    requires uid != []
    ensures var (after, out) := DeleteThroughPage(view, Some(uid), id, store);
      && out.Some?
      && (id != [] && store.Stored? ==> forall b :: b in after.bookmarks <==> b in view.bookmarks && b.id != id)
      && (id == [] || store.StoreFailed? ==> after == view)
  {
  }

  /** A valid create without a custom summary whose reader fetch fails
      stores the fallback sentence as its summary, the requested tags (or
      none) and owner, and the host's favicon, and still succeeds. */
  lemma UnreachableReaderFallsBack(request: CreateRequest, host: string, page: Fetched,
                                   detail: string, b: Bookmark)
    requires Truthy(request.url) && Truthy(request.userId) && !Truthy(request.customSummary)
    ensures var out := Post(Some(request), Some(host), page, FetchFailed(detail), Stored(b));
      && out.insert.Some?
      && out.insert.value.summary == SummaryFallback
      && out.insert.value.tags == request.tags.GetOr([])
      && out.insert.value.userId == request.userId.value
      && out.insert.value.favicon == Some(FaviconUrl(host))
      && out.response == Ok(OneBookmark(b))
  {
  }
}
