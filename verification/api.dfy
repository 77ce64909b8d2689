/** The three handlers of the bookmarks endpoint (app/api/bookmarks/route.ts)
    as pure functions. Everything a handler awaits is an input: the decoded
    request, the host name `new URL(url)` yields, the two enrichment fetches and
    the store's reply. Each handler returns the response together with the store
    call it made, if any. */
module BookmarksApi {
  import opened Wrappers
  import opened Records
  import opened Enrichment

  /** JSON response bodies. */
  datatype Body =
    | ErrorBody(message: string)
    | SuccessBody
    | OneBookmark(bookmark: Bookmark)
    | BookmarkList(bookmarks: seq<Bookmark>)

  datatype HttpResponse = HttpResponse(status: int, body: Body)

  /** The outcome of a store call; the failure detail is only ever logged. */
  datatype StoreReply<T> = Stored(value: T) | StoreFailed(detail: string)

  const MissingCreateFields: string := "URL and userId are required"
  const MissingUserId: string := "userId is required"
  const MissingDeleteFields: string := "id and userId are required"
  const CreateFailed: string := "Failed to create bookmark"
  const ListFailed: string := "Failed to fetch bookmarks"
  const DeleteFailed: string := "Failed to delete bookmark"

  function Ok(body: Body): HttpResponse { HttpResponse(200, body) }
  function BadRequest(message: string): HttpResponse { HttpResponse(400, ErrorBody(message)) }
  function ServerError(message: string): HttpResponse { HttpResponse(500, ErrorBody(message)) }

  datatype PostOutcome = PostOutcome(insert: Option<CreateBookmarkData>, response: HttpResponse)

  /** The summary to store: the caller's when it is truthy, otherwise the
      generated one (the reader service is only consulted in that case). */
  function ChooseSummary(customSummary: Option<string>, reader: Fetched): (summary: string)
    ensures Truthy(customSummary) ==> summary == customSummary.value
    ensures !Truthy(customSummary) ==> summary == GenerateSummary(reader)
  {
    if Truthy(customSummary) then customSummary.value else GenerateSummary(reader)
  }

  /** `POST`. `request` is `None` when the body is not valid JSON or is
      `null`, both of which throw; any other non-object body has no fields and
      is `CreateRequest(None, None, None, None)`. */
  function Post(request: Option<CreateRequest>, host: Option<string>, page: Fetched,
                reader: Fetched, store: StoreReply<Bookmark>): (out: PostOutcome)
    ensures out.response.status == 400 <==>
      request.Some? && !(Truthy(request.value.url) && Truthy(request.value.userId))
    ensures out.response.status == 400 ==> out.response.body == ErrorBody(MissingCreateFields)
    ensures out.response.status == 500 ==> out.response.body == ErrorBody(CreateFailed)
    ensures out.response.status == 200 <==> out.insert.Some? && store.Stored?
    ensures out.response.status == 200 ==> out.response.body == OneBookmark(store.value)
    ensures out.response.status in {200, 400, 500}
    ensures out.insert.Some? <==>
      request.Some? && Truthy(request.value.url) && Truthy(request.value.userId) && host.Some?
    ensures out.insert.Some? ==>
      var req, row := request.value, out.insert.value;
      && row.url == req.url.value
      && row.userId == req.userId.value
      && row.tags == req.tags.GetOr([])
      && row.summary == ChooseSummary(req.customSummary, reader)
      && row.title == ExtractMetadata(page, host).value.title
      && row.favicon == Some(FaviconUrl(host.value))
  {
    match request
    case None => PostOutcome(None, ServerError(CreateFailed))
    case Some(req) =>
      if !Truthy(req.url) || !Truthy(req.userId) then
        PostOutcome(None, BadRequest(MissingCreateFields))
      else
        match ExtractMetadata(page, host)
        case None => PostOutcome(None, ServerError(CreateFailed))
        case Some(meta) =>
          var row := CreateBookmarkData(
            req.url.value, meta.title, ChooseSummary(req.customSummary, reader),
            Some(meta.favicon), req.tags.GetOr([]), req.userId.value);
          match store
          case Stored(b) => PostOutcome(Some(row), Ok(OneBookmark(b)))
          case StoreFailed(_) => PostOutcome(Some(row), ServerError(CreateFailed))
  }

  datatype GetOutcome = GetOutcome(query: Option<string>, response: HttpResponse)

  /** `GET ?userId=`. `userId` is the query parameter, `None` when absent. */
  function Get(userId: Option<string>, store: StoreReply<seq<Bookmark>>): (out: GetOutcome)
    ensures out.response.status == 400 <==> !Truthy(userId)
    ensures out.response.status == 400 ==> out.response.body == ErrorBody(MissingUserId)
    ensures out.query.Some? <==> Truthy(userId)
    ensures out.query.Some? ==> out.query.value == userId.value
    ensures out.response.status == 200 <==> Truthy(userId) && store.Stored?
    ensures out.response.status == 200 ==> out.response.body == BookmarkList(store.value)
    ensures out.response.status == 500 <==> Truthy(userId) && store.StoreFailed?
    ensures out.response.status == 500 ==> out.response.body == ErrorBody(ListFailed)
  {
    if !Truthy(userId) then GetOutcome(None, BadRequest(MissingUserId))
    else
      match store
      case Stored(rows) => GetOutcome(Some(userId.value), Ok(BookmarkList(rows)))
      case StoreFailed(_) => GetOutcome(Some(userId.value), ServerError(ListFailed))
  }

  /** The store's delete is scoped to both the row id and its owner. */
  datatype DeleteKey = DeleteKey(id: string, userId: string)

  datatype DeleteOutcome = DeleteOutcome(delete: Option<DeleteKey>, response: HttpResponse)

  /** `DELETE ?id=&userId=`. A store call that does not fail reports success,
      whether or not a row matched. */
  function Delete(id: Option<string>, userId: Option<string>, store: StoreReply<()>): (out: DeleteOutcome)
    ensures out.response.status == 400 <==> !Truthy(id) || !Truthy(userId)
    ensures out.response.status == 400 ==> out.response.body == ErrorBody(MissingDeleteFields)
    ensures out.delete.Some? <==> Truthy(id) && Truthy(userId)
    ensures out.delete.Some? ==> out.delete.value == DeleteKey(id.value, userId.value)
    ensures out.response.status == 200 <==> out.delete.Some? && store.Stored?
    ensures out.response.status == 200 ==> out.response.body == SuccessBody
    ensures out.response.status == 500 <==> out.delete.Some? && store.StoreFailed?
    ensures out.response.status == 500 ==> out.response.body == ErrorBody(DeleteFailed)
  {
    if !Truthy(id) || !Truthy(userId) then DeleteOutcome(None, BadRequest(MissingDeleteFields))
    else
      var key := DeleteKey(id.value, userId.value);
      match store
      case Stored(_) => DeleteOutcome(Some(key), Ok(SuccessBody))
      case StoreFailed(_) => DeleteOutcome(Some(key), ServerError(DeleteFailed))
  }

  /** No handler's response carries the detail of a store failure: two
      failures that differ only in their detail give the same outcome. */
  lemma StoreFailureDetailHidden(d1: string, d2: string, request: Option<CreateRequest>,
                                 host: Option<string>, page: Fetched, reader: Fetched,
                                 userId: Option<string>, id: Option<string>)
    ensures Post(request, host, page, reader, StoreFailed(d1)) == Post(request, host, page, reader, StoreFailed(d2))
    ensures Get(userId, StoreFailed(d1)) == Get(userId, StoreFailed(d2))
    ensures Delete(id, userId, StoreFailed(d1)) == Delete(id, userId, StoreFailed(d2))
  {
  }

  /** Neither does the detail of a failed enrichment fetch reach the caller. */
  lemma FetchFailureDetailHidden(d1: string, d2: string, request: Option<CreateRequest>,
                                 host: Option<string>, other: Fetched, store: StoreReply<Bookmark>)
    ensures Post(request, host, FetchFailed(d1), other, store) == Post(request, host, FetchFailed(d2), other, store)
    ensures Post(request, host, other, FetchFailed(d1), store) == Post(request, host, other, FetchFailed(d2), store)
  {
  }

  /** Enrichment is best effort: for a valid request whose URL has a host
      name, a store that accepts the row makes the create succeed whatever the
      page and reader fetches did. */
  lemma EnrichmentNeverFailsCreate(request: CreateRequest, host: string, page: Fetched,
                                   reader: Fetched, b: Bookmark)
    requires Truthy(request.url) && Truthy(request.userId)
    ensures Post(Some(request), Some(host), page, reader, Stored(b)).response == Ok(OneBookmark(b))
  {
  }

  /** An unparseable URL fails the create with the generic 500 before
      anything is stored, even though the page fetch is otherwise best effort. */
  lemma UnparseableUrlFailsCreate(request: CreateRequest, page: Fetched, reader: Fetched,
                                  store: StoreReply<Bookmark>)
    requires Truthy(request.url) && Truthy(request.userId)
    ensures Post(Some(request), None, page, reader, store) == PostOutcome(None, ServerError(CreateFailed))
  {
  }
}
