# Link-Saver bookmark rules in Dafny

Link-Saver is a bookmarking web application. A signed-in user saves a URL
through the add dialog. The server fetches the page's title, builds a favicon
address and asks an external reader service for a summary. The home page then
lists, searches, tag-filters and deletes the saved links.

This project models the pure rules inside that application as Dafny functions
and proves properties about them:

- the home page's derived state (`app/page.tsx`): the search-and-tag filter,
  the sorted tag vocabulary, the tag toggle, clearing the filters, and how the
  in-memory list is reconciled after a create or a delete;
- the add dialog (`components/add-bookmark-modal.tsx`): tag parsing, trimming,
  the submit guard, reset-on-success and the disabled rule of the submit button;
- the bookmarks endpoint (`app/api/bookmarks/route.ts`): request validation,
  the 400 and 500 envelopes, summary truncation and its fallback, title
  extraction and the favicon address.

Every network call, store call and URL parse is an input to the function that
awaits it. The page fetch and the reader fetch are a `Fetched` value. The
store's reply is a `StoreReply`. The host name that `new URL(url)` yields is an
`Option<string>`, and `None` means the constructor throws. The URL validity
check of the dialog is a `bool`. Each handler is therefore a pure function of
its inputs. It returns the store call it made, if any, beside its response.

Modules, leaf first:

| file | module | models |
|---|---|---|
| `wrappers.dfy` | `Wrappers` | `Option` |
| `text.dfy` | `Text` | `trim`, ASCII `toLowerCase`, `includes`, `split(',')`, default sort order |
| `records.dfy` | `Records` | the bookmark row and insert payload (`lib/supabase.ts`), the dialog payload, the create request body |
| `sequences.dfy` | `Sequences` | order-preserving sub-lists, duplicate-freedom |
| `title_match.dfy` | `TitleMatch` | `html.match(/<title[^>]*>([^<]+)<\/title>/i)` |
| `enrichment.dfy` | `Enrichment` | `generateSummary`, `extractMetadata` |
| `api.dfy` | `BookmarksApi` | `POST`, `GET`, `DELETE` |
| `tag_vocabulary.dfy` | `TagVocabulary` | `availableTags` |
| `bookmark_view.dfy` | `BookmarkView` | `filteredBookmarks`, `handleTagToggle`, `handleClearFilters`, `handleAddBookmark`, `handleDeleteBookmark` |
| `add_form.dfy` | `AddForm` | the dialog's `handleSubmit` and submit button |
| `flow.dfy` | `Flow` | dialog → page → endpoint, composed |

The title pattern is modelled exactly. Both of its character classes are
negated single characters, so a match at a given start has only one possible
frame. The opening tag ends at the first `>` after `<title`. The capture runs
to the first `<` after that. `TitleMatch.MatchAt` computes this frame, and
`TitleMatch.CapturesAt` states the pattern declaratively. The two are proved
to agree, and `FirstTitleIsLeftmost` shows that `FirstTitle` is the leftmost
match. In non-Unicode mode the `i` flag folds only ASCII letters onto `t`, `i`,
`l`, `e`, so ASCII case-insensitivity is exact.

The model follows the code as written, including these behaviours:

- A `<title>` holding only whitespace gives an empty title, not the host name.
  The capture needs one character, and trimming then removes it
  (`Enrichment.BlankTitleGivesEmptyTitle`). A non-empty title is therefore not
  guaranteed.
- Titles that span several lines are captured whole, because `[^<]` matches
  line breaks (`Enrichment.AnyCaseMultiLineTitle`).
- The page is parsed whatever its HTTP status, so a non-OK status does not
  trigger the fallback. Only a thrown fetch, an unreadable body or a page
  without a title match gives the host name.
- A URL that `new URL` rejects is not degraded to a fallback. The metadata
  helper's catch block calls `new URL` again, and that throw turns the whole
  create into the generic 500 (`BookmarksApi.UnparseableUrlFailsCreate`).
- The dialog resets and closes only when its callback does not throw. The
  page's callback catches every error, though. So a non-blank submission resets
  the dialog even when nothing was saved (`Flow.FormResetsEvenWhenCreateFails`).
- Adding a tag to the selection keeps every bookmark that already passed the
  tag test only when the selection was non-empty. From an empty selection, the
  first tag narrows the list to that tag's bookmarks
  (`BookmarkView.FirstTagNarrows`).

## Model

| member | source | states |
|---|---|---|
| Text.Trim | components/add-bookmark-modal.tsx:44 | the trimmed string has no whitespace at either end and is no longer than the input |
| Text.TrimDecomposes | components/add-bookmark-modal.tsx:44 | every string is its trimmed value with all-whitespace padding on each side |
| Text.TrimOfPadded | components/add-bookmark-modal.tsx:44 | conversely, trimming a whitespace-padded trimmed string gives that string back, so the decomposition is unique |
| Text.TrimEmptyIffAllSpace | components/add-bookmark-modal.tsx:37 | a string trims to empty exactly when every character is whitespace |
| Text.TrimIdempotent | app/api/bookmarks/route.ts:34 | trimming twice equals trimming once |
| Text.Includes | app/page.tsx:70-72 | the empty needle is found in every string, a string contains itself, and a found needle is no longer than the text |
| Text.Lower | app/page.tsx:70-72 | lower-casing keeps the length and maps each character on its own, `A`..`Z` to `a`..`z`; its partners are Text.LowerIdempotent and BookmarkView.SearchIgnoresCase |
| Text.LowerIdempotent | app/page.tsx:70-72 | lower-casing lower-case text changes nothing |
| Text.IndexOfFirst | app/api/bookmarks/route.ts:33 | the character search behind `[^>]*>` and `[^<]+<` returns exactly the first occurrence |
| Text.Split | components/add-bookmark-modal.tsx:43 | splitting always yields at least one piece and no piece contains the separator |
| Text.JoinSplit | components/add-bookmark-modal.tsx:43 | joining the pieces of a split with the separator rebuilds the input |
| Text.SplitAppend | components/add-bookmark-modal.tsx:43 | the pieces of `a` + separator + `b` are the pieces of `a` followed by those of `b` |
| Text.SplitJoin | components/add-bookmark-modal.tsx:43 | splitting a join of separator-free pieces gives the pieces back |
| Text.LessIrreflexive | app/page.tsx:63 | no string sorts before itself |
| Text.LessTransitive | app/page.tsx:63 | the default string order is transitive |
| Text.LessTotal | app/page.tsx:63 | any two different strings are ordered one way or the other |
| TitleMatch.MatchAt | app/api/bookmarks/route.ts:33 | the computed match at a start position is a match of the pattern, and when it finds none no capture exists there |
| TitleMatch.WitnessIsFirst | app/api/bookmarks/route.ts:33 | any match ends its opening tag at the first `>` after `<title` and its capture at the first `<` after that |
| TitleMatch.CaptureDeterministic | app/api/bookmarks/route.ts:33 | at a given start the pattern captures at most one string |
| TitleMatch.FirstTitle | app/api/bookmarks/route.ts:33 | a found title is non-empty, has no `<`, and is the capture of a match with no match before it; no title means no position matches |
| TitleMatch.FirstMatchFrom | app/api/bookmarks/route.ts:33 | the result is the capture at the leftmost matching position, or nothing when no position matches |
| TitleMatch.FirstTitleIsLeftmost | app/api/bookmarks/route.ts:33 | a match with no earlier match is exactly what `match` returns |
| Enrichment.Truncate | app/api/bookmarks/route.ts:19 | text of at most 500 characters is kept as is, longer text becomes its first 500 characters plus `...`, and the result never exceeds 503 |
| Enrichment.TruncateIdempotent | app/api/bookmarks/route.ts:19 | truncating a truncated summary changes nothing |
| Enrichment.GenerateSummary | app/api/bookmarks/route.ts:5-24 | a failed fetch or a non-OK status gives the fixed fallback sentence, an OK reply its truncated text, always within 503 characters |
| Enrichment.FaviconUrl | app/api/bookmarks/route.ts:37-38 | the favicon address is the proxy prefix followed by the host name verbatim |
| Enrichment.ExtractMetadata | app/api/bookmarks/route.ts:27-49 | without a host name the helper throws; otherwise the title is the trimmed first capture or the host name, and the favicon is the host's proxy address |
| Enrichment.FaviconIndependentOfPage | app/api/bookmarks/route.ts:43-46 | success path and fallback path give the same favicon |
| Enrichment.PageTitleShape | app/api/bookmarks/route.ts:29-34 | whatever the page's status, a title taken from the page is trimmed and contains no `<` |
| Enrichment.BlankTitleGivesEmptyTitle | app/api/bookmarks/route.ts:33-34 | whatever the page's status, a first capture that is all whitespace yields the empty title, not the host name |
| Enrichment.TitleElementCaptured | app/api/bookmarks/route.ts:33 | a page starting with `<title` in any ASCII case, any attributes without `>`, `>`, a non-empty text without `<` (line breaks allowed) and `</title>` in any ASCII case has that text as its first title |
| Enrichment.AnyCaseMultiLineTitle | app/api/bookmarks/route.ts:33-34 | the title stored for such a page, whatever its status, is that text trimmed |
| BookmarksApi.ChooseSummary | app/api/bookmarks/route.ts:67 | a truthy custom summary is stored as given, otherwise the generated one |
| BookmarksApi.Post | app/api/bookmarks/route.ts:51-87 | 400 with the fixed message exactly when url or userId is falsy; an insert is attempted exactly for a valid request with a parseable URL, carrying url, tags (default `[]`), userId, chosen summary, title and favicon; 200 with the stored record exactly when the store accepts; every other failure is the fixed 500 |
| BookmarksApi.Get | app/api/bookmarks/route.ts:89-112 | 400 exactly when userId is falsy; otherwise the store is queried for that id, 200 returns its rows and a store failure the fixed 500 |
| BookmarksApi.Delete | app/api/bookmarks/route.ts:114-138 | 400 exactly when id or userId is falsy; otherwise the owner-scoped delete is issued and any non-failing store call answers `{success:true}` |
| BookmarksApi.StoreFailureDetailHidden | app/api/bookmarks/route.ts:80-86 | no handler's outcome depends on the detail of a store failure |
| BookmarksApi.FetchFailureDetailHidden | app/api/bookmarks/route.ts:41-47 | a create's outcome does not depend on the detail of a failed enrichment fetch |
| BookmarksApi.EnrichmentNeverFailsCreate | app/api/bookmarks/route.ts:63-79 | with a host name and an accepting store, a valid create succeeds whatever the enrichment fetches did |
| BookmarksApi.UnparseableUrlFailsCreate | app/api/bookmarks/route.ts:41-47 | an unparseable URL gives the generic 500 and no insert |
| TagVocabulary.Insert | app/page.tsx:61 | adding a tag keeps the vocabulary strictly sorted and adds exactly that tag |
| TagVocabulary.InsertAll | app/page.tsx:61 | adding a bookmark's tags keeps the vocabulary strictly sorted and adds exactly those tags |
| TagVocabulary.Collect | app/page.tsx:60-62 | folding over the bookmarks adds exactly the carried tags, strictly sorted |
| TagVocabulary.AvailableTags | app/page.tsx:58-64 | the vocabulary is strictly sorted (hence duplicate-free) and holds a tag exactly when some bookmark carries it |
| TagVocabulary.SortedEnumerationUnique | app/page.tsx:63 | two strictly sorted lists with the same members are equal, so the vocabulary is the unique sorted enumeration of the tag set |
| TagVocabulary.AvailableTagsOrderFree | app/page.tsx:58-64 | the vocabulary depends only on which tags occur, not on list or tag order |
| BookmarkView.MatchesSearch | app/page.tsx:69-72 | an empty query matches every bookmark, and a query found in the lower-cased URL matches |
| BookmarkView.SearchIgnoresCase | app/page.tsx:69-72 | the search ignores ASCII case: two queries with the same lower-case form match the same bookmarks |
| BookmarkView.MatchesTags | app/page.tsx:74-75 | no selection matches every bookmark; carrying any selected tag matches; a bookmark without tags fails a non-empty selection |
| BookmarkView.Visible | app/page.tsx:77 | with no query and no selection everything is visible; an untagged bookmark is hidden by any tag selection |
| BookmarkView.HasActiveFilters | components/bookmark-filters.tsx:26 | when no filter is active every bookmark is visible |
| BookmarkView.FilterBookmarks | app/page.tsx:67-79 | the visible list is an order-preserving sub-list holding exactly the bookmarks that match the search and the tag selection |
| BookmarkView.InactiveFiltersShowAll | app/page.tsx:67-79 | with an empty query and no selected tag the list is shown unchanged and in order |
| BookmarkView.FilterAppend | app/page.tsx:68 | filtering distributes over concatenation, so visibility is per bookmark and order is kept |
| BookmarkView.FilterIdempotent | app/page.tsx:68 | filtering the visible list again changes nothing |
| BookmarkView.RemoveTag | app/page.tsx:136 | deselection removes every occurrence of the tag and keeps all other occurrences in order |
| BookmarkView.Toggle | app/page.tsx:133-139 | an unselected tag is appended at the end; a selected one is removed everywhere; membership of other tags is unchanged |
| BookmarkView.ToggleTwiceRestores | app/page.tsx:133-139 | toggling an unselected tag twice restores the selection |
| BookmarkView.ToggleKeepsNoDuplicates | app/page.tsx:133-139 | toggling keeps a duplicate-free selection duplicate-free |
| BookmarkView.SelectingMoreKeepsTagMatches | app/page.tsx:74-75 | with a non-empty selection, selecting another tag keeps every bookmark that passed the tag test |
| BookmarkView.SelectingMoreKeepsVisible | app/page.tsx:74-75 | the same for the rendered list |
| BookmarkView.FirstTagNarrows | app/page.tsx:74-75 | from an empty selection, one tag shows exactly the search matches carrying it |
| BookmarkView.ClearFilters | app/page.tsx:141-144 | clearing empties query and selection, keeps the bookmarks, and the visible list becomes the whole list |
| BookmarkView.AddRequest | app/page.tsx:96-99 | the posted body is the dialog payload plus the user id, and nothing is posted without a user id |
| BookmarkView.HandleAdd | app/page.tsx:81-113 | on success the returned record is prepended; on failure or without a user the state is unchanged |
| BookmarkView.RemoveById | app/page.tsx:127 | the result is an order-preserving sub-list holding exactly the records with another id |
| BookmarkView.RemoveByIdAppend | app/page.tsx:127 | removal by id distributes over concatenation, so each record with another id stays in place |
| BookmarkView.RemoveByIdKeepsCounts | app/page.tsx:127 | a record with another id is kept as many times as it occurred |
| BookmarkView.HandleDelete | app/page.tsx:115-131 | without a user nothing is sent; on success the list becomes its removal by id, so the records with that id leave and the others stay in order and multiplicity; on failure nothing changes |
| BookmarkView.RemoveByIdAbsent | app/page.tsx:127 | removing an id no record has leaves the list identical |
| BookmarkView.AddThenDeleteRestores | app/page.tsx:107 | adding a record with a fresh id and deleting it restores the list |
| AddForm.TrimPieces | components/add-bookmark-modal.tsx:44-45 | every kept piece is non-empty and has no surrounding whitespace |
| AddForm.ParseTags | components/add-bookmark-modal.tsx:42-45 | every parsed tag is non-empty, trimmed and comma-free |
| AddForm.ParseTagsAppend | components/add-bookmark-modal.tsx:42-45 | the tags of `a,b` are the tags of `a` followed by those of `b`, so segment order is kept |
| AddForm.ParseTagsBlank | components/add-bookmark-modal.tsx:42-45 | a blank field parses to no tags |
| AddForm.ParseTagsSingle | components/add-bookmark-modal.tsx:42-45 | a comma-free non-blank field parses to its trimmed value alone |
| AddForm.ParseTagsOfJoin | components/add-bookmark-modal.tsx:42-45 | trimmed tags written comma-separated parse back to themselves, in order and with duplicates |
| AddForm.Payload | components/add-bookmark-modal.tsx:47-51 | the URL is trimmed, the tags parsed, and the custom summary is absent exactly when blank and otherwise trimmed |
| AddForm.Submit | components/add-bookmark-modal.tsx:34-63 | a blank URL makes no call and changes nothing; otherwise the payload is passed on, the form resets and closes only if the callback completes, and the save indicator is cleared |
| AddForm.SubmittedUrlIsTrimmedAndNonEmpty | components/add-bookmark-modal.tsx:37 | a submitted URL is never blank or padded |
| AddForm.FieldsKeptUnlessCompleted | components/add-bookmark-modal.tsx:53-59 | the fields survive a submission unless the callback completed |
| AddForm.SubmitDisabled | components/add-bookmark-modal.tsx:149 | a submit button that is enabled always leads to a callback with the payload, whatever the outcome |
| AddForm.ShowsUrlHint | components/add-bookmark-modal.tsx:105 | the invalid-URL hint implies a disabled submit button and never shows for a valid URL |
| Flow.CreateReply | app/page.tsx:102-106 | a 2xx response with a record is success and yields that record; a non-2xx response is failure (the endpoint never answers 2xx without a record) |
| Flow.DeleteReply | app/page.tsx:123-127 | the page treats exactly the 2xx responses as a successful delete |
| Flow.SubmitThroughPage | app/page.tsx:186 | the dialog's callback is the page's add handler: a request reaches the endpoint exactly for a non-blank URL and a signed-in user; a blank URL changes nothing |
| Flow.UiCreateNeverBadRequest | app/api/bookmarks/route.ts:56-61 | a non-blank submission by a signed-in user always passes the endpoint's validation |
| Flow.UiCreateStoresNormalisedFields | app/api/bookmarks/route.ts:70-77 | the stored row has the trimmed URL, the parsed tags, the user id, and the trimmed custom summary or the generated one |
| Flow.UiCreateReconciles | app/page.tsx:102-107 | an accepted create puts the stored record first in the page's list; any failure leaves the page unchanged |
| Flow.FormResetsEvenWhenCreateFails | components/add-bookmark-modal.tsx:47-57 | composed with the page's handler, a non-blank submission always resets and closes the dialog |
| Flow.DeleteThroughPage | app/page.tsx:115-127 | the page's delete reaches the endpoint exactly for a signed-in user, and the store is asked exactly when the id is non-empty |
| Flow.UiDeleteReconciles | app/page.tsx:115-131 | an accepted delete removes the id from the list; a refused one, or an empty id, leaves it unchanged |
| Flow.UnreachableReaderFallsBack | app/api/bookmarks/route.ts:67-77 | for any valid create without a custom summary whose reader fetch fails, the stored row has the fallback summary, the requested tags (or none), the owner and the host's favicon, and the create succeeds |

## Left out

- Text.Lower: only ASCII letters are lower-cased; JavaScript's `toLowerCase` follows full Unicode case mapping, which the model does not include.
- Enrichment.Truncate: lengths count characters, while `slice` and `length` count UTF-16 code units; the two differ only for characters outside the Basic Multilingual Plane.
- Text.Less: strings are compared by code point, while `sort` compares UTF-16 code units; the orders differ only for characters outside the Basic Multilingual Plane.
- The WHATWG URL parser (`new URL(url).hostname` and the dialog's `isValidUrl`) is not modelled; its verdict is an input.
- `fetch`, `encodeURIComponent`, reading a response body and JSON parsing are not modelled; their outcomes are inputs.
- The store accessors in `lib/bookmarks.ts` (list, create, update, delete, search, by-tags) are not modelled; each store call is an input reply, so owner scoping and ordering are the store's business.
- JSON request fields of non-string types, and a `null` tags field (which is not replaced by the `[]` default), are not modelled; request fields are optional strings and an optional tag list. A JSON body that is a number, string, boolean or array has no fields and is the request with every field absent.
- The path-parameter delete stub in `app/api/bookmarks/[id]/route.ts` is not part of this model; it deletes nothing and is not called by the page.
- The page's initial list fetch, authentication redirects, loading spinners and its unused `isLoading` flag are framework lifecycle, not rules.
- The dialog's in-flight state between setting and clearing its save indicator is not modelled; only the state before and after a submission is.
- Concurrency, such as overlapping submissions or racing list fetches, is not modelled.
- The delete query string is built without encoding, so an id containing `&`, `#`, `+` or a `%` escape would be misread; the model passes ids through unchanged.
- Console logging has no observable effect and is left out.
