/** The home page's view logic (app/page.tsx): the visible list derived from
    the bookmarks and the filter state, the tag toggle, clearing the filters,
    and how the in-memory list is reconciled after a create or a delete. */
module BookmarkView {
  import opened Wrappers
  import opened Text
  import opened Records
  import opened Sequences

  /** The search box and the selected tags. */
  datatype Filters = Filters(query: string, selected: seq<string>)

  /** The page state the logic reads and writes. */
  datatype ViewState = ViewState(bookmarks: seq<Bookmark>, filters: Filters)

  /** Case-insensitive search over title, summary and URL; an empty query
      matches everything. */
  predicate MatchesSearch(b: Bookmark, query: string)
    ensures query == [] ==> MatchesSearch(b, query)
    ensures Includes(Lower(b.url), Lower(query)) ==> MatchesSearch(b, query)
  {
    var q := Lower(query);
    || query == []
    || Includes(Lower(b.title), q)
    || Includes(Lower(b.summary), q)
    || Includes(Lower(b.url), q)
  }

  /** The search ignores ASCII case: queries that lower-case alike match
      the same bookmarks, and so does a query and its lower-case form. */
  lemma SearchIgnoresCase(b: Bookmark, q1: string, q2: string)
    requires Lower(q1) == Lower(q2)
    ensures MatchesSearch(b, q1) <==> MatchesSearch(b, q2)
  {
  }

  /** No tag selected, or the bookmark carries at least one selected tag. */
  predicate MatchesTags(b: Bookmark, selected: seq<string>)
    ensures |selected| == 0 ==> MatchesTags(b, selected)
    ensures forall k :: 0 <= k < |selected| && selected[k] in b.tags ==> MatchesTags(b, selected)
    ensures |b.tags| == 0 && |selected| > 0 ==> !MatchesTags(b, selected)
  {
    |selected| == 0 || exists t :: t in selected && t in b.tags
  }

  predicate Visible(b: Bookmark, f: Filters)
    ensures f.query == [] && |f.selected| == 0 ==> Visible(b, f)
    ensures |b.tags| == 0 && |f.selected| > 0 ==> !Visible(b, f)
  {
    MatchesSearch(b, f.query) && MatchesTags(b, f.selected)
  }

  /** `filteredBookmarks`: the visible bookmarks, in list order. */
  function FilterBookmarks(bookmarks: seq<Bookmark>, f: Filters): (r: seq<Bookmark>)
    ensures IsSubsequence(r, bookmarks)
    ensures forall b :: b in r <==> b in bookmarks && Visible(b, f)
    decreases |bookmarks|
  {
    if |bookmarks| == 0 then []
    else
      var rest := FilterBookmarks(bookmarks[1..], f);
      assert forall b :: b in bookmarks <==> b == bookmarks[0] || b in bookmarks[1..];
      if Visible(bookmarks[0], f) then [bookmarks[0]] + rest else rest
  }

  /** The list the page renders. */
  function VisibleBookmarks(view: ViewState): seq<Bookmark> {
    FilterBookmarks(view.bookmarks, view.filters)
  }

  /** `hasActiveFilters` of the filter bar (components/bookmark-filters.tsx). */
  predicate HasActiveFilters(f: Filters)
    ensures !HasActiveFilters(f) ==> forall b :: Visible(b, f)
  {
    |f.selected| > 0 || |f.query| > 0
  }

  /** Without an active filter the page shows the whole list, in order. */
  lemma {:induction false} InactiveFiltersShowAll(bookmarks: seq<Bookmark>, f: Filters)
    requires !HasActiveFilters(f)
    ensures FilterBookmarks(bookmarks, f) == bookmarks
    decreases |bookmarks|
  {
    if |bookmarks| > 0 {
      InactiveFiltersShowAll(bookmarks[1..], f);
      assert bookmarks == [bookmarks[0]] + bookmarks[1..];
    }
  }

  /** Filtering distributes over concatenation: whether a bookmark is shown
      depends on that bookmark alone, and the shown ones keep their order. */
  lemma {:induction false} FilterAppend(xs: seq<Bookmark>, ys: seq<Bookmark>, f: Filters)
    ensures FilterBookmarks(xs + ys, f) == FilterBookmarks(xs, f) + FilterBookmarks(ys, f)
    decreases |xs|
  {
    if |xs| == 0 {
      assert xs + ys == ys;
    } else {
      assert (xs + ys)[1..] == xs[1..] + ys;
      FilterAppend(xs[1..], ys, f);
    }
  }

  /** A visible bookmark appears once per occurrence: filtering twice is
      filtering once. */
  lemma {:induction false} FilterIdempotent(bookmarks: seq<Bookmark>, f: Filters)
    ensures FilterBookmarks(FilterBookmarks(bookmarks, f), f) == FilterBookmarks(bookmarks, f)
    decreases |bookmarks|
  {
    if |bookmarks| > 0 {
      FilterIdempotent(bookmarks[1..], f);
      var rest := FilterBookmarks(bookmarks[1..], f);
      if Visible(bookmarks[0], f) {
        assert ([bookmarks[0]] + rest)[1..] == rest;
      }
    }
  }

  /** `handleTagToggle`'s removal: every occurrence of the tag is dropped, the
      rest kept in order. */
  function RemoveTag(selected: seq<string>, t: string): (r: seq<string>)
    ensures t !in r
    ensures IsSubsequence(r, selected)
    ensures forall u :: u != t ==> (u in r <==> u in selected)
    ensures multiset(r) == multiset(selected)[t := 0]
    decreases |selected|
  {
    if |selected| == 0 then []
    else
      var rest := RemoveTag(selected[1..], t);
      assert selected == [selected[0]] + selected[1..];
      if selected[0] == t then rest else [selected[0]] + rest
  }

  /** `handleTagToggle`: a selected tag is deselected (every occurrence), an
      unselected one is appended at the end. */
  function Toggle(selected: seq<string>, t: string): (r: seq<string>)
    ensures t in r <==> t !in selected
    ensures forall u :: u != t ==> (u in r <==> u in selected)
    ensures t !in selected ==> |r| == |selected| + 1 && r[..|selected|] == selected && r[|selected|] == t
    ensures t in selected ==> IsSubsequence(r, selected) && multiset(r) == multiset(selected)[t := 0]
  {
    if t in selected then RemoveTag(selected, t) else selected + [t]
  }

  /** Toggling an unselected tag twice restores the selection. */
  lemma {:induction false} ToggleTwiceRestores(selected: seq<string>, t: string)
    requires t !in selected
    ensures Toggle(Toggle(selected, t), t) == selected
  {
    RemoveAbsentThenLast(selected, t);
  }

  lemma {:induction false} RemoveAbsentThenLast(selected: seq<string>, t: string)
    requires t !in selected
    ensures RemoveTag(selected + [t], t) == selected
    decreases |selected|
  {
    if |selected| == 0 {
      assert [] + [t] == [t];
    } else {
      assert (selected + [t])[1..] == selected[1..] + [t];
      RemoveAbsentThenLast(selected[1..], t);
      assert selected == [selected[0]] + selected[1..];
    }
  }

  /** A duplicate-free selection stays duplicate-free under toggling. */
  lemma ToggleKeepsNoDuplicates(selected: seq<string>, t: string)
    requires NoDuplicates(selected)
    ensures NoDuplicates(Toggle(selected, t))
  {
    if t in selected {
      RemoveKeepsNoDuplicates(selected, t);
    }
  }

  lemma {:induction false} RemoveKeepsNoDuplicates(selected: seq<string>, t: string)
    requires NoDuplicates(selected)
    ensures NoDuplicates(RemoveTag(selected, t))
    decreases |selected|
  {
    if |selected| > 0 {
      RemoveKeepsNoDuplicates(selected[1..], t);
      var rest := RemoveTag(selected[1..], t);
      if selected[0] != t {
        assert selected[0] !in selected[1..];
        assert selected[0] !in rest;
        var r := [selected[0]] + rest;
        forall i, j | 0 <= i < j < |r|
          ensures r[i] != r[j]
        {
          if i == 0 {
            assert r[j] in rest;
          }
        }
      }
    }
  }

  /** With some tag already selected, selecting one more never hides a
      bookmark that passed the tag test. (From an empty selection it does:
      there, selecting a tag narrows the list to that tag's bookmarks.) */
  lemma SelectingMoreKeepsTagMatches(b: Bookmark, selected: seq<string>, t: string)
    requires |selected| > 0 && t !in selected && MatchesTags(b, selected)
    ensures MatchesTags(b, Toggle(selected, t))
  {
    var u :| u in selected && u in b.tags;
    assert u in selected + [t];
  }

  /** The same fact for the rendered list. */
  lemma SelectingMoreKeepsVisible(bookmarks: seq<Bookmark>, f: Filters, t: string, b: Bookmark)
    requires |f.selected| > 0 && t !in f.selected
    requires b in FilterBookmarks(bookmarks, f)
    ensures b in FilterBookmarks(bookmarks, f.(selected := Toggle(f.selected, t)))
  {
    SelectingMoreKeepsTagMatches(b, f.selected, t);
  }

  /** From an empty selection, selecting one tag shows exactly the bookmarks
      that carry it and match the search. */
  lemma FirstTagNarrows(bookmarks: seq<Bookmark>, query: string, t: string, b: Bookmark)
    ensures b in FilterBookmarks(bookmarks, Filters(query, Toggle([], t))) <==>
      b in bookmarks && MatchesSearch(b, query) && t in b.tags
  {
    assert Toggle([], t) == [t];
  }

  /** `handleClearFilters`: the selection and the query are emptied, so the
      whole list is shown again; the bookmarks are untouched. */
  function ClearFilters(view: ViewState): (r: ViewState)
    ensures r.bookmarks == view.bookmarks
    ensures !HasActiveFilters(r.filters)
    ensures VisibleBookmarks(r) == view.bookmarks
  {
    var r := view.(filters := Filters([], []));
    InactiveFiltersShowAll(r.bookmarks, r.filters);
    r
  }

  /** The result of a page request: `Failed` covers a rejected fetch, a non-OK
      status and an unreadable body alike. */
  datatype Reply<T> = Failed | Succeeded(value: T)

  datatype AddResult = AddResult(sent: Option<CreateRequest>, view: ViewState)

  /** The body `handleAddBookmark` posts: the dialog's payload plus the user
      id; an absent custom summary is left out of the JSON. Nothing is posted
      without a signed-in user id. */
  function AddRequest(uid: Option<string>, payload: NewBookmark): (r: Option<CreateRequest>)
    ensures r.None? <==> !Truthy(uid)
    ensures r.Some? ==>
      && r.value.url == Some(payload.url)
      && r.value.tags == Some(payload.tags)
      && r.value.customSummary == payload.customSummary
      && r.value.userId == uid
  {
    if Truthy(uid) then Some(CreateRequest(Some(payload.url), Some(payload.tags), payload.customSummary, uid))
    else None
  }

  /** `handleAddBookmark`: without a signed-in user id nothing is sent; on
      success the returned record goes to the front of the list; on failure the
      list is unchanged. The handler catches every error, so it always returns
      normally to its caller. */
  function HandleAdd(view: ViewState, uid: Option<string>, payload: NewBookmark,
                     reply: Reply<Bookmark>): (r: AddResult)
    ensures r.sent == AddRequest(uid, payload)
    ensures r.view.filters == view.filters
    ensures r.sent.Some? && reply.Succeeded? ==> r.view.bookmarks == [reply.value] + view.bookmarks
    ensures r.sent.None? || reply.Failed? ==> r.view == view
  {
    var sent := AddRequest(uid, payload);
    if sent.None? then AddResult(None, view)
    else
      match reply
      case Succeeded(b) => AddResult(sent, view.(bookmarks := [b] + view.bookmarks))
      case Failed => AddResult(sent, view)
  }

  /** The bookmarks whose id differs from `id`, in order. */
  function RemoveById(bookmarks: seq<Bookmark>, id: string): (r: seq<Bookmark>)
    ensures IsSubsequence(r, bookmarks)
    ensures forall b :: b in r <==> b in bookmarks && b.id != id
    decreases |bookmarks|
  {
    if |bookmarks| == 0 then []
    else
      var rest := RemoveById(bookmarks[1..], id);
      assert forall b :: b in bookmarks <==> b == bookmarks[0] || b in bookmarks[1..];
      if bookmarks[0].id == id then rest else [bookmarks[0]] + rest
  }

  /** The query string the page sends to the delete endpoint. */
  datatype DeleteQuery = DeleteQuery(id: string, userId: string)

  datatype DeleteResult = DeleteResult(sent: Option<DeleteQuery>, view: ViewState)

  /** `handleDeleteBookmark`: on success every record with that id leaves the
      list and the others keep their order; on failure nothing changes. */
  function HandleDelete(view: ViewState, uid: Option<string>, id: string,
                        reply: Reply<()>): (r: DeleteResult)
    ensures r.sent.None? <==> !Truthy(uid)
    ensures r.sent.Some? ==> r.sent.value == DeleteQuery(id, uid.value)
    ensures r.view.filters == view.filters
    ensures r.sent.Some? && reply.Succeeded? ==>
      && IsSubsequence(r.view.bookmarks, view.bookmarks)
      && (forall b :: b in r.view.bookmarks <==> b in view.bookmarks && b.id != id)
      && r.view.bookmarks == RemoveById(view.bookmarks, id)
    ensures r.sent.None? || reply.Failed? ==> r.view == view
  {
    if !Truthy(uid) then DeleteResult(None, view)
    else
      var sent := DeleteQuery(id, uid.value);
      match reply
      case Succeeded(_) => DeleteResult(Some(sent), view.(bookmarks := RemoveById(view.bookmarks, id)))
      case Failed => DeleteResult(Some(sent), view)
  }

  /** Removal by id is filtering: it distributes over concatenation, so
      every record with another id is kept where and as often as it occurred. */
  lemma {:induction false} RemoveByIdAppend(xs: seq<Bookmark>, ys: seq<Bookmark>, id: string)
    ensures RemoveById(xs + ys, id) == RemoveById(xs, id) + RemoveById(ys, id)
    decreases |xs|
  {
    if |xs| == 0 {
      assert xs + ys == ys;
    } else {
      assert (xs + ys)[1..] == xs[1..] + ys;
      RemoveByIdAppend(xs[1..], ys, id);
    }
  }

  /** A record with another id is kept as many times as it occurred. */
  lemma {:induction false} RemoveByIdKeepsCounts(bookmarks: seq<Bookmark>, id: string, b: Bookmark)
    requires b.id != id
    ensures multiset(RemoveById(bookmarks, id))[b] == multiset(bookmarks)[b]
    decreases |bookmarks|
  {
    if |bookmarks| > 0 {
      RemoveByIdKeepsCounts(bookmarks[1..], id, b);
      assert bookmarks == [bookmarks[0]] + bookmarks[1..];
    }
  }

  /** A list in which no record has the id is left alone. */
  lemma {:induction false} RemoveByIdAbsent(bookmarks: seq<Bookmark>, id: string)
    requires forall k :: 0 <= k < |bookmarks| ==> bookmarks[k].id != id
    ensures RemoveById(bookmarks, id) == bookmarks
    decreases |bookmarks|
  {
    if |bookmarks| > 0 {
      var rest := bookmarks[1..];
      forall k | 0 <= k < |rest|
        ensures rest[k].id != id
      {
        assert rest[k] == bookmarks[k + 1];
      }
      RemoveByIdAbsent(rest, id);
      assert bookmarks[0].id != id;
      assert RemoveById(bookmarks, id) == [bookmarks[0]] + rest;
      assert bookmarks == [bookmarks[0]] + rest;
    }
  }

  /** A record just added and then deleted by its id leaves the list as it
      was, provided no earlier record shared that id. */
  lemma AddThenDeleteRestores(view: ViewState, uid: string, payload: NewBookmark, b: Bookmark)
    requires uid != []
    requires forall k :: 0 <= k < |view.bookmarks| ==> view.bookmarks[k].id != b.id
    ensures
      var added := HandleAdd(view, Some(uid), payload, Succeeded(b)).view;
      HandleDelete(added, Some(uid), b.id, Succeeded(())).view == view
  {
    RemoveByIdAbsent(view.bookmarks, b.id);
    assert ([b] + view.bookmarks)[1..] == view.bookmarks;
  }
}
