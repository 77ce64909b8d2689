/** The shapes of data that cross the application's boundaries: the stored
    bookmark row and its insert payload (lib/supabase.ts), the form payload the
    add dialog hands to the page, and the JSON body the page posts to the API. */
module Records {
  import opened Wrappers

  /** A stored bookmark row. Identifiers and timestamps are assigned by the
      store and are opaque strings here. */
  datatype Bookmark = Bookmark(
    id: string,
    url: string,
    title: string,
    summary: string,
    favicon: Option<string>,
    tags: seq<string>,
    userId: string,
    createdAt: string,
    updatedAt: string)

  /** The row the create endpoint asks the store to insert. */
  datatype CreateBookmarkData = CreateBookmarkData(
    url: string,
    title: string,
    summary: string,
    favicon: Option<string>,
    tags: seq<string>,
    userId: string)

  /** What the add dialog passes to its `onAddBookmark` callback. */
  datatype NewBookmark = NewBookmark(
    url: string,
    tags: seq<string>,
    customSummary: Option<string>)

  /** The decoded JSON body of a create request; a field that is absent (or,
      for the strings, null) is `None`. */
  datatype CreateRequest = CreateRequest(
    url: Option<string>,
    tags: Option<seq<string>>,
    customSummary: Option<string>,
    userId: Option<string>)

  /** JavaScript truthiness of an optional string: present and non-empty. */
  predicate Truthy(s: Option<string>) {
    s.Some? && s.value != []
  }
}
