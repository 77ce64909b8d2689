/** The tag vocabulary the page offers for filtering (`availableTags`,
    app/page.tsx): every tag of every bookmark collected into a set, then
    sorted with the default string order. */
module TagVocabulary {
  import opened Text
  import opened Records

  /** Ascending without repeats. */
  predicate StrictlySorted(s: seq<string>) {
    forall i, j :: 0 <= i < j < |s| ==> Less(s[i], s[j])
  }

  /** Some bookmark in the list carries the tag. */
  predicate Carried(bookmarks: seq<Bookmark>, t: string) {
    exists i :: 0 <= i < |bookmarks| && t in bookmarks[i].tags
  }

  /** Adds one tag to a sorted vocabulary, keeping it sorted and adding
      nothing when the tag is already there. */
  function Insert(sorted: seq<string>, t: string): (r: seq<string>)
    requires StrictlySorted(sorted)
    ensures StrictlySorted(r)
    ensures forall u :: u in r <==> u in sorted || u == t
    decreases |sorted|
  {
    if |sorted| == 0 then [t]
    else if t == sorted[0] then sorted
    else if Less(t, sorted[0]) then
      InsertFront(sorted, t);
      [t] + sorted
    else
      var rest := Insert(sorted[1..], t);
      InsertAfterHead(sorted, t, rest);
      [sorted[0]] + rest
  }

  lemma InsertFront(sorted: seq<string>, t: string)
    requires StrictlySorted(sorted) && |sorted| > 0 && Less(t, sorted[0])
    ensures StrictlySorted([t] + sorted)
  {
    var r := [t] + sorted;
    forall i, j | 0 <= i < j < |r|
      ensures Less(r[i], r[j])
    {
      if i == 0 && j > 1 {
        LessTransitive(t, sorted[0], sorted[j - 1]);
      }
    }
  }

  lemma InsertAfterHead(sorted: seq<string>, t: string, rest: seq<string>)
    requires StrictlySorted(sorted) && |sorted| > 0 && t != sorted[0] && !Less(t, sorted[0])
    requires StrictlySorted(rest)
    requires forall u :: u in rest <==> u in sorted[1..] || u == t
    ensures StrictlySorted([sorted[0]] + rest)
  {
    LessTotal(t, sorted[0]);
    var r := [sorted[0]] + rest;
    forall i, j | 0 <= i < j < |r|
      ensures Less(r[i], r[j])
    {
      if i == 0 {
        var u := rest[j - 1];
        assert u in rest;
        if u != t {
          var k :| 0 <= k < |sorted[1..]| && sorted[1..][k] == u;
          assert sorted[k + 1] == u;
        }
      }
    }
  }

  /** Adds every tag of one list to a sorted vocabulary. */
  function InsertAll(sorted: seq<string>, tags: seq<string>): (r: seq<string>)
    requires StrictlySorted(sorted)
    ensures StrictlySorted(r)
    ensures forall u :: u in r <==> u in sorted || u in tags
    decreases |tags|
  {
    if |tags| == 0 then sorted
    else
      var r := InsertAll(Insert(sorted, tags[0]), tags[1..]);
      assert forall u :: u in tags <==> u == tags[0] || u in tags[1..];
      r
  }

  /** Adds the tags of every bookmark, in list order. */
  function Collect(sorted: seq<string>, bookmarks: seq<Bookmark>): (r: seq<string>)
    requires StrictlySorted(sorted)
    ensures StrictlySorted(r)
    ensures forall u :: u in r <==> u in sorted || Carried(bookmarks, u)
    decreases |bookmarks|
  {
    if |bookmarks| == 0 then sorted
    else
      var r := Collect(InsertAll(sorted, bookmarks[0].tags), bookmarks[1..]);
      CarriedSplit(bookmarks);
      r
  }

  lemma CarriedSplit(bookmarks: seq<Bookmark>)
    requires |bookmarks| > 0
    ensures forall u :: Carried(bookmarks, u) <==> u in bookmarks[0].tags || Carried(bookmarks[1..], u)
  {
    forall u | Carried(bookmarks[1..], u)
      ensures Carried(bookmarks, u)
    {
      var i :| 0 <= i < |bookmarks[1..]| && u in bookmarks[1..][i].tags;
      assert u in bookmarks[i + 1].tags;
    }
    forall u | Carried(bookmarks, u) && u !in bookmarks[0].tags
      ensures Carried(bookmarks[1..], u)
    {
      var i :| 0 <= i < |bookmarks| && u in bookmarks[i].tags;
      assert bookmarks[1..][i - 1] == bookmarks[i];
    }
  }

  /** `availableTags`: strictly sorted (so free of duplicates) and holding a
      tag exactly when some bookmark carries it. */
  function AvailableTags(bookmarks: seq<Bookmark>): (r: seq<string>)
    ensures StrictlySorted(r)
    ensures forall u :: u in r <==> Carried(bookmarks, u)
  {
    Collect([], bookmarks)
  }

  /** A strictly sorted list starts with its least element. */
  lemma HeadIsLeast(s: seq<string>, x: string)
    requires StrictlySorted(s) && x in s
    ensures x == s[0] || Less(s[0], x)
  {
    var k :| 0 <= k < |s| && s[k] == x;
    if k > 0 {
      assert Less(s[0], s[k]);
    }
  }

  /** There is only one strictly sorted list of a given set of strings, so
      `availableTags` is exactly the sorted enumeration of the tag set, however
      the bookmarks and their tags are ordered. */
  lemma {:induction false} SortedEnumerationUnique(a: seq<string>, b: seq<string>)
    requires StrictlySorted(a) && StrictlySorted(b)
    requires forall u :: u in a <==> u in b
    ensures a == b
    decreases |a|
  {
    if |a| > 0 {
      assert a[0] in b;
    }
    if |b| > 0 {
      assert b[0] in a;
    }
    if |a| > 0 {
      HeadIsLeast(b, a[0]);
      HeadIsLeast(a, b[0]);
      NotBothLess(a[0], b[0]);
      assert a[0] == b[0];
      forall u
        ensures u in a[1..] <==> u in b[1..]
      {
        SortedTailMembers(a, u);
        SortedTailMembers(b, u);
      }
      SortedEnumerationUnique(a[1..], b[1..]);
      assert a == [a[0]] + a[1..] && b == [b[0]] + b[1..];
    }
  }

  lemma NotBothLess(x: string, y: string)
    ensures !(Less(x, y) && Less(y, x))
  {
    if Less(x, y) {
      LessAsymmetric(x, y);
    }
  }

  lemma SortedTailMembers(s: seq<string>, u: string)
    requires StrictlySorted(s) && |s| > 0
    ensures u in s[1..] <==> u in s && u != s[0]
  {
    if u in s[1..] {
      var k :| 0 <= k < |s[1..]| && s[1..][k] == u;
      assert Less(s[0], s[k + 1]);
      LessIrreflexive(s[0]);
    }
    if u in s && u != s[0] {
      var k :| 0 <= k < |s| && s[k] == u;
      assert s[1..][k - 1] == u;
    }
  }

  /** The vocabulary depends only on which tags occur, not on the order of the
      bookmarks or of their tags. */
  lemma AvailableTagsOrderFree(xs: seq<Bookmark>, ys: seq<Bookmark>)
    requires forall u :: Carried(xs, u) <==> Carried(ys, u)
    ensures AvailableTags(xs) == AvailableTags(ys)
  {
    SortedEnumerationUnique(AvailableTags(xs), AvailableTags(ys));
  }
}
