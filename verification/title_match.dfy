/** The title pattern of the metadata extractor, `/<title[^>]*>([^<]+)<\/title>/i`,
    evaluated as JavaScript's `String.prototype.match` does without the `g` flag:
    the leftmost position where the pattern matches, and its first capture.

    At a fixed start the pattern has exactly one way to match: `[^>]*` cannot
    cross a `>`, so the tag ends at the first `>` after `<title`, and `[^<]+`
    cannot cross a `<`, so the capture runs to the first `<` after that. The
    `i` flag folds only ASCII letters here (it never maps a non-ASCII character
    onto an ASCII one), so it is ASCII case-insensitivity of `<title` and
    `</title>`. Neither character class excludes line breaks, so a title that
    spans lines is captured whole. */
module TitleMatch {
  import opened Wrappers
  import opened Text

  const OpenTag: string := "<title"
  const CloseTag: string := "</title>"

  /** `word` occurs at `i` of `s`, ASCII letters compared without case. */
  predicate OccursAtNoCase(s: string, word: string, i: nat) {
    i + |word| <= |s| && Lower(s[i..i + |word|]) == Lower(word)
  }

  /** The declarative reading of one match: at `start` stands `<title`; the
      opening tag's attributes `s[start+6..gt]` contain no `>`, and `s[gt]` is
      `>`; the capture `s[gt+1..lt]` is non-empty and contains no `<`; and at
      `lt` stands `</title>`. */
  predicate MatchesWith(s: string, start: nat, gt: nat, lt: nat) {
    && OccursAtNoCase(s, OpenTag, start)
    && start + |OpenTag| <= gt < lt <= |s|
    && s[gt] == '>'
    && '>' !in s[start + |OpenTag|..gt]
    && gt + 1 < lt
    && '<' !in s[gt + 1..lt]
    && OccursAtNoCase(s, CloseTag, lt)
  }

  /** The pattern matches at `start` with capture `capture`. */
  ghost predicate CapturesAt(s: string, start: nat, capture: string) {
    exists gt: nat, lt: nat :: MatchesWith(s, start, gt, lt) && capture == s[gt + 1..lt]
  }

  /** Where the opening tag ends: the first `>` after `<title`, or `|s|`. */
  function TagEnd(s: string, start: nat): (gt: nat)
    requires start + |OpenTag| <= |s|
    ensures start + |OpenTag| <= gt <= |s|
  {
    start + |OpenTag| + IndexOf(s[start + |OpenTag|..], '>')
  }

  /** Where the capture ends: the first `<` after the opening tag, or `|s|`. */
  function CaptureEnd(s: string, gt: nat): (lt: nat)
    requires gt < |s|
    ensures gt < lt <= |s|
  {
    gt + 1 + IndexOf(s[gt + 1..], '<')
  }

  /** Runs the pattern at one start position. */
  function MatchAt(s: string, start: nat): (r: Option<string>)
    ensures r.Some? ==> CapturesAt(s, start, r.value)
    ensures r.None? ==> forall c :: !CapturesAt(s, start, c)
  {
    if !OccursAtNoCase(s, OpenTag, start) then None
    else
      var gt := TagEnd(s, start);
      if gt == |s| then
        NoCaptureAt(s, start);
        None
      else
        var lt := CaptureEnd(s, gt);
        if lt == gt + 1 || !OccursAtNoCase(s, CloseTag, lt) then
          NoCaptureAt(s, start);
          None
        else
          assert MatchesWith(s, start, gt, lt);
          Some(s[gt + 1..lt])
  }

  /** Any match at `start` is framed by the first `>` after `<title` and the
      first `<` after that, so those two positions decide the match. */
  lemma WitnessIsFirst(s: string, start: nat, gt: nat, lt: nat)
    requires MatchesWith(s, start, gt, lt)
    ensures gt == TagEnd(s, start)
    ensures lt == CaptureEnd(s, gt)
  {
    var from := start + |OpenTag|;
    assert s[from..][..gt - from] == s[from..gt];
    IndexOfFirst(s[from..], '>', gt - from);
    CloseTagStartsWithLt(s, lt);
    assert s[gt + 1..][..lt - gt - 1] == s[gt + 1..lt];
    IndexOfFirst(s[gt + 1..], '<', lt - gt - 1);
  }

  lemma CloseTagStartsWithLt(s: string, i: nat)
    requires OccursAtNoCase(s, CloseTag, i)
    ensures s[i] == '<'
  {
    assert Lower(s[i..i + |CloseTag|])[0] == LowerChar(s[i]);
    assert Lower(CloseTag)[0] == '<';
  }

  /** When the first frame after `<title` is not a match, nothing matches. */
  lemma NoCaptureAt(s: string, start: nat)
    requires OccursAtNoCase(s, OpenTag, start)
    requires
      || TagEnd(s, start) == |s|
      || CaptureEnd(s, TagEnd(s, start)) == TagEnd(s, start) + 1
      || !OccursAtNoCase(s, CloseTag, CaptureEnd(s, TagEnd(s, start)))
    ensures forall c :: !CapturesAt(s, start, c)
  {
    forall c | CapturesAt(s, start, c)
      ensures false
    {
      var gt: nat, lt: nat :| MatchesWith(s, start, gt, lt) && c == s[gt + 1..lt];
      WitnessIsFirst(s, start, gt, lt);
    }
  }

  /** `s.match(pattern)` restricted to starts at or after `from`: the capture
      of the leftmost match, or nothing when no position matches. */
  function FirstMatchFrom(s: string, from: nat): (r: Option<string>)
    ensures r.None? ==> forall i: nat, c :: from <= i ==> !CapturesAt(s, i, c)
    ensures r.Some? ==> exists i: nat :: from <= i && CapturesAt(s, i, r.value) && NoMatchBetween(s, from, i)
    decreases |s| - from
  {
    if from > |s| then
      assert forall i: nat, c :: from <= i ==> !CapturesAt(s, i, c);
      None
    else match MatchAt(s, from)
      case Some(c) => Some(c)
      case None =>
        var r := FirstMatchFrom(s, from + 1);
        NoMatchAtStep(s, from, r);
        r
  }

  lemma NoMatchAtStep(s: string, from: nat, r: Option<string>)
    requires forall c :: !CapturesAt(s, from, c)
    requires r.None? ==> forall i: nat, c :: from + 1 <= i ==> !CapturesAt(s, i, c)
    requires r.Some? ==> exists i: nat :: from + 1 <= i && CapturesAt(s, i, r.value) && NoMatchBetween(s, from + 1, i)
    ensures r.None? ==> forall i: nat, c :: from <= i ==> !CapturesAt(s, i, c)
    ensures r.Some? ==> exists i: nat :: from <= i && CapturesAt(s, i, r.value) && NoMatchBetween(s, from, i)
  {
    if r.Some? {
      var i: nat :| from + 1 <= i && CapturesAt(s, i, r.value) && NoMatchBetween(s, from + 1, i);
      assert NoMatchBetween(s, from, i);
    }
  }

  /** No position in `[from, to)` matches. */
  ghost predicate NoMatchBetween(s: string, from: nat, to: nat) {
    forall j: nat, c :: from <= j < to ==> !CapturesAt(s, j, c)
  }

  /** The capture of the first title match in a page, if any. */
  function FirstTitle(html: string): (r: Option<string>)
    ensures r.Some? ==> r.value != [] && '<' !in r.value
    ensures r.Some? ==> exists i: nat :: CapturesAt(html, i, r.value) && NoMatchBetween(html, 0, i)
    ensures r.None? ==> forall i: nat, c :: !CapturesAt(html, i, c)
  {
    FirstMatchFrom(html, 0)
  }

  /** At a given start the pattern captures at most one string. */
  lemma CaptureDeterministic(s: string, start: nat, c1: string, c2: string)
    requires CapturesAt(s, start, c1) && CapturesAt(s, start, c2)
    ensures c1 == c2
  {
    var gt1: nat, lt1: nat :| MatchesWith(s, start, gt1, lt1) && c1 == s[gt1 + 1..lt1];
    var gt2: nat, lt2: nat :| MatchesWith(s, start, gt2, lt2) && c2 == s[gt2 + 1..lt2];
    WitnessIsFirst(s, start, gt1, lt1);
    WitnessIsFirst(s, start, gt2, lt2);
  }

  /** The reference reading of `match`: when the pattern matches at `start`
      with capture `c` and at no earlier position, the first title is `c`. */
  lemma FirstTitleIsLeftmost(html: string, start: nat, c: string)
    requires CapturesAt(html, start, c)
    requires NoMatchBetween(html, 0, start)
    ensures FirstTitle(html) == Some(c)
  {
    var r := FirstTitle(html);
    assert r.Some?;
    var i: nat :| CapturesAt(html, i, r.value) && NoMatchBetween(html, 0, i);
    assert start <= i;
    assert i <= start;
    CaptureDeterministic(html, start, c, r.value);
  }
}
