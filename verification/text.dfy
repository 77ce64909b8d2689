/** The string primitives the application relies on, given definitions of their
    own: JavaScript's `trim`, `toLowerCase`, `includes`, `split(',')` and the
    default comparison used by `Array.prototype.sort`. A string is a sequence of
    Unicode scalar values; JavaScript counts UTF-16 code units instead, which
    differs only for characters outside the Basic Multilingual Plane. */
module Text {

  /** The code points `String.prototype.trim` removes: ECMAScript WhiteSpace
      (tab, vertical tab, form feed, the byte order mark and Unicode category Zs)
      and LineTerminator (line feed, carriage return, line and paragraph
      separators). */
  predicate IsSpace(c: char) {
    || c == '\t' || c == '\n' || c == '\U{B}' || c == '\U{C}' || c == '\r'
    || c == ' ' || c == '\U{A0}' || c == '\U{1680}'
    || ('\U{2000}' <= c <= '\U{200A}')
    || c == '\U{2028}' || c == '\U{2029}' || c == '\U{202F}' || c == '\U{205F}'
    || c == '\U{3000}' || c == '\U{FEFF}'
  }

  predicate AllSpace(s: string) {
    forall i :: 0 <= i < |s| ==> IsSpace(s[i])
  }

  /** Neither end of the string is whitespace. */
  predicate IsTrimmed(s: string) {
    |s| == 0 || (!IsSpace(s[0]) && !IsSpace(s[|s| - 1]))
  }

  /** Drops the leading whitespace; SplitLeadingSpace says what was dropped. */
  function TrimStart(s: string): (r: string)
    ensures |r| <= |s|
    ensures |r| == 0 || !IsSpace(r[0])
  {
    if |s| > 0 && IsSpace(s[0]) then TrimStart(s[1..]) else s
  }

  /** Drops the trailing whitespace; SplitTrailingSpace says what was dropped. */
  function TrimEnd(s: string): (r: string)
    ensures |r| <= |s|
    ensures |r| == 0 || !IsSpace(r[|r| - 1])
  {
    if |s| > 0 && IsSpace(s[|s| - 1]) then TrimEnd(s[..|s| - 1]) else s
  }

  /** `s.trim()`: the result has no whitespace at either end and is an infix of
      the input whose surroundings are all whitespace (TrimDecomposes and
      TrimOfPadded say both directions of that). */
  function Trim(s: string): (r: string)
    ensures IsTrimmed(r)
    ensures |r| <= |s|
  {
    var t := TrimStart(s);
    TrimEndKeepsHead(t);
    TrimEnd(t)
  }

  lemma TrimEndKeepsHead(t: string)
    ensures |TrimEnd(t)| > 0 ==> TrimEnd(t)[0] == t[0]
  {
    var trail := SplitTrailingSpace(t);
  }

  /** Every string is its trimmed value padded with whitespace on both sides. */
  lemma TrimDecomposes(s: string) returns (lead: string, trail: string)
    ensures s == lead + Trim(s) + trail
    ensures AllSpace(lead) && AllSpace(trail)
  {
    var t := TrimStart(s);
    lead := SplitLeadingSpace(s);
    trail := SplitTrailingSpace(t);
    Reassociate(s, lead, t, TrimEnd(t), trail);
  }

  /** TrimStart removes a whitespace prefix and nothing else. */
  lemma {:induction false} SplitLeadingSpace(s: string) returns (lead: string)
    ensures s == lead + TrimStart(s) && AllSpace(lead)
    decreases |s|
  {
    if |s| > 0 && IsSpace(s[0]) {
      var rest := SplitLeadingSpace(s[1..]);
      lead := [s[0]] + rest;
      assert s == [s[0]] + s[1..];
    } else {
      lead := [];
    }
  }

  /** TrimEnd removes a whitespace suffix and nothing else. */
  lemma {:induction false} SplitTrailingSpace(t: string) returns (trail: string)
    ensures t == TrimEnd(t) + trail && AllSpace(trail)
    decreases |t|
  {
    if |t| > 0 && IsSpace(t[|t| - 1]) {
      var rest := SplitTrailingSpace(t[..|t| - 1]);
      trail := rest + [t[|t| - 1]];
      assert t == t[..|t| - 1] + [t[|t| - 1]];
    } else {
      trail := [];
    }
  }

  lemma Reassociate(s: string, lead: string, t: string, r: string, trail: string)
    requires s == lead + t && t == r + trail
    ensures s == lead + r + trail
  {
  }

  lemma {:induction false} TrimStartOfSpaces(s: string)
    requires AllSpace(s)
    ensures TrimStart(s) == []
    decreases |s|
  {
    if |s| > 0 {
      TrimStartOfSpaces(s[1..]);
    }
  }

  lemma {:induction false} TrimStartPadded(lead: string, t: string)
    requires AllSpace(lead)
    requires |t| == 0 || !IsSpace(t[0])
    ensures TrimStart(lead + t) == t
    decreases |lead|
  {
    if |lead| > 0 {
      assert (lead + t)[1..] == lead[1..] + t;
      TrimStartPadded(lead[1..], t);
    }
  }

  lemma {:induction false} TrimEndPadded(t: string, trail: string)
    requires AllSpace(trail)
    requires |t| == 0 || !IsSpace(t[|t| - 1])
    ensures TrimEnd(t + trail) == t
    decreases |trail|
  {
    if |trail| > 0 {
      assert (t + trail)[..|t + trail| - 1] == t + trail[..|trail| - 1];
      TrimEndPadded(t, trail[..|trail| - 1]);
    }
  }

  /** The converse of TrimDecomposes: whitespace padding around a trimmed string
      is exactly what `trim` removes, so the decomposition is unique. */
  lemma TrimOfPadded(lead: string, t: string, trail: string)
    requires AllSpace(lead) && AllSpace(trail) && IsTrimmed(t)
    ensures Trim(lead + t + trail) == t
  {
    if |t| == 0 {
      assert lead + t + trail == lead + trail;
      TrimStartOfSpaces(lead + trail);
    } else {
      assert lead + t + trail == lead + (t + trail);
      TrimStartPadded(lead, t + trail);
      TrimEndPadded(t, trail);
    }
  }

  /** A string trims to nothing exactly when it is all whitespace. */
  lemma TrimEmptyIffAllSpace(s: string)
    ensures Trim(s) == [] <==> AllSpace(s)
  {
    if AllSpace(s) {
      TrimStartOfSpaces(s);
    }
    if Trim(s) == [] {
      var lead, trail := TrimDecomposes(s);
      assert s == lead + trail;
      forall i | 0 <= i < |s|
        ensures IsSpace(s[i])
      {
        if i < |lead| {
          assert s[i] == lead[i];
        } else {
          assert s[i] == trail[i - |lead|];
        }
      }
    }
  }

  /** Trimming twice is trimming once. */
  lemma TrimIdempotent(s: string)
    ensures Trim(Trim(s)) == Trim(s)
  {
    TrimOfPadded([], Trim(s), []);
    assert [] + Trim(s) + [] == Trim(s);
  }

  /** `toLowerCase`, restricted to ASCII: `A`..`Z` become `a`..`z`, every other
      character is kept. */
  function LowerChar(c: char): (d: char)
    ensures 'A' <= c <= 'Z' ==> 'a' <= d <= 'z' && d as int - c as int == 32
    ensures !('A' <= c <= 'Z') ==> d == c
  {
    if 'A' <= c <= 'Z' then (c as int + 32) as char else c
  }

  function Lower(s: string): (r: string)
    ensures |r| == |s|
    ensures forall i :: 0 <= i < |s| ==> r[i] == LowerChar(s[i])
  {
    seq(|s|, i requires 0 <= i < |s| => LowerChar(s[i]))
  }

  /** Lower-casing is idempotent: lower-case text is left alone. */
  lemma LowerIdempotent(s: string)
    ensures Lower(Lower(s)) == Lower(s)
  {
    assert forall i :: 0 <= i < |s| ==> LowerChar(LowerChar(s[i])) == LowerChar(s[i]);
  }

  /** `needle` occurs in `haystack` starting at index `i`. */
  predicate OccursAt(haystack: string, needle: string, i: nat) {
    i + |needle| <= |haystack| && haystack[i..i + |needle|] == needle
  }

  /** `haystack.includes(needle)`; the empty needle occurs everywhere. */
  predicate Includes(haystack: string, needle: string)
    ensures needle == [] ==> Includes(haystack, needle)
    ensures Includes(haystack, needle) ==> |needle| <= |haystack|
    ensures haystack == needle ==> Includes(haystack, needle)
  {
    assert needle == [] ==> OccursAt(haystack, needle, 0);
    assert haystack == needle ==> OccursAt(haystack, needle, 0);
    exists i: nat :: i <= |haystack| && OccursAt(haystack, needle, i)
  }

  /** The index of the first occurrence of `c`, or `|s|` when there is none. */
  function IndexOf(s: string, c: char): (i: nat)
    ensures i <= |s|
    ensures i < |s| ==> s[i] == c
    ensures c !in s[..i]
  {
    if |s| == 0 then 0
    else if s[0] == c then 0
    else 1 + IndexOf(s[1..], c)
  }

  /** IndexOf finds the first occurrence: a position holding `c` with no `c`
      before it is the index. */
  lemma {:induction false} IndexOfFirst(s: string, c: char, j: nat)
    requires j < |s| && s[j] == c && c !in s[..j]
    ensures IndexOf(s, c) == j
    decreases j
  {
    if j > 0 {
      assert s[0] == s[..j][0];
      assert s[1..][..j - 1] == s[..j][1..];
      IndexOfFirst(s[1..], c, j - 1);
    }
  }

  /** `s.split(sep)` for a one-character separator: the pieces between the
      separators, in order, empty pieces included; never an empty list. Each
      character either starts a new piece or extends the first one. */
  function Split(s: string, sep: char): (pieces: seq<string>)
    ensures |pieces| >= 1
    ensures forall k :: 0 <= k < |pieces| ==> sep !in pieces[k]
    decreases |s|
  {
    if |s| == 0 then [[]]
    else
      var rest := Split(s[1..], sep);
      if s[0] == sep then [[]] + rest
      else [[s[0]] + rest[0]] + rest[1..]
  }

  /** `pieces.join(sep)` for a one-character separator. */
  function Join(pieces: seq<string>, sep: char): string {
    if |pieces| == 0 then []
    else if |pieces| == 1 then pieces[0]
    else pieces[0] + [sep] + Join(pieces[1..], sep)
  }

  /** One step of `Join` on a list with a head and a non-empty rest. */
  lemma JoinCons(head: string, rest: seq<string>, sep: char)
    requires |rest| >= 1
    ensures Join([head] + rest, sep) == head + [sep] + Join(rest, sep)
  {
    assert ([head] + rest)[1..] == rest;
  }

  /** A character in front of the first piece is in front of the join. */
  lemma JoinExtendsHead(c: char, pieces: seq<string>, sep: char)
    requires |pieces| >= 1
    ensures Join([[c] + pieces[0]] + pieces[1..], sep) == [c] + Join(pieces, sep)
  {
    if |pieces| > 1 {
      JoinCons([c] + pieces[0], pieces[1..], sep);
    }
  }

  /** Splitting loses nothing: joining the pieces gives the input back. */
  lemma {:induction false} JoinSplit(s: string, sep: char)
    ensures Join(Split(s, sep), sep) == s
    decreases |s|
  {
    if |s| > 0 {
      var rest := Split(s[1..], sep);
      JoinSplit(s[1..], sep);
      if s[0] == sep {
        JoinCons([], rest, sep);
      } else {
        JoinExtendsHead(s[0], rest, sep);
      }
      assert s == [s[0]] + s[1..];
    }
  }

  /** A string without the separator is a single piece. */
  lemma {:induction false} SplitFree(s: string, sep: char)
    requires sep !in s
    ensures Split(s, sep) == [s]
    decreases |s|
  {
    if |s| > 0 {
      assert sep !in s[1..];
      SplitFree(s[1..], sep);
      assert s == [s[0]] + s[1..];
    }
  }

  /** Splitting distributes over a separator: the pieces of `a + [sep] + b`
      are those of `a` followed by those of `b`. */
  lemma {:induction false} SplitAppend(a: string, b: string, sep: char)
    ensures Split(a + [sep] + b, sep) == Split(a, sep) + Split(b, sep)
    decreases |a|
  {
    var s := a + [sep] + b;
    if |a| == 0 {
      assert s[1..] == b;
    } else {
      assert s[0] == a[0] && s[1..] == a[1..] + [sep] + b;
      SplitAppend(a[1..], b, sep);
      var p, q := Split(a[1..], sep), Split(b, sep);
      if a[0] == sep {
        assert Split(s, sep) == [[]] + (p + q);
      } else {
        assert (p + q)[0] == p[0] && (p + q)[1..] == p[1..] + q;
      }
    }
  }

  /** Joining separator-free pieces and splitting again gives the pieces back. */
  lemma {:induction false} SplitJoin(pieces: seq<string>, sep: char)
    requires |pieces| >= 1
    requires forall k :: 0 <= k < |pieces| ==> sep !in pieces[k]
    ensures Split(Join(pieces, sep), sep) == pieces
    decreases |pieces|
  {
    var head, rest := pieces[0], pieces[1..];
    SplitFree(head, sep);
    if |pieces| > 1 {
      JoinCons(head, rest, sep);
      SplitAppend(head, Join(rest, sep), sep);
      SplitJoin(rest, sep);
      assert pieces == [head] + rest;
    }
  }

  /** The default order of `Array.prototype.sort` on strings: lexicographic by
      character, a proper prefix coming first. */
  predicate Less(a: string, b: string)
    decreases |a|
  {
    if |a| == 0 then |b| > 0
    else if |b| == 0 then false
    else a[0] < b[0] || (a[0] == b[0] && Less(a[1..], b[1..]))
  }

  lemma {:induction false} LessIrreflexive(a: string)
    ensures !Less(a, a)
    decreases |a|
  {
    if |a| > 0 {
      LessIrreflexive(a[1..]);
    }
  }

  lemma {:induction false} LessTransitive(a: string, b: string, c: string)
    requires Less(a, b) && Less(b, c)
    ensures Less(a, c)
    decreases |a|
  {
    if |a| > 0 && |c| > 0 && a[0] == b[0] == c[0] {
      LessTransitive(a[1..], b[1..], c[1..]);
    }
  }

  /** Any two different strings are ordered one way or the other. */
  lemma {:induction false} LessTotal(a: string, b: string)
    requires a != b
    ensures Less(a, b) || Less(b, a)
    decreases |a|
  {
    if |a| > 0 && |b| > 0 && a[0] == b[0] {
      assert a == [a[0]] + a[1..] && b == [b[0]] + b[1..];
      LessTotal(a[1..], b[1..]);
    }
  }

  lemma {:induction false} LessAsymmetric(a: string, b: string)
    requires Less(a, b)
    ensures !Less(b, a)
  {
    if Less(b, a) {
      LessTransitive(a, b, a);
      LessIrreflexive(a);
    }
  }
}
