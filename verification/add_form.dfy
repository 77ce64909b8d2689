/** The add-bookmark dialog (components/add-bookmark-modal.tsx): how its
    fields become the payload handed to `onAddBookmark`, when the form is
    reset, and when its submit button is disabled. */
module AddForm {
  import opened Wrappers
  import opened Text
  import opened Records

  /** The dialog's state: whether it is open, the three text fields as typed,
      and whether a save is in progress. */
  datatype Form = Form(open: bool, url: string, tags: string, customSummary: string, saving: bool)

  /** The state after a successful save: closed, fields empty, not saving. */
  const ResetForm: Form := Form(false, [], [], [], false)

  /** Trims each piece and drops the pieces left empty, keeping order. */
  function TrimPieces(pieces: seq<string>): (tags: seq<string>)
    ensures |tags| <= |pieces|
    ensures forall k :: 0 <= k < |tags| ==> tags[k] != [] && IsTrimmed(tags[k])
    decreases |pieces|
  {
    if |pieces| == 0 then []
    else
      var t := Trim(pieces[0]);
      if |t| > 0 then [t] + TrimPieces(pieces[1..]) else TrimPieces(pieces[1..])
  }

  /** The tags field: split at commas, each piece trimmed, empty pieces
      dropped. Every tag is non-empty, has no whitespace at either end and no
      comma. */
  function ParseTags(input: string): (tags: seq<string>)
    ensures forall k :: 0 <= k < |tags| ==> tags[k] != [] && IsTrimmed(tags[k]) && ',' !in tags[k]
  {
    var pieces := Split(input, ',');
    var tags := TrimPieces(pieces);
    TrimPiecesNoComma(pieces);
    tags
  }

  lemma {:induction false} TrimPiecesNoComma(pieces: seq<string>)
    requires forall k :: 0 <= k < |pieces| ==> ',' !in pieces[k]
    ensures forall k :: 0 <= k < |TrimPieces(pieces)| ==> ',' !in TrimPieces(pieces)[k]
    decreases |pieces|
  {
    if |pieces| > 0 {
      TrimPiecesNoComma(pieces[1..]);
      var lead, trail := TrimDecomposes(pieces[0]);
      assert pieces[0] == lead + Trim(pieces[0]) + trail;
    }
  }

  lemma {:induction false} TrimPiecesAppend(xs: seq<string>, ys: seq<string>)
    ensures TrimPieces(xs + ys) == TrimPieces(xs) + TrimPieces(ys)
    decreases |xs|
  {
    if |xs| == 0 {
      assert xs + ys == ys;
    } else {
      assert (xs + ys)[1..] == xs[1..] + ys;
      TrimPiecesAppend(xs[1..], ys);
    }
  }

  /** Tags keep the left-to-right order of the comma-separated segments: the
      tags of `a,b` are the tags of `a` followed by those of `b`. */
  lemma ParseTagsAppend(a: string, b: string)
    ensures ParseTags(a + [','] + b) == ParseTags(a) + ParseTags(b)
  {
    SplitAppend(a, b, ',');
    TrimPiecesAppend(Split(a, ','), Split(b, ','));
  }

  /** A blank field gives no tags. */
  lemma ParseTagsBlank(input: string)
    requires AllSpace(input)
    ensures ParseTags(input) == []
  {
    assert forall k :: 0 <= k < |input| ==> input[k] != ',' by {
      assert !IsSpace(',');
    }
    SplitFree(input, ',');
    TrimEmptyIffAllSpace(input);
  }

  /** A field without commas and with some non-blank content is one tag: its
      trimmed value. */
  lemma ParseTagsSingle(input: string)
    requires ',' !in input && !AllSpace(input)
    ensures ParseTags(input) == [Trim(input)]
  {
    SplitFree(input, ',');
    TrimEmptyIffAllSpace(input);
  }

  /** Tags written comma-separated come back as written, in order and with
      duplicates kept. */
  lemma {:induction false} ParseTagsOfJoin(tags: seq<string>)
    requires forall k :: 0 <= k < |tags| ==> tags[k] != [] && IsTrimmed(tags[k]) && ',' !in tags[k]
    ensures ParseTags(Join(tags, ',')) == tags
    decreases |tags|
  {
    if |tags| == 0 {
      assert Split([], ',') == [[]];
    } else if |tags| == 1 {
      ParseTagsSingle(tags[0]);
      TrimIdempotentOnTrimmed(tags[0]);
    } else {
      ParseTagsOfJoin(tags[1..]);
      ParseTagsAppend(tags[0], Join(tags[1..], ','));
      ParseTagsSingle(tags[0]);
      TrimIdempotentOnTrimmed(tags[0]);
      assert tags == [tags[0]] + tags[1..];
    }
  }

  lemma TrimIdempotentOnTrimmed(t: string)
    requires IsTrimmed(t) && t != []
    ensures Trim(t) == t && !AllSpace(t)
  {
    TrimOfPadded([], t, []);
    assert [] + t + [] == t;
  }

  /** The payload of a submission: the trimmed URL, the parsed tags, and the
      trimmed custom summary, absent when it trims to nothing. */
  function Payload(form: Form): (p: NewBookmark)
    ensures p.url == Trim(form.url)
    ensures p.tags == ParseTags(form.tags)
    ensures p.customSummary.None? <==> AllSpace(form.customSummary)
    ensures p.customSummary.Some? ==> p.customSummary.value == Trim(form.customSummary)
  {
    TrimEmptyIffAllSpace(form.customSummary);
    var summary := Trim(form.customSummary);
    NewBookmark(Trim(form.url), ParseTags(form.tags), if summary == [] then None else Some(summary))
  }

  /** Whether the awaited `onAddBookmark` returned or threw. */
  datatype CallOutcome = Completed | Threw

  /** The callback invocation a submission made, if any, and the form after it. */
  datatype Submission = Submission(call: Option<NewBookmark>, form: Form)

  /** `handleSubmit`. A URL that is blank after trimming ends the submission
      with no call and no change. Otherwise the payload is handed to the
      callback; the form is reset and closed only when the callback completes,
      and in every case the save indicator is cleared afterwards. */
  function Submit(form: Form, outcome: CallOutcome): (r: Submission)
    ensures AllSpace(form.url) ==> r == Submission(None, form)
    ensures !AllSpace(form.url) ==> r.call == Some(Payload(form))
    ensures !AllSpace(form.url) && outcome.Completed? ==> r.form == ResetForm
    ensures !AllSpace(form.url) && outcome.Threw? ==> r.form == form.(saving := false)
  {
    TrimEmptyIffAllSpace(form.url);
    if Trim(form.url) == [] then Submission(None, form)
    else
      var p := Payload(form);
      match outcome
      case Completed => Submission(Some(p), ResetForm)
      case Threw => Submission(Some(p), form.(saving := false))
  }

  /** The payload's URL is never blank and never padded. */
  lemma SubmittedUrlIsTrimmedAndNonEmpty(form: Form, outcome: CallOutcome)
    requires Submit(form, outcome).call.Some?
    ensures var url := Submit(form, outcome).call.value.url;
      url != [] && IsTrimmed(url) && Trim(url) == url
  {
    TrimEmptyIffAllSpace(form.url);
    TrimIdempotent(form.url);
  }

  /** The fields survive unless the callback completed. */
  lemma FieldsKeptUnlessCompleted(form: Form, outcome: CallOutcome)
    ensures var after := Submit(form, outcome).form;
      (after.url == form.url && after.tags == form.tags && after.customSummary == form.customSummary)
      || outcome.Completed?
  {
  }

  /** The submit button's `disabled`: while saving, while the URL is blank, or
      while the URL (as typed) does not parse; `urlValid` is the parser's
      verdict. */
  predicate SubmitDisabled(form: Form, urlValid: bool)
    ensures !SubmitDisabled(form, urlValid) ==>
      forall outcome :: Submit(form, outcome).call == Some(Payload(form))
  {
    form.saving || AllSpace(form.url) || !urlValid
  }

  /** The "Please enter a valid URL" hint is shown for a non-empty URL that
      does not parse. */
  predicate ShowsUrlHint(form: Form, urlValid: bool)
    ensures ShowsUrlHint(form, urlValid) ==> SubmitDisabled(form, urlValid)
    ensures urlValid ==> !ShowsUrlHint(form, urlValid)
  {
    form.url != [] && !urlValid
  }
}
