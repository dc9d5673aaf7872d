/**
  The create-poll form: the option-list editor and the submission
  validator. A submission either fails with one of two fixed messages or
  yields the draft that is sent to the poll service.
 */
module CreatePoll {
  import opened JsText

  /** Shortest accepted question, in UTF-16 code units after trimming. */
  const MinQuestionLength: nat := 5
  /** Fewest accepted non-blank options. */
  const MinOptionCount: nat := 2

  /** The form starts with two blank option rows. */
  const InitialOptions: seq<string> := ["", ""]

  datatype FormError = QuestionTooShort | TooFewOptions {
    /** The text shown to the user. */
    function Message(): string {
      match this
      case QuestionTooShort => "Question must be at least 5 characters."
      case TooFewOptions => "Please provide at least two options."
    }
  }

  /** The banner texts are the two fixed messages, and they differ, so the
      banner tells the user which check failed. */
  lemma FormErrorMessages()
    ensures QuestionTooShort.Message() == "Question must be at least 5 characters."
    ensures TooFewOptions.Message() == "Please provide at least two options."
    ensures QuestionTooShort.Message() != TooFewOptions.Message()
  {
    // Both texts follow from Message's definition.
  }

  /** The request body handed to the poll service. */
  datatype PollDraft = PollDraft(question: string, options: seq<string>)

  datatype Submission = Rejected(error: FormError) | Submitted(draft: PollDraft)

  // ---------------------------------------------------------------------
  // Option-list editor
  // ---------------------------------------------------------------------

  /** Replaces the entry at `index`; any other index leaves the list as it is. */
  function UpdateOption(options: seq<string>, index: int, value: string): (r: seq<string>)
    ensures |r| == |options|
    ensures forall j :: 0 <= j < |r| ==> r[j] == (if j == index then value else options[j])
    ensures !(0 <= index < |options|) ==> r == options
  {
    if 0 <= index < |options| then options[index := value] else options
  }

  /** Appends one blank entry. */
  function AddOption(options: seq<string>): (r: seq<string>)
    ensures |r| == |options| + 1
    ensures r[..|options|] == options && r[|options|] == ""
  {
    options + [""]
  }

  /** Deletes the entry at `index`, keeping the others in order; any other
      index leaves the list as it is. */
  function RemoveOption(options: seq<string>, index: int): (r: seq<string>)
    ensures 0 <= index < |options| ==>
              && |r| == |options| - 1
              && (forall j :: 0 <= j < index ==> r[j] == options[j])
              && (forall j :: index <= j < |r| ==> r[j] == options[j + 1])
    ensures !(0 <= index < |options|) ==> r == options
  {
    if 0 <= index < |options| then options[..index] + options[index + 1..] else options
  }

  /** Removing an entry loses exactly that entry and nothing else. */
  lemma RemoveOptionMultiset(options: seq<string>, index: int)
    requires 0 <= index < |options|
    ensures multiset(RemoveOption(options, index)) + multiset{options[index]} == multiset(options)
  {
    assert options == options[..index] + [options[index]] + options[index + 1..];
  }

  /** Removing the entry that AddOption appended restores the list. */
  lemma RemoveUndoesAdd(options: seq<string>)
    ensures RemoveOption(AddOption(options), |options|) == options
  {
  }

  /** Writing back the old value undoes an update. */
  lemma UpdateUndoesUpdate(options: seq<string>, index: int, value: string)
    requires 0 <= index < |options|
    ensures UpdateOption(UpdateOption(options, index, value), index, options[index]) == options
  {
  }

  // ---------------------------------------------------------------------
  // Option clean-up: trim every entry, then drop the empty ones
  // ---------------------------------------------------------------------

  /** `options.map((option) => option.trim())`: every entry trimmed, in place. */
  function TrimEach(options: seq<string>): seq<string> {
    seq(|options|, i requires 0 <= i < |options| => Trim(options[i]))
  }

  /** Trimming each row keeps the row count and trims row i into entry i;
      what survives clean-up is then decided per row. */
  lemma TrimEachSpec(options: seq<string>)
    ensures |TrimEach(options)| == |options|
    ensures forall i :: 0 <= i < |options| ==>
              TrimEach(options)[i] == Trim(options[i])
              && (TrimEach(options)[i] == [] <==> AllTrimmable(options[i]))
  {
    forall i | 0 <= i < |options|
      ensures TrimEach(options)[i] == [] <==> AllTrimmable(options[i])
    {
      TrimEmptyIff(options[i]);
    }
  }

  /** The non-empty entries, in their original order. */
  function KeepNonEmpty(xs: seq<string>): (r: seq<string>)
    ensures |r| <= |xs|
    ensures forall k :: 0 <= k < |r| ==> r[k] != [] && r[k] in xs
  {
    if xs == [] then []
    else
      var last := xs[|xs| - 1];
      KeepNonEmpty(xs[..|xs| - 1]) + (if last == [] then [] else [last])
  }

  /** The options as submitted: each trimmed, the empty ones removed. They
      are never more than the rows, and each is non-empty and trimmed. */
  function CleanOptions(options: seq<string>): (r: seq<string>)
    ensures |r| <= |options|
    ensures forall k :: 0 <= k < |r| ==> r[k] != [] && IsTrimmed(r[k])
  {
    KeepNonEmpty(TrimEach(options))
  }

  /** Positions, in increasing order, of the rows whose trimmed text is
      non-empty: exactly the rows that survive clean-up. */
  function KeptRows(options: seq<string>): (idx: seq<int>)
    ensures forall k :: 0 <= k < |idx| ==> 0 <= idx[k] < |options| && Trim(options[idx[k]]) != []
    ensures forall k, l :: 0 <= k < l < |idx| ==> idx[k] < idx[l]
    ensures forall j :: 0 <= j < |options| && Trim(options[j]) != [] ==> j in idx
  {
    if options == [] then []
    else
      var n := |options| - 1;
      var init := options[..n];
      var prev := KeptRows(init);
      assert forall k :: 0 <= k < |prev| ==> init[prev[k]] == options[prev[k]];
      assert forall j :: 0 <= j < n ==> init[j] == options[j];
      prev + (if Trim(options[n]) == [] then [] else [n])
  }

  lemma TrimEachAppend(a: seq<string>, b: seq<string>)
    ensures TrimEach(a + b) == TrimEach(a) + TrimEach(b)
  {
    // Both sides are pointwise Trim of the same rows.
  }

  lemma {:induction false} KeepNonEmptyAppend(a: seq<string>, b: seq<string>)
    ensures KeepNonEmpty(a + b) == KeepNonEmpty(a) + KeepNonEmpty(b)
  {
    if b == [] {
      assert a + b == a;
    } else {
      var n := |b| - 1;
      assert (a + b)[..|a + b| - 1] == a + b[..n];
      KeepNonEmptyAppend(a, b[..n]);
    }
  }

  /** Clean-up distributes over concatenation of option lists. */
  lemma CleanOptionsAppend(a: seq<string>, b: seq<string>)
    ensures CleanOptions(a + b) == CleanOptions(a) + CleanOptions(b)
  {
    TrimEachAppend(a, b);
    KeepNonEmptyAppend(TrimEach(a), TrimEach(b));
  }

  /** Cleaning one more row appends that row's trimmed text, if non-empty. */
  lemma CleanOptionsSnoc(init: seq<string>, row: string)
    ensures CleanOptions(init + [row])
         == CleanOptions(init) + (if Trim(row) == [] then [] else [Trim(row)])
  {
    CleanOptionsAppend(init, [row]);
    assert TrimEach([row]) == [Trim(row)];
    assert KeepNonEmpty([Trim(row)])
        == KeepNonEmpty([]) + (if Trim(row) == [] then [] else [Trim(row)]);
  }

  /** Clean-up is an order-preserving selection: the i-th submitted option
      is the trimmed text of the i-th row in KeptRows, so the result holds
      exactly the rows with non-blank text, trimmed, in their original order. */
  lemma {:induction false} CleanOptionsSelects(options: seq<string>)
    ensures |CleanOptions(options)| == |KeptRows(options)|
    ensures forall k :: 0 <= k < |KeptRows(options)| ==>
              CleanOptions(options)[k] == Trim(options[KeptRows(options)[k]])
  {
    if options != [] {
      var n := |options| - 1;
      var init := options[..n];
      CleanOptionsSelects(init);
      assert options == init + [options[n]];
      CleanOptionsSnoc(init, options[n]);
      var prev, idx, r := KeptRows(init), KeptRows(options), CleanOptions(options);
      forall k | 0 <= k < |idx| ensures r[k] == Trim(options[idx[k]]) {
        if k < |prev| {
          assert init[prev[k]] == options[prev[k]];
        }
      }
    }
  }

  /** A list that is already clean is left unchanged by clean-up. */
  lemma CleanOptionsOfClean(xs: seq<string>)
    requires forall k :: 0 <= k < |xs| ==> xs[k] != [] && IsTrimmed(xs[k])
    ensures CleanOptions(xs) == xs
  {
    forall k | 0 <= k < |xs| ensures TrimEach(xs)[k] == xs[k] {
      TrimOfTrimmed(xs[k]);
    }
    assert TrimEach(xs) == xs;
    KeepNonEmptyOfNonEmpty(xs);
  }

  lemma {:induction false} KeepNonEmptyOfNonEmpty(xs: seq<string>)
    requires forall k :: 0 <= k < |xs| ==> xs[k] != []
    ensures KeepNonEmpty(xs) == xs
  {
    if xs != [] {
      KeepNonEmptyOfNonEmpty(xs[..|xs| - 1]);
    }
  }

  // ---------------------------------------------------------------------
  // Submission
  // ---------------------------------------------------------------------

  /** Validates the form. The question is checked first: a trimmed question
      shorter than five code units is rejected whatever the options are.
      Otherwise fewer than two non-blank options are rejected. Otherwise the
      draft carries the trimmed question and the cleaned options. */
  function Validate(question: string, options: seq<string>): (r: Submission)
    ensures r == Rejected(QuestionTooShort) <==> JsLength(Trim(question)) < MinQuestionLength
    ensures r == Rejected(TooFewOptions) <==>
              JsLength(Trim(question)) >= MinQuestionLength && |CleanOptions(options)| < MinOptionCount
    ensures r.Submitted? ==>
              && r.draft.question == Trim(question)
              && JsLength(r.draft.question) >= MinQuestionLength
              && |r.draft.options| >= MinOptionCount
              && (forall k :: 0 <= k < |r.draft.options| ==>
                    r.draft.options[k] != [] && Trim(r.draft.options[k]) == r.draft.options[k])
  {
    var trimmedQuestion := Trim(question);
    var trimmedOptions := CleanOptions(options);
    if JsLength(trimmedQuestion) < MinQuestionLength then
      Rejected(QuestionTooShort)
    else if |trimmedOptions| < MinOptionCount then
      Rejected(TooFewOptions)
    else
      Submitted(PollDraft(trimmedQuestion, trimmedOptions))
  }

  /** Two different rows hold non-blank text. */
  predicate HasTwoFilledRows(options: seq<string>) {
    exists j1, j2 :: 0 <= j1 < j2 < |options| && Trim(options[j1]) != [] && Trim(options[j2]) != []
  }

  lemma KeptRowsAtLeastTwo(options: seq<string>)
    ensures |KeptRows(options)| >= 2 <==> HasTwoFilledRows(options)
  {
    var idx := KeptRows(options);
    if |idx| >= 2 {
      assert 0 <= idx[0] < idx[1] < |options|;
      assert Trim(options[idx[0]]) != [] && Trim(options[idx[1]]) != [];
    }
    if HasTwoFilledRows(options) {
      var j1, j2 :| 0 <= j1 < j2 < |options| && Trim(options[j1]) != [] && Trim(options[j2]) != [];
      assert j1 in idx && j2 in idx;
      var a :| 0 <= a < |idx| && idx[a] == j1;
      var b :| 0 <= b < |idx| && idx[b] == j2;
      assert a != b;
    }
  }

  /** The form is accepted exactly when the trimmed question is long enough
      and two different rows hold non-blank text. */
  lemma ValidateAcceptsIff(question: string, options: seq<string>)
    ensures Validate(question, options).Submitted? <==>
              JsLength(Trim(question)) >= MinQuestionLength && HasTwoFilledRows(options)
  {
    CleanOptionsSelects(options);
    KeptRowsAtLeastTwo(options);
  }

  /** An accepted draft carries exactly the rows with non-blank text, each
      trimmed, in the order they appear in the form. */
  lemma SubmittedOptionsAreKeptRows(question: string, options: seq<string>)
    requires Validate(question, options).Submitted?
    ensures var d := Validate(question, options).draft;
            && |d.options| == |KeptRows(options)|
            && forall k :: 0 <= k < |d.options| ==> d.options[k] == Trim(options[KeptRows(options)[k]])
  {
    CleanOptionsSelects(options);
  }

  /** Validating an accepted draft again accepts it unchanged. */
  lemma ValidateDraftIsStable(question: string, options: seq<string>)
    requires Validate(question, options).Submitted?
    ensures var d := Validate(question, options).draft;
            Validate(d.question, d.options) == Submitted(d)
  {
    var d := Validate(question, options).draft;
    TrimIdempotent(question);
    CleanOptionsOfClean(d.options);
  }

  /** A whitespace-only row anywhere in the list does not affect submission. */
  lemma BlankRowIgnored(question: string, before: seq<string>, blank: string, after: seq<string>)
    requires AllTrimmable(blank)
    ensures Validate(question, before + [blank] + after) == Validate(question, before + after)
  {
    TrimEmptyIff(blank);
    CleanOptionsAppend(before + [blank], after);
    CleanOptionsAppend(before, [blank]);
    CleanOptionsAppend(before, after);
    assert TrimEach([blank]) == [[]];
    assert KeepNonEmpty([[]]) == KeepNonEmpty([]) + [];
    assert CleanOptions([blank]) == [];
    assert CleanOptions(before) + [] == CleanOptions(before);
  }

  /** Adding a row does not change what submitting would do. */
  lemma AddOptionKeepsSubmission(question: string, options: seq<string>)
    ensures Validate(question, AddOption(options)) == Validate(question, options)
  {
    assert AddOption(options) == options + [""] + [];
    assert options + [] == options;
    BlankRowIgnored(question, options, "", []);
  }

  /** Blanking a row out submits the same as removing it. */
  lemma BlankingIsRemoving(question: string, options: seq<string>, index: int, blank: string)
    requires 0 <= index < |options| && AllTrimmable(blank)
    ensures Validate(question, UpdateOption(options, index, blank))
         == Validate(question, RemoveOption(options, index))
  {
    var before, after := options[..index], options[index + 1..];
    assert UpdateOption(options, index, blank) == before + [blank] + after;
    BlankRowIgnored(question, before, blank, after);
  }

  /** The untouched form never submits: its two rows are blank. */
  lemma InitialFormIsRejected(question: string)
    ensures Validate(question, InitialOptions).Rejected?
  {
    assert CleanOptions(InitialOptions) == [] by {
      assert TrimEach(InitialOptions) == ["", ""];
    }
  }

  /** Worked example: padding and a blank row are cleaned away. */
  lemma ValidateAcceptsExample()
    ensures Validate(" Pick a color ", ["Red", " Blue ", "  "])
         == Submitted(PollDraft("Pick a color", ["Red", "Blue"]))
  {
    assert " Pick a color " == [' '] + "Pick a color" + [' '];
    PaddedTrim("Pick a color");
    assert " Blue " == [' '] + "Blue" + [' '];
    PaddedTrim("Blue");
    TrimOfTrimmed("Red");
    TrimEmptyIff("  ");
    var t := TrimEach(["Red", " Blue ", "  "]);
    assert t == ["Red", "Blue", ""];
    assert KeepNonEmpty(t) == ["Red", "Blue"];
    assert CleanOptions(["Red", " Blue ", "  "]) == ["Red", "Blue"];
  }

  lemma PaddedTrim(s: string)
    requires IsTrimmed(s)
    ensures Trim([' '] + s + [' ']) == s
  {
    TrimUnique([' '], s, [' ']);
  }

  /** Worked example: a question that trims to three characters fails even
      with good options. */
  lemma ValidateShortQuestionExample()
    ensures Validate("Hi? ", ["Red", "Blue"]) == Rejected(QuestionTooShort)
  {
    assert "Hi? " == [] + "Hi?" + [' '];
    TrimUnique([], "Hi?", [' ']);
  }

  /** Worked example: one filled row and one blank row are too few. */
  lemma ValidateTooFewExample()
    ensures Validate("Pick a color", ["Red", " "]) == Rejected(TooFewOptions)
  {
    TrimOfTrimmed("Pick a color");
    TrimOfTrimmed("Red");
    TrimEmptyIff(" ");
    var t := TrimEach(["Red", " "]);
    assert t == ["Red", ""];
    assert KeepNonEmpty(t) == KeepNonEmpty(["Red"]) by {
      assert t[..1] == ["Red"];
    }
    assert |CleanOptions(["Red", " "])| == 1;
  }
}
