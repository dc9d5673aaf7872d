# PulseRoom create-poll form, modelled in Dafny

PulseRoom is a live-polling web client. Its only self-contained logic is the
create-poll page. There the user types a question and edits a list of
option rows. Submitting validates the input before the poll is sent to the
poll service. This project models that page:

- `js_text.dfy` (module `JsText`): the two ECMAScript string primitives the
  page relies on. `Trim` is `String.prototype.trim`, the TrimString
  operation of ECMA-262. It strips WhiteSpace and LineTerminator code points
  (TAB, VT, FF, ZWNBSP, the Unicode Zs category, LF, CR, LS, PS) from both
  ends. `JsLength` is `.length`, which counts UTF-16 code units, for
  well-formed text (see "## Left out" for unpaired surrogates). `Trim` is
  proved to be the unique "trimmable prefix, trimmed middle, trimmable
  suffix" split. It is also proved idempotent, and empty exactly on
  all-whitespace input.
- `create_poll.dfy` (module `CreatePoll`): the page's logic as pure
  functions.
  - Three list edits: `UpdateOption`, `AddOption`, `RemoveOption`.
  - The option clean-up `CleanOptions`: trim each row, then drop the empty
    ones.
  - The validator `Validate`. It yields either one of the two fixed error
    messages or the `PollDraft` that would be sent. The question is checked
    before the options.
  - Lemmas about these functions: clean-up is an order-preserving selection
    of exactly the non-blank rows; acceptance holds iff the question is long
    enough and two rows are filled; an accepted draft passes validation
    again unchanged; blank rows never change the outcome.
- `create_poll_page.dfy` (module `CreatePollPage`): the page's state as a
  class. It holds the question, the rows and the error banner. Each handler
  is a method whose postcondition ties the new state to the functions
  above. The object invariant `Valid()` says there are always at least two
  rows.

The page's question check compares `.length` with 5. `.length` counts UTF-16
code units, not characters. So `JsLength` counts a code point outside the
Basic Multilingual Plane as two, as JavaScript does. The message still says
"5 characters".

The page does not deduplicate option texts: it only trims them and drops the
empty ones, so two rows reading "Red" are both submitted. The model does the
same.

## Model

| member | source | states |
|---|---|---|
| `JsText.Trim` | src/pages/CreatePoll.tsx:28 | the trimmed string neither starts nor ends with an ECMAScript whitespace or line terminator, and is no longer than the input |
| `JsText.TrimStartSpec` | src/pages/CreatePoll.tsx:28 | stripping the front keeps a suffix, removes only whitespace, and stops at the first non-whitespace code point |
| `JsText.TrimEndSpec` | src/pages/CreatePoll.tsx:28 | stripping the end keeps a prefix, removes only whitespace, and stops at the last non-whitespace code point |
| `JsText.TrimIsSlice` | src/pages/CreatePoll.tsx:28 | the result of trim is a contiguous slice of the input, with only whitespace cut away on either side |
| `JsText.TrimUnique` | src/pages/CreatePoll.tsx:28 | for any split of a string into whitespace, a trimmed middle and whitespace, trim returns exactly that middle |
| `JsText.TrimOfTrimmed` | src/pages/CreatePoll.tsx:28 | a string without leading or trailing whitespace is its own trim |
| `JsText.TrimIdempotent` | src/pages/CreatePoll.tsx:28-29 | trimming twice gives the same result as trimming once |
| `JsText.TrimEmptyIff` | src/pages/CreatePoll.tsx:29 | trim gives the empty string exactly when every code point is whitespace, i.e. exactly the rows `filter(Boolean)` drops |
| `JsText.JsLength` | src/pages/CreatePoll.tsx:31 | `.length` of a single code point is 1 in the Basic Multilingual Plane and 2 above it; any string has between one and two units per code point, exactly one each for BMP text, and zero only when empty |
| `JsText.JsLengthAppend` | src/pages/CreatePoll.tsx:31 | `.length` of a concatenation is the sum of the lengths, so with the single-code-point case it fixes the count of every string |
| `JsText.JsLengthSupplementaryExample` | src/pages/CreatePoll.tsx:31 | three emoji outside the BMP have `.length` 6, not 3 |
| `CreatePoll.UpdateOption` | src/pages/CreatePoll.tsx:12-14 | same length; the entry at `index` becomes `value` and every other entry is unchanged; an out-of-range index changes nothing |
| `CreatePoll.UpdateUndoesUpdate` | src/pages/CreatePoll.tsx:12-14 | writing the old value back at the same index restores the list |
| `CreatePoll.AddOption` | src/pages/CreatePoll.tsx:16-18 | length grows by one, the existing entries are kept as a prefix, and the new last entry is `""` |
| `CreatePoll.RemoveOption` | src/pages/CreatePoll.tsx:20-22 | for an in-range index: one entry shorter, entries before `index` unchanged, entries after it shifted down by one in order; otherwise no change |
| `CreatePoll.RemoveOptionMultiset` | src/pages/CreatePoll.tsx:20-22 | removal loses exactly the removed entry: the result plus that entry is the original multiset |
| `CreatePoll.RemoveUndoesAdd` | src/pages/CreatePoll.tsx:16-22 | removing the row that "Add option" appended gives back the original list |
| `CreatePoll.TrimEachSpec` | src/pages/CreatePoll.tsx:29 | `options.map((option) => option.trim())` keeps the row count, entry i is the trim of row i, and it is empty exactly when row i is all whitespace |
| `CreatePoll.CleanOptionsSnoc` | src/pages/CreatePoll.tsx:29 | one more row adds its trimmed text at the end of the processed options if that text is non-empty, and nothing otherwise |
| `CreatePoll.FormErrorMessages` | src/pages/CreatePoll.tsx:31-39 | the banner texts are exactly "Question must be at least 5 characters." and "Please provide at least two options.", and they differ |
| `CreatePoll.KeepNonEmpty` | src/pages/CreatePoll.tsx:29 | `filter(Boolean)` on strings keeps only non-empty entries drawn from the input and never lengthens it |
| `CreatePoll.CleanOptions` | src/pages/CreatePoll.tsx:29 | the processed options are no more than the rows, and each is non-empty with no leading or trailing whitespace |
| `CreatePoll.KeptRows` | src/pages/CreatePoll.tsx:29 | the strictly increasing positions of exactly those rows whose trimmed text is non-empty |
| `CreatePoll.CleanOptionsSelects` | src/pages/CreatePoll.tsx:29 | the k-th processed option is the trimmed text of the k-th kept row, so the result is the non-blank rows, trimmed, in their original order |
| `CreatePoll.CleanOptionsAppend` | src/pages/CreatePoll.tsx:29 | processing distributes over concatenation of row lists |
| `CreatePoll.CleanOptionsOfClean` | src/pages/CreatePoll.tsx:29 | a list of non-empty, already-trimmed entries is left unchanged by processing |
| `CreatePoll.Validate` | src/pages/CreatePoll.tsx:28-46 | rejected with the question error iff the trimmed question is under 5 code units; rejected with the options error iff the question passes and fewer than 2 rows survive; an accepted draft has the trimmed question (length at least 5) and at least 2 options, each non-empty and equal to its own trim |
| `CreatePoll.KeptRowsAtLeastTwo` | src/pages/CreatePoll.tsx:36 | at least two rows survive clean-up iff two different rows have non-blank text |
| `CreatePoll.ValidateAcceptsIff` | src/pages/CreatePoll.tsx:31-46 | the form is submitted iff the trimmed question is at least 5 code units long and two different rows have non-blank text |
| `CreatePoll.SubmittedOptionsAreKeptRows` | src/pages/CreatePoll.tsx:29-46 | the submitted options are exactly the non-blank rows, trimmed, in form order |
| `CreatePoll.ValidateDraftIsStable` | src/pages/CreatePoll.tsx:28-46 | validating a submitted draft again accepts it unchanged |
| `CreatePoll.BlankRowIgnored` | src/pages/CreatePoll.tsx:29 | inserting a whitespace-only row anywhere leaves the submission outcome unchanged |
| `CreatePoll.AddOptionKeepsSubmission` | src/pages/CreatePoll.tsx:16-39 | pressing "Add option" never changes what submitting does |
| `CreatePoll.BlankingIsRemoving` | src/pages/CreatePoll.tsx:12-29 | clearing a row to whitespace submits the same as removing that row |
| `CreatePoll.InitialFormIsRejected` | src/pages/CreatePoll.tsx:7-39 | with the initial two blank rows, submission is always rejected |
| `CreatePoll.ValidateAcceptsExample` | src/pages/CreatePoll.tsx:28-46 | " Pick a color " with rows "Red", " Blue ", "  " submits "Pick a color" with ["Red", "Blue"] |
| `CreatePoll.ValidateShortQuestionExample` | src/pages/CreatePoll.tsx:31-34 | "Hi? ", which trims to three code units, is rejected with the question error even though the options are fine |
| `CreatePoll.ValidateTooFewExample` | src/pages/CreatePoll.tsx:36-39 | one filled row plus a blank one is rejected with the options error |
| `CreatePollPage.CreatePollForm.constructor` | src/pages/CreatePoll.tsx:6-8 | a fresh page has an empty question, two blank rows and no error banner |
| `CreatePollPage.CreatePollForm.SetQuestion` | src/pages/CreatePoll.tsx:72 | typing replaces the question and nothing else |
| `CreatePollPage.CreatePollForm.UpdateOption` | src/pages/CreatePoll.tsx:12-14 | the rows become `UpdateOption` of the old rows; question and banner unchanged; at least two rows remain |
| `CreatePollPage.CreatePollForm.AddOption` | src/pages/CreatePoll.tsx:16-18 | the rows become `AddOption` of the old rows; question and banner unchanged |
| `CreatePollPage.CreatePollForm.RemoveOption` | src/pages/CreatePoll.tsx:20-22 | callable only while more than two rows exist, because the button is rendered only then (line 87); the rows become `RemoveOption` of the old rows, so at least two remain |
| `CreatePollPage.CreatePollForm.HandleSubmit` | src/pages/CreatePoll.tsx:24-46 | the banner shows the message of the first failing check and nothing is sent, or the banner is clear and exactly the validated draft is sent; question and rows unchanged; at least two rows remain |

## Left out

- JsText.Trim: a JavaScript string may contain an unpaired surrogate, which trim never strips. A Dafny string holds only Unicode scalar values, so such strings cannot be written in the model; it covers well-formed UTF-16 text only.
- JsText.JsLength: likewise, an unpaired surrogate counts as one code unit in `.length` but cannot be written in the model; the count is exact for well-formed UTF-16 text only.
- The asynchronous tail of submission (src/pages/CreatePoll.tsx:41-53) is not modelled. That covers the `createPoll` HTTP call, navigation to the new poll, and the `isSubmitting` flag that disables the button. A successful validation is modelled as the draft being sent (the result of `HandleSubmit`).
- The error banner showing the message of a failed `createPoll` request (src/pages/CreatePoll.tsx:48-50) is not modelled: that message comes from the network.
- JSX rendering is not modelled, except for one rule. The page shows a Remove button only while there are more than two rows, and that rule is the precondition of `CreatePollForm.RemoveOption`.
- Indices are Dafny integers. A JavaScript index that is not an integer matches no row; the model has no such index.
- src/pages/PollRoom.tsx, src/lib/api.ts, src/lib/voter.ts and src/App.tsx are not part of this model. They are socket subscription, HTTP plumbing, browser storage with random ids, and routing. The percentage display in PollRoom uses floating-point division and rounding.
- Vote counting, one vote per voter, and the live broadcast of poll snapshots run on the poll server. Its code is not part of this model.
