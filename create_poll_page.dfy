/**
  The create-poll page as a stateful component: the question being typed,
  the option rows, the error banner, and the handlers the page wires to its
  inputs and buttons. Each handler's effect on the rows is the matching
  function of module CreatePoll; submitting validates with
  CreatePoll.Validate.
 */
module CreatePollPage {
  import opened JsText
  import CreatePoll

  datatype Option<T> = None | Some(value: T)

  class CreatePollForm {
    var question: string
    var options: seq<string>
    /** The message in the error banner, if one is shown. */
    var error: Option<string>

    /** The page never shows fewer than two option rows. */
    ghost predicate Valid()
      reads this
    {
      |options| >= CreatePoll.MinOptionCount
    }

    /** A fresh page: empty question, two blank rows, no banner. */
    constructor ()
      ensures Valid()
      ensures question == "" && options == CreatePoll.InitialOptions && error == None
    {
      question := "";
      options := CreatePoll.InitialOptions;
      error := None;
    }

    /** Typing into the question field. */
    method SetQuestion(text: string)
      requires Valid()
      modifies this
      ensures Valid()
      ensures question == text && options == old(options) && error == old(error)
    {
      question := text;
    }

    /** Typing into option row `index`. */
    method UpdateOption(index: int, value: string)
      requires Valid()
      modifies this
      ensures Valid()
      ensures options == CreatePoll.UpdateOption(old(options), index, value)
      ensures question == old(question) && error == old(error)
    {
      options := CreatePoll.UpdateOption(options, index, value);
    }

    /** The "Add option" button. */
    method AddOption()
      requires Valid()
      modifies this
      ensures Valid()
      ensures options == CreatePoll.AddOption(old(options))
      ensures question == old(question) && error == old(error)
    {
      options := CreatePoll.AddOption(options);
    }

    /** The "Remove" button of row `index`. The page renders that button
        only while there are more than two rows, so it can be pressed only
        then; afterwards at least two rows remain. */
    method RemoveOption(index: int)
      requires Valid() && |options| > CreatePoll.MinOptionCount
      modifies this
      ensures Valid()
      ensures options == CreatePoll.RemoveOption(old(options), index)
      ensures question == old(question) && error == old(error)
    {
      options := CreatePoll.RemoveOption(options, index);
    }

    /** Submitting the form. The banner is cleared; then the question is
        checked, then the options; the first failing check puts its message
        in the banner and nothing is sent. Otherwise the draft is sent and
        the banner stays clear. */
    method HandleSubmit() returns (sent: Option<CreatePoll.PollDraft>)
      requires Valid()
      modifies this
      ensures Valid()
      ensures question == old(question) && options == old(options)
      ensures match CreatePoll.Validate(question, options)
                case Rejected(e) => error == Some(e.Message()) && sent == None
                case Submitted(d) => error == None && sent == Some(d)
    {
      error := None;
      var trimmedQuestion := Trim(question);
      var trimmedOptions := CreatePoll.CleanOptions(options);
      if JsLength(trimmedQuestion) < CreatePoll.MinQuestionLength {
        error := Some(CreatePoll.FormError.QuestionTooShort.Message());
        return None;
      }
      if |trimmedOptions| < CreatePoll.MinOptionCount {
        error := Some(CreatePoll.FormError.TooFewOptions.Message());
        return None;
      }
      sent := Some(CreatePoll.PollDraft(trimmedQuestion, trimmedOptions));
    }
  }
}
