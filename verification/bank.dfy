/** The question bank: an ordered, read-only list of multiple-choice questions. */
module Bank {
  import opened Wrappers

  /**
    One record of the bank. `explanation` is optional in the stored data; the
    handlers read it with a default of the empty string.
   */
  datatype Question = Question(
    text: string,
    options: seq<string>,
    answerIndex: int,
    explanation: Option<string>)
  {
    /** The data invariant the handlers rely on: the answer index points at an option. */
    predicate WellFormed() {
      0 <= answerIndex < |options|
    }

    /** The text of the right option. */
    function CorrectAnswer(): (a: string)
      requires WellFormed()
      ensures a in options
      ensures a == options[answerIndex]
    {
      options[answerIndex]
    }

    /** The explanation, or the empty string when the record has none. */
    function ExplanationText(): (e: string)
      ensures explanation.Some? ==> e == explanation.value
      ensures explanation.None? ==> e == ""
    {
      explanation.GetOr("")
    }
  }

  predicate ValidBank(bank: seq<Question>) {
    forall i :: 0 <= i < |bank| ==> bank[i].WellFormed()
  }
}
