/**
  The four request handlers of the quiz, as pure functions of the question bank, the
  request parameters, the progress store and the current UTC date. Each returns the
  page outcome; the submission handler also returns the progress store to be saved.
 */
module Handlers {
  import opened Wrappers
  import opened Decimal
  import opened Bank
  import opened Pages
  import opened ProgressStore
  import opened ProgressSummary
  import opened Score

  const CorrectFeedback: string := "\U{2705} Correct!"
  const IncorrectFeedback: string := "\U{274C} Incorrect."
  /** What the results page always shows in place of the correct count. */
  const HiddenCount: string := "\U{2014}"

  /**
    `GET /quiz?q=<index>`, the index defaulting to 0. An index past the last question
    ends the quiz with a redirect to a zero score; otherwise the question is shown
    with its 1-based number and the bank size.
   */
  function QuizGet(bank: seq<Question>, q: Option<nat>): (o: Outcome)
    ensures var idx := q.GetOr(0);
      && (o.Redirect? <==> idx >= |bank|)
      && (o.Redirect? ==> o.url == ResultsUrl(0, 0))
      && (o.Render? ==> o.view == QuizView(bank[idx], idx + 1, |bank|, idx))
  {
    var idx := q.GetOr(0);
    if idx >= |bank| then Redirect(ResultsUrl(0, 0))
    else Render(QuizView(bank[idx], idx + 1, |bank|, idx))
  }

  /** The submission handler's result: the page, and the progress store as saved. */
  datatype Submission = Submission(outcome: Outcome, progress: Progress)

  /**
    `POST /quiz` with `index` and `selected_option`. An out-of-range index sends the
    user back to the quiz and touches nothing. Otherwise the answer is graded, today's
    count goes up by one whatever the grade, and the user gets either the feedback
    page pointing at the next question or, after the last question, the results page
    with the "not computed" correct count -1.
   */
  function QuizPost(bank: seq<Question>, index: int, selected: int, progress: Progress, today: string): (r: Submission)
    requires 0 <= index < |bank| ==> bank[index].WellFormed()
    ensures !(0 <= index < |bank|) ==> r.outcome == Redirect(QuizStart) && r.progress == progress
    ensures 0 <= index < |bank| ==> IncrementedOn(progress, r.progress, today)
    ensures 0 <= index < |bank| && index + 1 >= |bank| ==> r.outcome == Redirect(ResultsUrl(|bank|, -1))
    ensures 0 <= index < |bank| && index + 1 < |bank| ==>
      && r.outcome.Render? && r.outcome.view.FeedbackView?
      && r.outcome.view.nextIndex == index + 1
      && r.outcome.view.correctAnswer == bank[index].options[bank[index].answerIndex]
      && r.outcome.view.explanation == bank[index].ExplanationText()
      && (r.outcome.view.feedback == CorrectFeedback <==> selected == bank[index].answerIndex)
      && (r.outcome.view.feedback == IncorrectFeedback <==> selected != bank[index].answerIndex)
  {
    if index < 0 || index >= |bank| then
      Submission(Redirect(QuizStart), progress)
    else
      var q := bank[index];
      var isCorrect := selected == q.answerIndex;
      var saved := RecordAnswer(progress, today);
      var feedback := if isCorrect then CorrectFeedback else IncorrectFeedback;
      var nextIndex := index + 1;
      if nextIndex >= |bank| then
        Submission(Redirect(ResultsUrl(|bank|, -1)), saved)
      else
        Submission(Render(FeedbackView(feedback, q.CorrectAnswer(), q.ExplanationText(), nextIndex)), saved)
  }

  /**
    `GET /results?total=<int>&correct=<int>`, defaulting to `total=0, correct=-1`.
    The displayed total is re-read from the bank and the displayed correct count is
    always a dash; only the score uses the parameters.
   */
  function ResultsPage(bank: seq<Question>, total: Option<int>, correct: Option<int>): (o: Outcome)
    ensures o.Render? && o.view.ResultsView?
    ensures o.view.total == |bank| && o.view.correct == HiddenCount
    ensures correct.GetOr(-1) < 0 ==> o.view.score == Placeholder
    ensures var c, s := correct.GetOr(-1), o.view.score;
      c >= 0 ==>
        && 2 <= |s| && s[|s| - 1] == '%'
        && ParseNat(s[..|s| - 1]).Some?
        && NearestEven(100 * c, Divisor(total.GetOr(0)), ParseNat(s[..|s| - 1]).value)
        && (s[0] == '0' ==> |s| == 2)
  {
    Render(ResultsView(|bank|, HiddenCount, ScoreText(total.GetOr(0), correct.GetOr(-1))))
  }

  /** `GET /progress`: the grand total and the entries by ascending date. */
  method ProgressPage(progress: Progress) returns (o: Outcome)
    ensures o.Render? && o.view.ProgressView?
    ensures o.view.totalAnswered == Sum(progress)
    ensures progress == map[] ==> o.view.totalAnswered == 0
    ensures StrictlySorted(o.view.items) && ListsEntries(o.view.items, progress)
    ensures |o.view.items| == |progress|
  {
    var total, items := Summarize(progress);
    o := Render(ProgressView(total, items));
  }
}
