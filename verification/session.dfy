/**
  Properties of the handlers used together: a user answering questions in turn, and
  a browser following the redirects the handlers issue.
 */
module Session {
  import opened Wrappers
  import opened Bank
  import opened Pages
  import opened ProgressStore
  import opened Score
  import opened Handlers

  /** Submitting `answers[k]` to question `start + k`, for each `k` in turn. */
  function Run(bank: seq<Question>, start: nat, answers: seq<int>, p: Progress, today: string): (r: (seq<Outcome>, Progress))
    requires ValidBank(bank)
    ensures |r.0| == |answers|
    decreases |answers|
  {
    if answers == [] then ([], p)
    else
      var s := QuizPost(bank, start, answers[0], p, today);
      var rest := Run(bank, start + 1, answers[1..], s.progress, today);
      ([s.outcome] + rest.0, rest.1)
  }

  /** The feedback page's "next" link leads to the next question, never past the end. */
  lemma CursorAgreement(bank: seq<Question>, index: int, selected: int, p: Progress, today: string)
    requires ValidBank(bank) && 0 <= index < |bank|
    ensures var o := QuizPost(bank, index, selected, p, today).outcome;
      && (o.Redirect? <==> QuizGet(bank, Some(index + 1)).Redirect?)
      && (o.Render? ==> QuizGet(bank, Some(o.view.nextIndex)).view.question == bank[index + 1])
  {
  }

  /** A valid submission adds exactly one answer to the grand total; an invalid one adds none. */
  lemma SubmissionTotal(bank: seq<Question>, index: int, selected: int, p: Progress, today: string)
    requires ValidBank(bank)
    ensures var saved := QuizPost(bank, index, selected, p, today).progress;
      Sum(saved) == Sum(p) + (if 0 <= index < |bank| then 1 else 0)
  {
    if 0 <= index < |bank| {
      RecordAnswerTotal(p, today);
    }
  }

  /** The store after a run: `RecordAnswer` applied once per submission. */
  lemma {:induction false} RunRecords(bank: seq<Question>, start: nat, answers: seq<int>, p: Progress, today: string)
    requires ValidBank(bank) && start + |answers| <= |bank|
    ensures Run(bank, start, answers, p, today).1 == RecordTimes(p, today, |answers|)
    decreases |answers|
  {
    if answers != [] {
      var s := QuizPost(bank, start, answers[0], p, today);
      assert s.progress == RecordAnswer(p, today);
      RunRecords(bank, start + 1, answers[1..], s.progress, today);
      assert Run(bank, start, answers, p, today).1 == Run(bank, start + 1, answers[1..], s.progress, today).1;
      RecordTimesShift(p, today, |answers| - 1);
    }
  }

  /** `n` submissions on `day`, one after another. */
  function RecordTimes(p: Progress, day: string, n: nat): Progress {
    if n == 0 then p else RecordAnswer(RecordTimes(p, day, n - 1), day)
  }

  lemma {:induction false} RecordTimesShift(p: Progress, day: string, n: nat)
    ensures RecordTimes(RecordAnswer(p, day), day, n) == RecordTimes(p, day, n + 1)
  {
    if n > 0 {
      RecordTimesShift(p, day, n - 1);
    }
  }

  /** `n` submissions on one day add `n` to that day and to the total, and nothing elsewhere. */
  lemma {:induction false} RecordTimesCounts(p: Progress, day: string, n: nat)
    ensures var final := RecordTimes(p, day, n);
      && Count(final, day) == Count(p, day) + n
      && Sum(final) == Sum(p) + n
      && forall d :: d != day ==> Count(final, d) == Count(p, d)
  {
    if n > 0 {
      RecordTimesCounts(p, day, n - 1);
      RecordAnswerTotal(RecordTimes(p, day, n - 1), day);
    }
  }

  /**
    Answering questions `start .. start + |answers| - 1` in one day adds one answer per
    submission to that day and to the grand total, and leaves every other day alone.
   */
  lemma RunCounts(bank: seq<Question>, start: nat, answers: seq<int>, p: Progress, today: string)
    requires ValidBank(bank) && start + |answers| <= |bank|
    ensures var final := Run(bank, start, answers, p, today).1;
      && Count(final, today) == Count(p, today) + |answers|
      && Sum(final) == Sum(p) + |answers|
      && forall d :: d != today ==> Count(final, d) == Count(p, d)
  {
    RunRecords(bank, start, answers, p, today);
    RecordTimesCounts(p, today, |answers|);
  }

  /**
    What a valid submission to question `i` leads to: feedback pointing at question
    `i + 1` while there is one, the results with `correct = -1` after the last.
   */
  predicate StepOutcome(bank: seq<Question>, i: int, o: Outcome) {
    if i + 1 < |bank|
    then o.Render? && o.view.FeedbackView? && o.view.nextIndex == i + 1
    else o == Redirect(ResultsUrl(|bank|, -1))
  }

  /** Each submission of a run leads where `StepOutcome` says. */
  lemma {:induction false} RunOutcomes(bank: seq<Question>, start: nat, answers: seq<int>, p: Progress, today: string)
    requires ValidBank(bank) && start + |answers| <= |bank|
    ensures forall k :: 0 <= k < |answers| ==> StepOutcome(bank, start + k, Run(bank, start, answers, p, today).0[k])
    decreases |answers|
  {
    if answers != [] {
      var s := QuizPost(bank, start, answers[0], p, today);
      RunOutcomes(bank, start + 1, answers[1..], s.progress, today);
      var outs := Run(bank, start, answers, p, today).0;
      var rest := Run(bank, start + 1, answers[1..], s.progress, today).0;
      assert outs == [s.outcome] + rest;
      assert StepOutcome(bank, start, outs[0]);
      forall k | 0 < k < |answers|
        ensures StepOutcome(bank, start + k, outs[k])
      {
        assert outs[k] == rest[k - 1];
        assert StepOutcome(bank, start + 1 + (k - 1), rest[k - 1]);
      }
    }
  }

  /** What the browser shows after following a redirect issued by a handler. */
  function Follow(bank: seq<Question>, u: Url): (r: Option<Outcome>)
    ensures u.QuizStart? ==> r == Some(QuizGet(bank, None))
    ensures u.ResultsUrl? ==> r == Some(ResultsPage(bank, Some(u.total), Some(u.correct)))
  {
    HrefRoundTrip(u);
    match ParseHref(Href(u))
    case Some(QuizStart) => Some(QuizGet(bank, None))
    case Some(ResultsUrl(t, c)) => Some(ResultsPage(bank, Some(t), Some(c)))
    case None => None
  }

  /**
    A rejected submission lands on the first question; for an empty bank it lands on
    a further redirect to the results.
   */
  lemma FollowRejected(bank: seq<Question>, index: int, selected: int, p: Progress, today: string)
    requires ValidBank(bank) && !(0 <= index < |bank|)
    ensures var o := QuizPost(bank, index, selected, p, today).outcome;
      && o.Redirect?
      && (|bank| > 0 ==> Follow(bank, o.url) == Some(Render(QuizView(bank[0], 1, |bank|, 0))))
      && (|bank| == 0 ==> Follow(bank, o.url) == Some(Redirect(ResultsUrl(0, 0))))
  {
  }

  /** Finishing the quiz lands on results with the bank size and a dash for the score. */
  lemma FollowCompletion(bank: seq<Question>, selected: int, p: Progress, today: string)
    requires ValidBank(bank) && |bank| > 0
    ensures var o := QuizPost(bank, |bank| - 1, selected, p, today).outcome;
      && o.Redirect?
      && Follow(bank, o.url) == Some(Render(ResultsView(|bank|, HiddenCount, Placeholder)))
  {
  }

  /** Asking for a question past the end lands on results scored `0%`. */
  lemma FollowPastEnd(bank: seq<Question>, idx: nat)
    requires idx >= |bank|
    ensures var o := QuizGet(bank, Some(idx));
      && o.Redirect?
      && Follow(bank, o.url) == Some(Render(ResultsView(|bank|, HiddenCount, "0%")))
  {
    assert RoundHalfEven(0, 1) == 0;
    assert Decimal.NatToString(0) == "0";
    assert ScoreText(0, 0) == "0%";
  }

  /** Two questions answered in a row on a fresh store: feedback, then results. */
  lemma TwoQuestionWalkthrough()
    ensures var q0 := Question("Q0", ["a", "b"], 0, None);
      var q1 := Question("Q1", ["c", "d"], 1, Some("why"));
      var r := Run([q0, q1], 0, [0, 0], map[], "2024-01-01");
      && r.0[0] == Render(FeedbackView(CorrectFeedback, "a", "", 1))
      && r.0[1] == Redirect(ResultsUrl(2, -1))
      && r.1 == map["2024-01-01" := 2]
  {
  }
}
