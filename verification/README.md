# Quiz request handling — a Dafny model

This project models the request-handling core of a single-user multiple-choice quiz
web application (`salesforce_app/main.py`): showing a question by index, grading a
submitted answer, counting answers per UTC day in a progress store, summarising that
store, and formatting the score on the results page.

Each handler becomes a function of the question bank, the request parameters, the
progress map and today's date. The progress page is a method instead, and its contract
fixes its result. The handler's reply is an `Outcome`: either
`Redirect(url)` (a 302) or `Render(view)`, where the `View` constructor names the
template and carries the fields the handler hands to it. The submission handler also
returns the progress map that the source writes back to disk.

Modules:

- `Wrappers`: `Option`, used for absent query parameters and failed parses.
- `Decimal`: decimal text for integers (`str(n)`), with parsers and round-trip lemmas.
- `DateOrder`: Python's `<` on strings. It is proved a strict total order. On
  `YYYY-MM-DD` dates it is proved to agree with calendar order.
- `Bank`: the `Question` record and the bank invariant `0 <= answer_index < |options|`.
- `Pages`: the `Url`, `View` and `Outcome` types, redirect locations as text, and
  reading them back.
- `ProgressStore`: the per-day counter update and the sum of all counts.
- `ProgressSummary`: the progress page's sorted listing and total.
- `Score`: the results page's score, with Python's half-to-even rounding done on exact
  integers.
- `Handlers`: `quiz_get`, `quiz_post`, `results` and `progress`.
- `Session`: the handlers used together. It covers a run of submissions, the feedback
  page's "next" link, and following redirects.

Behaviour of the code worth noting:

- The code never checks that a question has at least two options; a question needs
  only a valid `answer_index`.
- The results page shows `-` for a hidden score but `—` (an em dash) for the correct
  count.
- Asking for a question past the end redirects with `correct=0`, not a negative
  value. That results page therefore shows the score `0%` (`Session.FollowPastEnd`).
- The progress file is overwritten in place; nothing in the code makes the write atomic.

## Model

| member | source | states |
|---|---|---|
| Handlers.QuizGet | salesforce_app/main.py:36-55 | the index defaults to 0; an index at or past the bank size redirects to results with total 0 and correct 0 and shows no question; otherwise the question at that index is rendered with number index+1, the bank size and the index |
| Handlers.QuizPost | salesforce_app/main.py:57-96 | an index outside [0, bank size) redirects to `/quiz` and leaves the progress map exactly as it was; a valid index adds one to today's count whether or not the answer is right; the feedback says correct exactly when the selected option equals the question's answer index; after the last question it redirects to results with the bank size and correct -1, otherwise it renders feedback with the right option's text, the explanation (empty when absent) and next index index+1 |
| Handlers.ResultsPage | salesforce_app/main.py:98-110 | the displayed total is the bank size, never the supplied total; the displayed correct count is always the dash placeholder; the score is `-` for a negative (or absent) correct count, otherwise digits without a leading zero followed by `%` that read back as the integer nearest to 100*correct/max(total,1), ties to even |
| Handlers.ProgressPage | salesforce_app/main.py:112-124 | the page's total is the sum of all counts, and 0 for an empty store; its items list every entry of the store once, in strictly ascending date order |
| ProgressStore.RecordAnswer | salesforce_app/main.py:74-77 | after a submission today's count is the old count plus one (1 if the day was absent), and every other day keeps its entry or its absence |
| ProgressStore.RecordAnswerTotal | salesforce_app/main.py:76 | one submission raises the sum of all counts by exactly one |
| ProgressStore.RecordAnswerMonotone | salesforce_app/main.py:76 | counts only grow: no day disappears and no count decreases |
| ProgressStore.RecordAnswerFresh | salesforce_app/main.py:76 | on an empty store one submission yields exactly the single entry day: 1 |
| ProgressStore.RecordAnswerTwice | salesforce_app/main.py:76 | two submissions on the same day raise that day's count by two |
| ProgressStore.SumRemove | salesforce_app/main.py:115 | any day's count can be taken out of the total first, so the total does not depend on the order the entries are summed in |
| ProgressSummary.Insert | salesforce_app/main.py:116 | placing an entry with a new date into a date-sorted listing keeps it strictly sorted, adds exactly that entry and keeps all others |
| ProgressSummary.Summarize | salesforce_app/main.py:115-116 | the computed total is the sum of all counts (0 for an empty store); the listing is strictly ascending by date, holds each entry of the store with its count, and has one item per day |
| ProgressSummary.ListingUnique | salesforce_app/main.py:116 | any two strictly date-sorted listings of the same store are equal, so the listing is determined by the store alone |
| ProgressSummary.ListingChronological | salesforce_app/main.py:116 | when every day is a `YYYY-MM-DD` date, the sorted listing is in calendar order |
| ProgressSummary.RecordKeepsIsoKeys | salesforce_app/main.py:75-76 | stamping submissions with `YYYY-MM-DD` dates keeps every key of the store in that form |
| ProgressSummary.SummaryExample | salesforce_app/main.py:115-116 | the store {2024-01-02: 1, 2024-01-01: 3} is listed as [(2024-01-01, 3), (2024-01-02, 1)] with total 4 |
| DateOrder.LessIrreflexive | salesforce_app/main.py:116 | no string sorts before itself |
| DateOrder.LessTransitive | salesforce_app/main.py:116 | string order is transitive |
| DateOrder.LessTotal | salesforce_app/main.py:116 | of two different strings one sorts before the other |
| DateOrder.IsoDateOrder | salesforce_app/main.py:75 | one `YYYY-MM-DD` date sorts before another as a string exactly when it is earlier by year, then month, then day |
| DateOrder.DigitsOrder | salesforce_app/main.py:75 | on digit strings of equal length, string order is numeric order |
| Score.Divisor | salesforce_app/main.py:101 | the divisor max(total, 1) is at least 1 and at least the total, and is one of the two |
| Score.RoundHalfEven | salesforce_app/main.py:101 | the rounded value is within half a unit of n/d, and even when n/d lies exactly halfway |
| Score.NearestEvenUnique | salesforce_app/main.py:101 | at most one integer meets the half-to-even rule, so the displayed percentage is determined |
| Score.ScoreText | salesforce_app/main.py:101 | a negative correct count gives `-`; otherwise the text is a numeral without a leading zero followed by `%`, and the numeral reads back as the rounded percentage |
| Score.ThreeOfFour | salesforce_app/main.py:101 | total 4 and correct 3 give `75%` |
| Score.FullMarks | salesforce_app/main.py:101 | all answers right gives `100%` |
| Decimal.NatToStringRoundTrip | salesforce_app/main.py:101 | the printed numeral of a natural number reads back as that number |
| Decimal.IntToStringRoundTrip | salesforce_app/main.py:85 | a printed integer, negative ones included, reads back as that integer |
| Pages.HrefRoundTrip | salesforce_app/main.py:85 | every redirect location the handlers write reads back as the same target and parameters |
| Session.CursorAgreement | salesforce_app/main.py:83-94 | a valid submission shows feedback exactly when asking for the next index would show a question, and the feedback's next index shows the next question of the bank |
| Session.SubmissionTotal | salesforce_app/main.py:66-77 | the sum of all counts rises by one on a valid submission and is unchanged on a rejected one |
| Session.RunCounts | salesforce_app/main.py:74-77 | answering n questions in a row on one day adds n to that day and to the total and changes no other day |
| Session.RunOutcomes | salesforce_app/main.py:83-94 | in a run of submissions every answer before the last shows feedback pointing at the next question, and the answer to the last question redirects to results with correct -1 |
| Session.FollowRejected | salesforce_app/main.py:66-67 | a rejected submission's redirect lands on the first question, or for an empty bank on a further redirect to results with total 0 and correct 0 |
| Session.FollowCompletion | salesforce_app/main.py:84-85 | finishing the quiz lands on a results page with the bank size, the dash for the correct count and `-` for the score |
| Session.FollowPastEnd | salesforce_app/main.py:40-41 | asking for a question past the end lands on a results page scored `0%` |
| Session.TwoQuestionWalkthrough | salesforce_app/main.py:57-96 | on a two-question bank and an empty store, a right answer to question 0 shows correct feedback with next index 1, any answer to question 1 redirects to results with total 2 and correct -1, and the store ends as {day: 2} |
| DateOrder.Less | salesforce_app/main.py:116 | Python's string order used by `sorted`: a string sorting before another differs from it, and a proper prefix sorts before every extension of it |
| ProgressStore.Count | salesforce_app/main.py:76 | a day's count is its stored count when present and 0 when absent |
| ProgressStore.Sum | salesforce_app/main.py:115 | the total of an empty store is 0, and the total is at least each single day's count |
| Pages.Href | salesforce_app/main.py:85 | the quiz target is written `/quiz` and a results target starts with `/results?total=` |
| Decimal.NatToString | salesforce_app/main.py:101 | the printed numeral is non-empty, all digits, and starts with 0 only for zero |
| Decimal.IntToString | salesforce_app/main.py:85 | the printed integer is non-empty and starts with a minus sign exactly when negative |
| Bank.Question.CorrectAnswer | salesforce_app/main.py:80 | the right answer's text is the option at the question's answer index, and so one of its options |
| Bank.Question.ExplanationText | salesforce_app/main.py:81 | the explanation is the stored one when present and the empty string otherwise |
| Session.Follow | salesforce_app/main.py:85 | following a redirect to `/quiz` shows the quiz page for the default index, and following one to results shows the results page for the same total and correct values |

## Left out

- The web framework is not modelled: the FastAPI app, route decorators, static mount,
  Jinja2 templates, the `home` page and the uvicorn start-up (lines 13-16, 32-34,
  133-135). A handler's reply is modelled as the `Outcome` value.
- Reading the question file and reading and writing the progress file are not modelled
  (lines 18-30). JSON parsing is left out too. The bank and the store are parameters,
  and the store to be saved is part of `QuizPost`'s result.
- `datetime.utcnow().strftime("%Y-%m-%d")` (line 75) is not modelled: the date is the
  `today` parameter.
- `download_progress` (lines 126-131) only creates a file and returns it, so it is
  not modelled.
- The unsynchronised read-modify-write of the progress file is left out. Concurrent
  submissions can lose an increment; the model is single-threaded.
- Score.RoundHalfEven: rounds the exact ratio 100*correct/max(total,1). Python rounds
  the double nearest to that ratio, so the two can differ only for counts too large for
  a double to hold the quotient closely.
- Handlers.QuizGet: the index is a natural number. A negative `q` would make Python
  index from the end of the list; that case is not modelled.
- A `q` query value that is not an integer text makes `int(...)` inside `quiz_get`
  (line 39) raise `ValueError`; that error path is not modelled, and `q` arrives
  already as a number.
- Framework-level request validation is not modelled: non-integer `index`,
  `selected_option`, `total` or `correct` values and missing form fields are rejected
  by the framework before a handler runs.
- Malformed question records are not modelled. The submission handler requires
  `0 <= answer_index < |options|` of the question it grades, and `answer_index` is
  taken to be an integer.
- Saving and reloading the progress file is not modelled, so nothing is stated about a
  store surviving a save followed by a load.
