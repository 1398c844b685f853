/**
  What a handler hands back once the web framework is stripped away: either a
  302 redirect to a location, or a template rendered with a set of fields.
 */
module Pages {
  import opened Wrappers
  import opened Decimal
  import opened Bank

  /** The two redirect targets the handlers use. */
  datatype Url =
    | QuizStart
    | ResultsUrl(total: int, correct: int)

  /** One constructor per template, carrying the fields the handler passes it. */
  datatype View =
    | QuizView(question: Question, questionNumber: int, totalQuestions: int, index: int)
    | FeedbackView(feedback: string, correctAnswer: string, explanation: string, nextIndex: int)
    | ResultsView(total: int, correct: string, score: string)
    | ProgressView(totalAnswered: nat, items: seq<(string, nat)>)

  datatype Outcome =
    | Redirect(url: Url)
    | Render(view: View)

  const QuizPath: string := "/quiz"
  const ResultsPrefix: string := "/results?total="
  const CorrectKey: string := "&correct="

  /** The location header text of a redirect. */
  function Href(u: Url): (s: string)
    ensures u.QuizStart? ==> s == QuizPath
    ensures u.ResultsUrl? ==> |ResultsPrefix| < |s| && s[..|ResultsPrefix|] == ResultsPrefix
  {
    match u
    case QuizStart => QuizPath
    case ResultsUrl(total, correct) =>
      ResultsPrefix + IntToString(total) + CorrectKey + IntToString(correct)
  }

  /** The position of the first `c` in `s`, if any. */
  function IndexOf(s: string, c: char): (r: Option<nat>)
    ensures r.Some? ==> r.value < |s| && s[r.value] == c && c !in s[..r.value]
    ensures r.None? ==> c !in s
  {
    if s == [] then None
    else if s[0] == c then Some(0)
    else
      match IndexOf(s[1..], c)
      case Some(k) => assert s[..k + 1] == [s[0]] + s[1..][..k]; Some(k + 1)
      case None => None
  }

  /**
    Reads back a location written by `Href`, recovering the target and the numerals
    `Href` wrote for `total` and `correct`.
   */
  function ParseHref(s: string): Option<Url> {
    if s == QuizPath then Some(QuizStart)
    else if |ResultsPrefix| <= |s| && s[..|ResultsPrefix|] == ResultsPrefix then
      var rest := s[|ResultsPrefix|..];
      match IndexOf(rest, '&')
      case None => None
      case Some(k) =>
        var tail := rest[k..];
        if |CorrectKey| <= |tail| && tail[..|CorrectKey|] == CorrectKey then
          match (ParseInt(rest[..k]), ParseInt(tail[|CorrectKey|..]))
          case (Some(t), Some(c)) => Some(ResultsUrl(t, c))
          case _ => None
        else None
    else None
  }

  lemma NumeralHasNoAmpersand(i: int)
    ensures '&' !in IntToString(i)
  {
    var s := IntToString(i);
    var digits := if i < 0 then NatToString(-i) else NatToString(i);
    assert s == (if i < 0 then "-" else "") + digits;
  }

  /** Every redirect location reads back as the same target. */
  lemma HrefRoundTrip(u: Url)
    ensures ParseHref(Href(u)) == Some(u)
  {
    if u.ResultsUrl? {
      var t, c := IntToString(u.total), IntToString(u.correct);
      var s := Href(u);
      assert s == ResultsPrefix + t + CorrectKey + c;
      assert s != QuizPath by {
        assert s[1] != QuizPath[1];
      }
      var rest := s[|ResultsPrefix|..];
      assert rest == t + (CorrectKey + c);
      NumeralHasNoAmpersand(u.total);
      assert rest[..|t|] == t;
      assert rest[|t|] == '&';
      var k := IndexOf(rest, '&');
      assert k == Some(|t|);
      var tail := rest[|t|..];
      assert tail == CorrectKey + c;
      assert tail[..|CorrectKey|] == CorrectKey;
      assert tail[|CorrectKey|..] == c;
      IntToStringRoundTrip(u.total);
      IntToStringRoundTrip(u.correct);
    }
  }
}
