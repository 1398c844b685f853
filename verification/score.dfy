/**
  The score line of the results page: `"-"` when the correct count is a negative
  sentinel, otherwise `round(100 * correct / max(total, 1))` followed by `%`.
  Python's `round` rounds half to even; the percentage is computed here on exact
  integers rather than on a float.
 */
module Score {
  import opened Decimal

  const Placeholder: string := "-"

  /** `max(total, 1)`: the divisor is never zero. */
  function Divisor(total: int): (d: nat)
    ensures d >= 1 && d >= total
    ensures d == 1 || d == total
  {
    if total > 1 then total else 1
  }

  /**
    `p` is an integer nearest to `n / d`, and the even one when `n / d` lies exactly
    halfway between two integers.
   */
  ghost predicate NearestEven(n: int, d: int, p: int)
    requires d > 0
  {
    var err := 2 * (p * d - n);
    && -d <= err <= d
    && ((err == d || err == -d) ==> p % 2 == 0)
  }

  /** `round(n / d)` with Python's half-to-even rule. */
  function RoundHalfEven(n: nat, d: nat): (p: nat)
    requires d > 0
    ensures NearestEven(n, d, p)
  {
    var q, r := n / d, n % d;
    assert n == q * d + r;
    assert (q + 1) * d == q * d + d;
    if 2 * r < d then q
    else if 2 * r > d then q + 1
    else if q % 2 == 0 then q
    else q + 1
  }

  lemma MulDiff(p: int, p': int, d: int)
    ensures p * d - p' * d == (p - p') * d
  {
  }

  lemma MulBound(k: int, d: int)
    requires k >= 1 && d > 0
    ensures k * d >= d
    ensures k >= 2 ==> k * d >= 2 * d
  {
    assert k * d == (k - 1) * d + d;
    if k >= 2 {
      assert (k - 1) * d == (k - 2) * d + d;
    }
  }

  /** Two candidates within half a unit of `n / d` differ by at most one, at the two ends. */
  lemma CandidateGap(n: int, d: int, p: int, p': int)
    requires d > 0 && p > p'
    requires -d <= 2 * (p * d - n) <= d && -d <= 2 * (p' * d - n) <= d
    ensures p == p' + 1
    ensures 2 * (p * d - n) == d && 2 * (p' * d - n) == -d
  {
    MulDiff(p, p', d);
    MulBound(p - p', d);
  }

  /** There is only one nearest-even integer, so the rule fixes the displayed number. */
  lemma NearestEvenUnique(n: int, d: int, p: int, p': int)
    requires d > 0
    requires NearestEven(n, d, p) && NearestEven(n, d, p')
    ensures p == p'
  {
    if p > p' {
      CandidateGap(n, d, p, p');
    } else if p' > p {
      CandidateGap(n, d, p', p);
    }
  }

  /** When the division is exact, the displayed number is the exact quotient. */
  lemma RoundExact(n: nat, d: nat)
    requires d > 0 && n % d == 0
    ensures RoundHalfEven(n, d) == n / d
  {
  }

  /** The score field of the results page. */
  function ScoreText(total: int, correct: int): (s: string)
    ensures correct < 0 ==> s == Placeholder
    ensures correct >= 0 ==>
      && 2 <= |s| && s[|s| - 1] == '%'
      && ParseNat(s[..|s| - 1]).Some?
      && NearestEven(100 * correct, Divisor(total), ParseNat(s[..|s| - 1]).value)
      && (s[0] == '0' ==> |s| == 2)
  {
    if correct < 0 then Placeholder
    else
      var p := RoundHalfEven(100 * correct, Divisor(total));
      NatToStringRoundTrip(p);
      var s := NatToString(p) + "%";
      assert s[..|s| - 1] == NatToString(p);
      s
  }

  /** The score printed when every answer is right. */
  lemma FullMarks(total: nat)
    requires total >= 1
    ensures ScoreText(total, total) == "100%"
  {
    var p := RoundHalfEven(100 * total, total);
    NearestEvenUnique(100 * total, total, p, 100);
  }

  /** Three right out of four prints `75%`. */
  lemma ThreeOfFour()
    ensures ScoreText(4, 3) == "75%"
  {
    RoundExact(300, 4);
    assert NatToString(75) == "75";
  }
}
