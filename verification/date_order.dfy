/**
  The order in which the progress page lists its dates. Python compares `str` values
  code point by code point, a proper prefix coming first; `Less` is that comparison.
  It is a strict total order, and on dates written `YYYY-MM-DD` (the format the
  submission handler stamps) it coincides with chronological order.
 */
module DateOrder {
  import opened Decimal

  /** Python's `a < b` on `str`. */
  predicate Less(a: string, b: string): (r: bool)
    ensures r ==> a != b
    ensures |a| < |b| && a == b[..|a|] ==> r
  {
    if |a| == 0 then |b| > 0
    else if |b| == 0 then false
    else a[0] < b[0] || (a[0] == b[0] && Less(a[1..], b[1..]))
  }

  lemma {:induction false} LessIrreflexive(a: string)
    ensures !Less(a, a)
  {
    if |a| > 0 {
      LessIrreflexive(a[1..]);
    }
  }

  lemma {:induction false} LessTransitive(a: string, b: string, c: string)
    requires Less(a, b) && Less(b, c)
    ensures Less(a, c)
  {
    if |a| > 0 && |b| > 0 && |c| > 0 && a[0] == b[0] && b[0] == c[0] {
      LessTransitive(a[1..], b[1..], c[1..]);
    }
  }

  lemma {:induction false} LessTotal(a: string, b: string)
    requires a != b
    ensures Less(a, b) || Less(b, a)
  {
    if |a| > 0 && |b| > 0 && a[0] == b[0] {
      assert a == [a[0]] + a[1..] && b == [b[0]] + b[1..];
      LessTotal(a[1..], b[1..]);
    }
  }

  lemma LessAsymmetric(a: string, b: string)
    requires Less(a, b)
    ensures !Less(b, a)
  {
    if Less(b, a) {
      LessTransitive(a, b, a);
      LessIrreflexive(a);
    }
  }

  /** Comparing two strings is comparing their first `k` characters, then the rest. */
  lemma {:induction false} LessSplit(a: string, b: string, k: nat)
    requires k <= |a| && k <= |b|
    ensures Less(a, b) <==> Less(a[..k], b[..k]) || (a[..k] == b[..k] && Less(a[k..], b[k..]))
  {
    if k > 0 {
      LessSplit(a[1..], b[1..], k - 1);
      assert a[1..][..k - 1] == a[..k][1..] && b[1..][..k - 1] == b[..k][1..];
      assert a[1..][k - 1..] == a[k..] && b[1..][k - 1..] == b[k..];
      assert a[..k] == b[..k] <==> a[0] == b[0] && a[..k][1..] == b[..k][1..];
    } else {
      assert a[..0] == b[..0];
      assert a[0..] == a && b[0..] == b;
    }
  }

  function Pow10(k: nat): (p: nat)
    ensures p >= 1
  {
    if k == 0 then 1 else 10 * Pow10(k - 1)
  }

  lemma {:induction false} DigitsValueBound(s: string)
    requires AllDigits(s)
    ensures DigitsValue(s) < Pow10(|s|)
  {
    if s != [] {
      DigitsValueBound(s[..|s| - 1]);
    }
  }

  /** The leading digit weighs `10^(number of digits after it)`. */
  lemma {:induction false} DigitsValueCons(c: char, s: string)
    requires IsDigit(c) && AllDigits(s)
    ensures AllDigits([c] + s)
    ensures DigitsValue([c] + s) == DigitValue(c) * Pow10(|s|) + DigitsValue(s)
  {
    var t := [c] + s;
    assert AllDigits(t) by {
      forall i | 0 <= i < |t|
        ensures IsDigit(t[i])
      {
        if i > 0 {
          assert t[i] == s[i - 1];
        }
      }
    }
    if s == [] {
      assert t[..|t| - 1] == [];
    } else {
      var s' := s[..|s| - 1];
      assert t[..|t| - 1] == [c] + s';
      assert t[|t| - 1] == s[|s| - 1];
      DigitsValueCons(c, s');
      ShiftDigit(DigitValue(c), Pow10(|s'|), DigitsValue(s'), DigitValue(s[|s| - 1]));
    }
  }

  lemma ShiftDigit(x: nat, p: nat, v: nat, d: nat)
    ensures (x * p + v) * 10 + d == x * (10 * p) + (v * 10 + d)
  {
  }

  lemma MulMonotone(x: nat, y: nat, p: nat)
    requires x <= y
    ensures x * p <= y * p
  {
  }

  /** A leading digit smaller by at least one outweighs any tail of the same length. */
  lemma LeadingDigitDominates(x: nat, y: nat, p: nat, u: nat, v: nat)
    requires x < y && u < p
    ensures x * p + u < y * p + v
  {
    MulMonotone(x + 1, y, p);
    assert (x + 1) * p == x * p + p;
  }

  /** On digit strings of equal length, string order is numeric order. */
  lemma {:induction false} DigitsOrder(a: string, b: string)
    requires AllDigits(a) && AllDigits(b) && |a| == |b|
    ensures Less(a, b) <==> DigitsValue(a) < DigitsValue(b)
  {
    if |a| > 0 {
      var a', b' := a[1..], b[1..];
      assert a == [a[0]] + a' && b == [b[0]] + b';
      DigitsValueCons(a[0], a');
      DigitsValueCons(b[0], b');
      DigitsValueBound(a');
      DigitsValueBound(b');
      DigitsOrder(a', b');
      var P := Pow10(|a'|);
      var x, y := DigitValue(a[0]), DigitValue(b[0]);
      if a[0] < b[0] {
        LeadingDigitDominates(x, y, P, DigitsValue(a'), DigitsValue(b'));
      } else if b[0] < a[0] {
        LeadingDigitDominates(y, x, P, DigitsValue(b'), DigitsValue(a'));
      }
    }
  }

  /** On digit strings of equal length, equal strings are exactly equal values. */
  lemma DigitsEqual(a: string, b: string)
    requires AllDigits(a) && AllDigits(b) && |a| == |b|
    ensures a == b <==> DigitsValue(a) == DigitsValue(b)
  {
    if a != b {
      LessTotal(a, b);
      DigitsOrder(a, b);
      DigitsOrder(b, a);
    }
  }

  /** A `YYYY-MM-DD` date as `strftime("%Y-%m-%d")` writes one (four-digit year). */
  predicate IsIsoDate(s: string) {
    && |s| == 10
    && s[4] == '-' && s[7] == '-'
    && AllDigits(s[..4]) && AllDigits(s[5..7]) && AllDigits(s[8..])
  }

  function Year(s: string): nat
    requires IsIsoDate(s)
  {
    DigitsValue(s[..4])
  }

  function Month(s: string): nat
    requires IsIsoDate(s)
  {
    DigitsValue(s[5..7])
  }

  function Day(s: string): nat
    requires IsIsoDate(s)
  {
    DigitsValue(s[8..])
  }

  /** Calendar order: by year, then month, then day. */
  predicate Before(a: string, b: string)
    requires IsIsoDate(a) && IsIsoDate(b)
  {
    || Year(a) < Year(b)
    || (Year(a) == Year(b) && Month(a) < Month(b))
    || (Year(a) == Year(b) && Month(a) == Month(b) && Day(a) < Day(b))
  }

  /** Sorting ISO date strings as strings sorts them chronologically. */
  lemma IsoDateOrder(a: string, b: string)
    requires IsIsoDate(a) && IsIsoDate(b)
    ensures Less(a, b) <==> Before(a, b)
  {
    // year | "-MM-DD"
    LessSplit(a, b, 4);
    DigitsOrder(a[..4], b[..4]);
    DigitsEqual(a[..4], b[..4]);
    var a1, b1 := a[4..], b[4..];
    assert a1[1..] == a[5..] && b1[1..] == b[5..];
    assert Less(a1, b1) <==> Less(a[5..], b[5..]);
    // month | "-DD"
    var a2, b2 := a[5..], b[5..];
    LessSplit(a2, b2, 2);
    assert a2[..2] == a[5..7] && b2[..2] == b[5..7];
    DigitsOrder(a[5..7], b[5..7]);
    DigitsEqual(a[5..7], b[5..7]);
    var a3, b3 := a2[2..], b2[2..];
    assert a3[1..] == a[8..] && b3[1..] == b[8..];
    assert Less(a3, b3) <==> Less(a[8..], b[8..]);
    DigitsOrder(a[8..], b[8..]);
  }
}
