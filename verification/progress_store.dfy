/**
  The progress store: a map from a UTC date (`YYYY-MM-DD`) to the number of answers
  submitted that day. Loading and saving the file are left to the caller; what is
  modelled is the in-memory update a submission performs and the total of all counts.
 */
module ProgressStore {

  type Progress = map<string, nat>

  /** The count recorded for `day`, zero when the day has no entry. */
  function Count(p: Progress, day: string): (n: nat)
    ensures day !in p ==> n == 0
    ensures day in p ==> n == p[day]
  {
    if day in p then p[day] else 0
  }

  /**
    `after` is `before` with one more answer on `day`: the day is present with its old
    count plus one, and every other day keeps its entry (or its absence).
   */
  ghost predicate IncrementedOn(before: Progress, after: Progress, day: string) {
    && after.Keys == before.Keys + {day}
    && after[day] == Count(before, day) + 1
    && forall d :: d in before && d != day ==> after[d] == before[d]
  }

  /** One more answer on `day`, starting from zero for a day not yet in the store. */
  function RecordAnswer(p: Progress, day: string): (r: Progress)
    ensures IncrementedOn(p, r, day)
  {
    p[day := Count(p, day) + 1]
  }

  /** Some day of a non-empty store; which one does not matter to `Sum`. */
  ghost function AnyDay(p: Progress): (d: string)
    requires p != map[]
    ensures d in p
  {
    var d :| d in p; d
  }

  /** The sum of all counts in the store. */
  ghost function Sum(p: Progress): (s: nat)
    ensures p == map[] ==> s == 0
    ensures forall d :: d in p ==> p[d] <= s
    decreases |p|
  {
    if p == map[] then 0
    else
      var d := AnyDay(p);
      assert (p - {d}).Keys == p.Keys - {d};
      assert forall e :: e in p && e != d ==> e in p - {d} && (p - {d})[e] == p[e];
      p[d] + Sum(p - {d})
  }

  /** Any entry can be taken out of the sum first. */
  lemma {:induction false} SumRemove(p: Progress, day: string)
    requires day in p
    ensures Sum(p) == p[day] + Sum(p - {day})
    decreases |p|
  {
    var d := AnyDay(p);
    assert (p - {d}).Keys == p.Keys - {d};
    if d != day {
      assert (p - {day}).Keys == p.Keys - {day};
      SumRemove(p - {d}, day);
      SumRemove(p - {day}, d);
      assert p - {d} - {day} == p - {day} - {d};
    }
  }

  /** A submission adds exactly one answer to the grand total. */
  lemma RecordAnswerTotal(p: Progress, day: string)
    ensures Sum(RecordAnswer(p, day)) == Sum(p) + 1
  {
    var r := RecordAnswer(p, day);
    SumRemove(r, day);
    assert r - {day} == p - {day};
    if day in p {
      SumRemove(p, day);
    } else {
      assert p - {day} == p;
    }
  }

  /** Counts only grow: no day loses an entry or any of its count. */
  lemma RecordAnswerMonotone(p: Progress, day: string)
    ensures forall d :: d in p ==> d in RecordAnswer(p, day) && RecordAnswer(p, day)[d] >= p[d]
  {
  }

  /** Recording on an empty store yields the single entry `{day: 1}`. */
  lemma RecordAnswerFresh(day: string)
    ensures RecordAnswer(map[], day) == map[day := 1]
  {
  }

  /** Recording twice on the same day counts two. */
  lemma RecordAnswerTwice(p: Progress, day: string)
    ensures Count(RecordAnswer(RecordAnswer(p, day), day), day) == Count(p, day) + 2
  {
  }
}
