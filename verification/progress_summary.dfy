/**
  The progress page: the grand total of answers and the store's entries listed by
  ascending date (`sorted(progress.items())`). Entries of a map have distinct dates,
  so sorting the pairs is sorting by date alone.
 */
module ProgressSummary {
  import opened DateOrder
  import opened ProgressStore

  type Entry = (string, nat)

  /** Dates strictly ascending in Python's string order. */
  predicate StrictlySorted(s: seq<Entry>) {
    forall i, j :: 0 <= i < j < |s| ==> Less(s[i].0, s[j].0)
  }

  /** Every entry of `s` is an entry of `p`, and every day of `p` occurs in `s`. */
  ghost predicate ListsEntries(s: seq<Entry>, p: Progress) {
    && (forall i :: 0 <= i < |s| ==> s[i].0 in p && s[i].1 == p[s[i].0])
    && (forall d :: d in p ==> exists i :: 0 <= i < |s| && s[i].0 == d)
  }

  /** Places `e` into a sorted list whose dates all differ from `e`'s. */
  function Insert(s: seq<Entry>, e: Entry): (r: seq<Entry>)
    requires StrictlySorted(s)
    requires forall i :: 0 <= i < |s| ==> s[i].0 != e.0
    ensures StrictlySorted(r)
    ensures |r| == |s| + 1
    ensures forall x :: x in r <==> x in s || x == e
  {
    if s == [] then [e]
    else if Less(e.0, s[0].0) then
      assert forall j :: 0 < j < |s| ==> Less(e.0, s[j].0) by {
        forall j | 0 < j < |s|
          ensures Less(e.0, s[j].0)
        {
          LessTransitive(e.0, s[0].0, s[j].0);
        }
      }
      [e] + s
    else
      LessTotal(e.0, s[0].0);
      var t := Insert(s[1..], e);
      assert forall x :: x in t ==> Less(s[0].0, x.0) by {
        forall x | x in t
          ensures Less(s[0].0, x.0)
        {
          if x != e {
            var j :| 0 <= j < |s[1..]| && s[1..][j] == x;
            assert s[j + 1] == x;
          }
        }
      }
      assert s == [s[0]] + s[1..];
      [s[0]] + t
  }

  /** The restriction of `p` to the days in `days`. */
  ghost function Restrict(p: Progress, days: set<string>): (r: Progress)
    requires days <= p.Keys
    ensures r.Keys == days
  {
    map d | d in days :: p[d]
  }

  /**
    The progress page's data: `total` is the sum of all counts (0 for an empty store)
    and `items` lists the store's entries exactly once each, by ascending date.
   */
  method Summarize(p: Progress) returns (total: nat, items: seq<Entry>)
    ensures total == Sum(p)
    ensures p == map[] ==> total == 0
    ensures StrictlySorted(items)
    ensures ListsEntries(items, p)
    ensures |items| == |p|
  {
    total := 0;
    items := [];
    var rest := p.Keys;
    assert Restrict(p, rest) == p;
    while rest != {}
      invariant rest <= p.Keys
      invariant total + Sum(Restrict(p, rest)) == Sum(p)
      invariant StrictlySorted(items)
      invariant forall i :: 0 <= i < |items| ==> items[i].0 in p && items[i].0 !in rest && items[i].1 == p[items[i].0]
      invariant forall d :: d in p && d !in rest ==> exists i :: 0 <= i < |items| && items[i].0 == d
      invariant |items| + |rest| == |p|
      decreases rest
    {
      var d :| d in rest;
      var r := Restrict(p, rest);
      SumRemove(r, d);
      assert r - {d} == Restrict(p, rest - {d});
      ghost var before := items;
      items := Insert(items, (d, p[d]));
      forall i | 0 <= i < |items|
        ensures items[i].0 in p && items[i].0 !in rest - {d} && items[i].1 == p[items[i].0]
      {
        if items[i] != (d, p[d]) {
          assert items[i] in before;
        }
      }
      assert forall i :: 0 <= i < |before| ==> before[i] in items;
      assert (d, p[d]) in items;
      total := total + p[d];
      rest := rest - {d};
    }
    assert Restrict(p, rest) == map[];
  }

  /** Only the empty store has the empty listing. */
  lemma EmptyListing(s: seq<Entry>, p: Progress)
    requires ListsEntries(s, p)
    ensures s == [] <==> p == map[]
  {
    if s != [] {
      assert s[0].0 in p;
    }
  }

  /** The first entry of a listing carries the least date of the store. */
  lemma HeadIsLeast(s: seq<Entry>, p: Progress)
    requires StrictlySorted(s) && ListsEntries(s, p) && s != []
    ensures forall d :: d in p && d != s[0].0 ==> Less(s[0].0, d)
  {
    forall d | d in p && d != s[0].0
      ensures Less(s[0].0, d)
    {
      var k :| 0 <= k < |s| && s[k].0 == d;
    }
  }

  /** Dropping the first entry lists the store without that entry's date. */
  lemma TailListing(s: seq<Entry>, p: Progress)
    requires StrictlySorted(s) && ListsEntries(s, p) && s != []
    ensures StrictlySorted(s[1..]) && ListsEntries(s[1..], p - {s[0].0})
  {
    var q := p - {s[0].0};
    forall d | d in q
      ensures exists k :: 0 <= k < |s[1..]| && s[1..][k].0 == d
    {
      var k :| 0 <= k < |s| && s[k].0 == d;
      assert s[1..][k - 1].0 == d;
    }
    forall k | 0 <= k < |s[1..]|
      ensures s[1..][k].0 in q
    {
      assert Less(s[0].0, s[k + 1].0);
      LessIrreflexive(s[0].0);
    }
  }

  /** The ordered listing of a store is unique: any two such listings are equal. */
  lemma {:induction false} ListingUnique(s: seq<Entry>, t: seq<Entry>, p: Progress)
    requires StrictlySorted(s) && ListsEntries(s, p)
    requires StrictlySorted(t) && ListsEntries(t, p)
    ensures s == t
    decreases |s|
  {
    if s != [] && t != [] {
      HeadIsLeast(s, p);
      HeadIsLeast(t, p);
      if s[0].0 != t[0].0 {
        LessAsymmetric(s[0].0, t[0].0);
      }
      assert s[0] == t[0];
      TailListing(s, p);
      TailListing(t, p);
      ListingUnique(s[1..], t[1..], p - {s[0].0});
      assert s == [s[0]] + s[1..] && t == [t[0]] + t[1..];
    } else {
      EmptyListing(s, p);
      EmptyListing(t, p);
    }
  }

  /** Every day of the store is a `YYYY-MM-DD` date. */
  predicate IsoKeys(p: Progress) {
    forall d :: d in p ==> IsIsoDate(d)
  }

  /** Stamping a submission with a `YYYY-MM-DD` date keeps the store's days in that form. */
  lemma RecordKeepsIsoKeys(p: Progress, day: string)
    requires IsoKeys(p) && IsIsoDate(day)
    ensures IsoKeys(RecordAnswer(p, day))
  {
  }

  /** On a store of `YYYY-MM-DD` days, the ordered listing is in calendar order. */
  lemma ListingChronological(s: seq<Entry>, p: Progress)
    requires StrictlySorted(s) && ListsEntries(s, p) && IsoKeys(p)
    ensures forall i, j :: 0 <= i < j < |s| ==> Before(s[i].0, s[j].0)
  {
    forall i, j | 0 <= i < j < |s|
      ensures Before(s[i].0, s[j].0)
    {
      IsoDateOrder(s[i].0, s[j].0);
    }
  }

  const ExampleStore: Progress := map["2024-01-02" := 1, "2024-01-01" := 3]
  const ExampleListing: seq<Entry> := [("2024-01-01", 3), ("2024-01-02", 1)]

  lemma ExampleDatesOrdered()
    ensures Less("2024-01-01", "2024-01-02")
  {
    LessSplit("2024-01-01", "2024-01-02", 9);
    assert "2024-01-01"[..9] == "2024-01-02"[..9];
    assert "2024-01-01"[9..] == "1" && "2024-01-02"[9..] == "2";
  }

  lemma ExampleSum()
    ensures Sum(ExampleStore) == 4
  {
    var p := ExampleStore;
    SumRemove(p, "2024-01-01");
    assert p - {"2024-01-01"} == map["2024-01-02" := 1];
    SumRemove(map["2024-01-02" := 1], "2024-01-02");
    assert map["2024-01-02" := 1] - {"2024-01-02"} == map[];
  }

  /** `{"2024-01-02": 1, "2024-01-01": 3}` is listed as `[("2024-01-01", 3), ("2024-01-02", 1)]`, total 4. */
  lemma SummaryExample(s: seq<Entry>)
    requires StrictlySorted(s) && ListsEntries(s, ExampleStore)
    ensures s == ExampleListing
    ensures Sum(ExampleStore) == 4
  {
    ExampleDatesOrdered();
    assert StrictlySorted(ExampleListing);
    assert ListsEntries(ExampleListing, ExampleStore) by {
      assert ExampleListing[0].0 == "2024-01-01" && ExampleListing[1].0 == "2024-01-02";
    }
    ListingUnique(s, ExampleListing, ExampleStore);
    ExampleSum();
  }
}
