/** The search expression for "papers on the topic submitted yesterday"
    (scripts/check_arxiv.py, `search_arxiv`, lines 34-46). */
module Query {
  import opened Text
  import opened Dates

  /** The topic phrase, quoted for the search service. */
  const SearchQuery := "\"reinforcement learning\""

  /** `max_results=20`. */
  const MaxResults: nat := 20

  datatype SortCriterion = Relevance | LastUpdatedDate | SubmittedDate
  datatype SortOrder = Ascending | Descending

  /** What is handed to the search client. */
  datatype SearchRequest = SearchRequest(query: string, maxResults: nat, sortBy: SortCriterion, sortOrder: SortOrder)

  /** The first and last second of day `d`, as the query spells them. */
  function LowerBound(d: Date): string
    requires ValidDate(d)
  {
    DateString(d) + "000000"
  }

  function UpperBound(d: Date): string
    requires ValidDate(d)
  {
    DateString(d) + "235959"
  }

  /** Reads the `[lower TO upper]` range back from the end of a query,
      whatever the topic phrase contains. */
  function QueryWindow(q: string): Option<(string, string)>
  {
    if |q| >= 34 && q[|q| - 34] == '[' && q[|q| - 19..|q| - 15] == " TO " && q[|q| - 1] == ']'
    then Some((q[|q| - 33..|q| - 19], q[|q| - 15..|q| - 1]))
    else None
  }

  /** `f'({SEARCH_QUERY}) AND submittedDate:[{d}000000 TO {d}235959]'`:
      the topic in parentheses, then a range whose two ends are the first
      and last second of the one day `d`. */
  function BuildQuery(topic: string, d: Date): (q: string)
    requires ValidDate(d)
    ensures |q| == |topic| + 55 && q[..|topic| + 2] == "(" + topic + ")"
    ensures q[|topic| + 2..|q| - 34] == " AND submittedDate:"
    ensures QueryWindow(q) == Some((Stamp(d, 0, 0, 0), Stamp(d, 23, 59, 59)))
    ensures QueryWindow(q) == Some((LowerBound(d), UpperBound(d)))
  {
    BoundsAreFirstAndLastSecond(d);
    var head := "(" + topic + ")";
    var q := head + " AND submittedDate:" + Range(LowerBound(d), UpperBound(d));
    assert q[..|head|] == head;
    assert q[|head|..|q| - 34] == " AND submittedDate:";
    WindowOfRange(head + " AND submittedDate:", LowerBound(d), UpperBound(d));
    q
  }

  /** `[lo TO hi]`. */
  function Range(lo: string, hi: string): string
  {
    "[" + lo + " TO " + hi + "]"
  }

  /** Whatever precedes it, a range with 14-character ends is read back by
      `QueryWindow`. */
  lemma WindowOfRange(prefix: string, lo: string, hi: string)
    requires |lo| == 14 && |hi| == 14
    ensures QueryWindow(prefix + Range(lo, hi)) == Some((lo, hi))
  {
    var q := prefix + Range(lo, hi);
    var p := |prefix|;
    assert |q| == p + 34;
    assert q[p] == '[';
    assert q[p + 1..p + 15] == lo;
    assert q[p + 15..p + 19] == " TO ";
    assert q[p + 19..p + 33] == hi;
    assert q[p + 33] == ']';
  }

  /** The two literal bounds are the stamps of 00:00:00 and 23:59:59. */
  lemma BoundsAreFirstAndLastSecond(d: Date)
    requires ValidDate(d)
    ensures LowerBound(d) == Stamp(d, 0, 0, 0)
    ensures UpperBound(d) == Stamp(d, 23, 59, 59)
  {
    assert Digits(0, 2) == "00";
    assert Digits(23, 2) == "23";
    assert Digits(59, 2) == "59";
  }

  /** Both ends of the range carry the same date, that date is `d`, and the
      lower end comes strictly before the upper one. */
  lemma QuerySpansOneDate(topic: string, d: Date)
    requires ValidDate(d)
    ensures var w := QueryWindow(BuildQuery(topic, d));
      w.Some? && |w.value.0| == |w.value.1| == 14
      && AllDigits(w.value.0) && AllDigits(w.value.1)
      && w.value.0[..8] == w.value.1[..8]
      && ParseDate(w.value.0[..8]) == Some(d)
      && Value(w.value.0) < Value(w.value.1)
  {
    BoundsAreFirstAndLastSecond(d);
    var lo, hi := Stamp(d, 0, 0, 0), Stamp(d, 23, 59, 59);
    assert lo[..8] == DateString(d) && hi[..8] == DateString(d);
    DateStringRoundTrip(d);
    StampValue(d, 0, 0, 0);
    StampValue(d, 23, 59, 59);
  }

  /** The range selects exactly the moments of day `d`: a moment of any day
      `t` lies between the bounds (read as YYYYMMDDhhmmss numbers) if and
      only if `t` is `d`. */
  lemma WindowIsExactlyOneDay(d: Date, t: Date, hour: nat, minute: nat, second: nat)
    requires ValidDate(d) && ValidDate(t) && hour < 24 && minute < 60 && second < 60
    ensures Value(LowerBound(d)) <= Value(Stamp(t, hour, minute, second)) <= Value(UpperBound(d))
        <==> t == d
  {
    BoundsAreFirstAndLastSecond(d);
    StampValue(d, 0, 0, 0);
    StampValue(d, 23, 59, 59);
    StampValue(t, hour, minute, second);
    var x := DateNumber(t) - DateNumber(d);
    var r := hour * 10000 + minute * 100 + second;
    assert 0 <= r <= 235959;
    if Value(LowerBound(d)) <= Value(Stamp(t, hour, minute, second)) <= Value(UpperBound(d)) {
      assert 0 <= x * 1000000 + r <= 235959;
      assert x == 0;
      DateNumberInjective(t, d);
    }
  }

  /** The request the script sends: this query, at most 20 results, newest
      submissions first. */
  function BuildSearch(yesterday: Date): (s: SearchRequest)
    requires ValidDate(yesterday)
    ensures s.maxResults == 20
    ensures s.sortBy == SubmittedDate && s.sortOrder == Descending
    ensures |s.query| == |SearchQuery| + 55
    ensures s.query[..|SearchQuery| + 2] == "(" + SearchQuery + ")"
    ensures s.query[|SearchQuery| + 2..|s.query| - 34] == " AND submittedDate:"
    ensures QueryWindow(s.query) == Some((Stamp(yesterday, 0, 0, 0), Stamp(yesterday, 23, 59, 59)))
  {
    SearchRequest(BuildQuery(SearchQuery, yesterday), MaxResults, SubmittedDate, Descending)
  }
}
