/**
  The performance-metrics buffer of the logger: a first-in first-out list capped at
  `MAX_METRICS` entries, and the read-only queries over it.

  Durations and timestamps are whole milliseconds (`performance.now()` and `Date.now()`
  readings are parameters), so the subtraction and the comparisons are exact. Metric
  metadata and all console output are not modelled.
 */
module Logging {
  import opened Optional
  import opened Sequences

  /** `MAX_METRICS`. */
  const MaxMetrics: nat := 1000

  /** One recorded measurement. */
  datatype Metric = Metric(name: string, duration: int, timestamp: int)

  /** The last `n` elements of `s`, or all of them when there are fewer. */
  function Last<T>(s: seq<T>, n: nat): (r: seq<T>)
    ensures |r| == if |s| < n then |s| else n
    ensures forall i :: 0 <= i < |r| ==> r[i] == s[|s| - |r| + i]
  {
    if |s| <= n then s else s[|s| - n..]
  }

  // ---------------------------------------------------------------------------
  // addMetric

  /** `addMetric(m)`: push `m`, then `shift` once if the buffer has grown past the cap. */
  function Added(buf: seq<Metric>, m: Metric): (r: seq<Metric>)
    // The new metric is last and the cap is kept.
    ensures |r| > 0 && r[|r| - 1] == m
    ensures |buf| <= MaxMetrics ==> |r| <= MaxMetrics
    // Below the cap nothing is dropped; at the cap exactly the oldest metric is.
    ensures |buf| < MaxMetrics ==> |r| == |buf| + 1 && r[..|buf|] == buf
    ensures |buf| >= MaxMetrics ==> |r| == |buf| && r[..|buf| - 1] == buf[1..]
  {
    var pushed := buf + [m];
    if |pushed| > MaxMetrics then pushed[1..] else pushed
  }

  /**
    The buffer is the window of the last `MaxMetrics` metrics added since it was last
    cleared: adding to the window of a history gives the window of the longer history.
   */
  lemma AddedKeepsWindow(history: seq<Metric>, m: Metric)
    ensures Added(Last(history, MaxMetrics), m) == Last(history + [m], MaxMetrics)
  {
    var h := history + [m];
    if |history| >= MaxMetrics {
      var w := Last(history, MaxMetrics);
      assert w == history[|history| - MaxMetrics..];
      assert Added(w, m) == w[1..] + [m];
      assert w[1..] + [m] == h[|h| - MaxMetrics..];
    }
  }

  // ---------------------------------------------------------------------------
  // getMetrics

  /** The options of `getMetrics`; an absent field is `None`. */
  datatype MetricsQuery = MetricsQuery(name: Option<string>, minDuration: Option<int>, limit: Option<int>)

  function HasName(name: string): Metric -> bool {
    (m: Metric) => m.name == name
  }

  function AtLeast(d: int): Metric -> bool {
    (m: Metric) => m.duration >= d
  }

  /** The `name` filter applies only when a non-empty name is given. */
  predicate FiltersName(q: MetricsQuery) {
    q.name.Some? && q.name.value != ""
  }

  /** A metric the query's filters keep. */
  predicate Passes(q: MetricsQuery, m: Metric) {
    && (FiltersName(q) ==> m.name == q.name.value)
    && (q.minDuration.Some? ==> m.duration >= q.minDuration.value)
  }

  /** The stored metrics after the name filter and then the `minDuration` filter. */
  function Filtered(buf: seq<Metric>, q: MetricsQuery): (r: seq<Metric>)
    ensures |r| <= |buf|
    ensures forall i :: 0 <= i < |r| ==> r[i] in buf && Passes(q, r[i])
  {
    var named := if FiltersName(q) then Filter(buf, HasName(q.name.value)) else buf;
    assert forall m :: m in named ==> m in buf && (FiltersName(q) ==> m.name == q.name.value) by {
      forall m | m in named && FiltersName(q) ensures m.name == q.name.value {
        FilterMember(buf, HasName(q.name.value), m);
      }
    }
    if q.minDuration.Some? then Filter(named, AtLeast(q.minDuration.value)) else named
  }

  /** The filters keep exactly the stored metrics that pass them. */
  lemma FilteredMembers(buf: seq<Metric>, q: MetricsQuery, m: Metric)
    ensures m in Filtered(buf, q) <==> m in buf && Passes(q, m)
  {
    var named := if FiltersName(q) then Filter(buf, HasName(q.name.value)) else buf;
    if FiltersName(q) {
      FilterMember(buf, HasName(q.name.value), m);
    }
    if q.minDuration.Some? {
      FilterMember(named, AtLeast(q.minDuration.value), m);
    }
  }

  /** `options.limit || MAX_METRICS`. */
  function Limit(q: MetricsQuery): int {
    if q.limit.None? || q.limit.value == 0 then MaxMetrics else q.limit.value
  }

  /** `s.slice(start)`: a negative start counts from the end; both ends are clamped. */
  function Slice<T>(s: seq<T>, start: int): (r: seq<T>)
    ensures start < 0 ==> r == Last(s, -start)
    ensures start >= 0 ==> |r| == (if start < |s| then |s| - start else 0)
    ensures start >= 0 ==> forall i :: 0 <= i < |r| ==> r[i] == s[start + i]
  {
    if start < 0 then
      if |s| + start < 0 then s else s[|s| + start..]
    else if start < |s| then s[start..] else []
  }

  /** The sort key: a larger timestamp sorts first. */
  function Recency(m: Metric): int {
    -m.timestamp
  }

  /**
    `getMetrics(options)`: filter a copy, keep its tail with `slice(-1 * limit)`, and
    sort it newest first with a stable sort.
   */
  function Selected(buf: seq<Metric>, q: MetricsQuery): (r: seq<Metric>)
    // A reordering of the tail of the matching metrics.
    ensures multiset(r) == multiset(Slice(Filtered(buf, q), -Limit(q)))
    ensures |r| == |Slice(Filtered(buf, q), -Limit(q))|
  {
    var tail := Slice(Filtered(buf, q), -Limit(q));
    SortByCorrect(tail, Recency);
    SortBy(tail, Recency)
  }

  /** Every metric `getMetrics` returns passes its filters. */
  lemma SelectedPass(buf: seq<Metric>, q: MetricsQuery)
    ensures forall i :: 0 <= i < |Selected(buf, q)| ==> Passes(q, Selected(buf, q)[i])
  {
    var r := Selected(buf, q);
    var tail := Slice(Filtered(buf, q), -Limit(q));
    forall i | 0 <= i < |r| ensures Passes(q, r[i]) {
      assert r[i] in multiset(tail);
      var k :| 0 <= k < |tail| && tail[k] == r[i];
      assert tail[k] in Filtered(buf, q);
      FilteredMembers(buf, q, r[i]);
    }
  }

  /** A positive limit returns the last `limit` matching metrics, and no more. */
  lemma SelectedLast(buf: seq<Metric>, q: MetricsQuery)
    requires Limit(q) > 0
    ensures |Selected(buf, q)| <= Limit(q)
    ensures multiset(Selected(buf, q)) == multiset(Last(Filtered(buf, q), Limit(q)))
  {
  }

  /** A negative limit becomes a positive start: the first `-limit` matches are skipped. */
  lemma SelectedSkips(buf: seq<Metric>, q: MetricsQuery)
    requires Limit(q) < 0
    ensures |Selected(buf, q)| == if -Limit(q) < |Filtered(buf, q)| then |Filtered(buf, q)| + Limit(q) else 0
  {
  }

  /** The result is newest first, and metrics with equal timestamps keep their insertion order. */
  lemma SelectedNewestFirst(buf: seq<Metric>, q: MetricsQuery)
    ensures forall i, j :: 0 <= i < j < |Selected(buf, q)| ==> Selected(buf, q)[i].timestamp >= Selected(buf, q)[j].timestamp
    ensures forall v :: Filter(Selected(buf, q), WithKey(Recency, v))
                        == Filter(Slice(Filtered(buf, q), -Limit(q)), WithKey(Recency, v))
  {
    SortNewestFirst(Slice(Filtered(buf, q), -Limit(q)));
  }

  /** The properties of the stable sort, stated for the timestamp order. */
  lemma SortNewestFirst(t: seq<Metric>)
    ensures forall i, j :: 0 <= i < j < |SortBy(t, Recency)| ==>
              SortBy(t, Recency)[i].timestamp >= SortBy(t, Recency)[j].timestamp
    ensures forall v :: Filter(SortBy(t, Recency), WithKey(Recency, v)) == Filter(t, WithKey(Recency, v))
  {
    var r := SortBy(t, Recency);
    SortByCorrect(t, Recency);
    forall i, j | 0 <= i < j < |r| ensures r[i].timestamp >= r[j].timestamp {
      assert Recency(r[i]) <= Recency(r[j]);
    }
    forall v ensures Filter(r, WithKey(Recency, v)) == Filter(t, WithKey(Recency, v)) {
      SortByStable(t, Recency, v);
    }
  }

  /** With enough matches, a positive limit is met exactly. */
  lemma SelectedFillsLimit(buf: seq<Metric>, q: MetricsQuery)
    requires 0 < Limit(q) <= |Filtered(buf, q)|
    ensures |Selected(buf, q)| == Limit(q)
  {
    SelectedLast(buf, q);
  }

  // ---------------------------------------------------------------------------
  // getAverageMetric

  function SumDurations(s: seq<Metric>): int {
    if s == [] then 0 else SumDurations(s[..|s| - 1]) + s[|s| - 1].duration
  }

  /** `getAverageMetric(name)`, computed exactly. */
  function Average(buf: seq<Metric>, name: string): (r: Option<real>)
    // `null` exactly when no stored metric has the name.
    ensures r.None? <==> forall i :: 0 <= i < |buf| ==> buf[i].name != name
  {
    var ms := Filter(buf, HasName(name));
    NoneNamed(buf, name);
    if |ms| == 0 then None else Some(SumDurations(ms) as real / |ms| as real)
  }

  lemma NoneNamed(buf: seq<Metric>, name: string)
    ensures Filter(buf, HasName(name)) == [] <==> forall i :: 0 <= i < |buf| ==> buf[i].name != name
  {
    FilterAllOrNone(buf, HasName(name));
    if Filter(buf, HasName(name)) == [] {
      forall i | 0 <= i < |buf| ensures buf[i].name != name {
        FilterMember(buf, HasName(name), buf[i]);
      }
    }
  }

  lemma {:induction false} SumBounds(s: seq<Metric>, lo: int, hi: int)
    requires forall i :: 0 <= i < |s| ==> lo <= s[i].duration <= hi
    ensures |s| * lo <= SumDurations(s) <= |s| * hi
    decreases |s|
  {
    if s != [] {
      var init := s[..|s| - 1];
      var n := |init|;
      assert forall i :: 0 <= i < n ==> init[i] == s[i];
      SumBounds(init, lo, hi);
      assert (n + 1) * lo == n * lo + lo && (n + 1) * hi == n * hi + hi;
    }
  }

  lemma QuotientBetween(sum: int, n: int, lo: int, hi: int)
    requires n > 0 && n * lo <= sum <= n * hi
    ensures lo as real <= sum as real / n as real <= hi as real
  {
    var x := sum as real / n as real;
    assert x * n as real == sum as real;
    assert (n * lo) as real == n as real * lo as real;
    assert (n * hi) as real == n as real * hi as real;
  }

  /** The average lies between the least and the greatest duration recorded under the name. */
  lemma AverageBetween(buf: seq<Metric>, name: string, lo: int, hi: int)
    requires forall i :: 0 <= i < |buf| && buf[i].name == name ==> lo <= buf[i].duration <= hi
    ensures Average(buf, name).Some? ==> lo as real <= Average(buf, name).value <= hi as real
  {
    var ms := Filter(buf, HasName(name));
    if |ms| > 0 {
      forall i | 0 <= i < |ms| ensures lo <= ms[i].duration <= hi {
        FilterMember(buf, HasName(name), ms[i]);
      }
      SumBounds(ms, lo, hi);
      QuotientBetween(SumDurations(ms), |ms|, lo, hi);
    }
  }

  // ---------------------------------------------------------------------------
  // The logger

  class Logger {
    var metrics: seq<Metric>
    /** Every metric added since the buffer was last cleared, oldest first. */
    ghost var history: seq<Metric>

    ghost predicate Valid()
      reads this
    {
      metrics == Last(history, MaxMetrics)
    }

    constructor()
      ensures Valid() && metrics == [] && history == []
    {
      metrics := [];
      history := [];
    }

    method AddMetric(m: Metric)
      requires Valid()
      modifies this
      ensures Valid() && history == old(history) + [m]
      ensures metrics == Added(old(metrics), m) && |metrics| <= MaxMetrics
    {
      AddedKeepsWindow(history, m);
      metrics := metrics + [m];
      if |metrics| > MaxMetrics {
        metrics := metrics[1..];
      }
      history := history + [m];
    }

    /**
      `endTimer`, with the start and end readings of the clock and `Date.now()` as
      parameters: records the elapsed time and returns it.
     */
    method EndTimer(name: string, startTime: int, endTime: int, now: int) returns (duration: int)
      requires Valid()
      modifies this
      ensures Valid() && history == old(history) + [Metric(name, duration, now)]
      ensures duration == endTime - startTime
      ensures metrics == Added(old(metrics), Metric(name, duration, now))
    {
      duration := endTime - startTime;
      AddMetric(Metric(name, duration, now));
    }

    /** `getMetrics`: reads the buffer and changes nothing. */
    method GetMetrics(q: MetricsQuery) returns (r: seq<Metric>)
      ensures r == Selected(metrics, q)
    {
      r := Selected(metrics, q);
    }

    method GetAverageMetric(name: string) returns (r: Option<real>)
      ensures r == Average(metrics, name)
    {
      r := Average(metrics, name);
    }

    method ClearMetrics()
      modifies this
      ensures Valid() && metrics == [] && history == []
    {
      metrics := [];
      history := [];
    }
  }
}
