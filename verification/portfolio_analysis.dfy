/** Statistics of an equity curve: first/last/peak/trough capital, the
    running peak and drawdown ratio, the cut of the curve into drawdown
    segments, and the aggregates over those segments. The curve is the
    sequence of portfolio values, one per index day. */
module PortfolioAnalysis {
  import opened Common

  /** `rolling(window=99999, min_periods=0).max()`: the peak looks back at
      most this many rows, the current one included. */
  const PeakWindow: nat := 99999

  /** A drawdown ratio counts as zero when it rounds to 0 at three decimal
      places; on exact reals, rounding half to even, that is a magnitude of
      at most 0.0005. */
  const ZeroTolerance: real := 0.0005

  predicate Positive(values: seq<real>) {
    forall i :: 0 <= i < |values| ==> values[i] > 0.0
  }

  // ---------------------------------------------------------------------
  // Capital figures

  /** `get_time_period`: days from the first to the last index date. */
  function TimePeriod(days: seq<int>): (r: int)
    requires |days| > 0
    ensures StrictlyIncreasing(days) ==> r >= 0 && (|days| > 1 ==> r > 0)
  {
    days[|days| - 1] - days[0]
  }

  /** `get_inital_capital`: the value on the first day. */
  function InitialCapital(values: seq<real>): (r: real)
    requires |values| > 0
    ensures r in values && Min(values) <= r <= Max(values)
  {
    values[0]
  }

  /** `get_ending_capital`: the value on the last day. */
  function EndingCapital(values: seq<real>): (r: real)
    requires |values| > 0
    ensures r in values && Min(values) <= r <= Max(values)
  {
    values[|values| - 1]
  }

  /** `get_peak_equity`: the largest value. */
  function PeakEquity(values: seq<real>): (r: real)
    requires |values| > 0
    ensures r in values && forall i :: 0 <= i < |values| ==> values[i] <= r
  {
    Max(values)
  }

  /** `get_trough_equity`: the smallest value. */
  function TroughEquity(values: seq<real>): (r: real)
    requires |values| > 0
    ensures r in values && forall i :: 0 <= i < |values| ==> r <= values[i]
  {
    Min(values)
  }

  /** `get_net_profit`: ending less initial capital. */
  function NetProfit(values: seq<real>): (r: real)
    requires |values| > 0
    ensures InitialCapital(values) + r == EndingCapital(values)
    ensures |values| == 1 ==> r == 0.0
  {
    EndingCapital(values) - InitialCapital(values)
  }

  /** `get_net_profit_percentage`: the net profit as a percentage of the
      initial capital; `None` where a zero initial capital divides by zero. */
  function NetProfitPercentage(values: seq<real>): (r: Option<real>)
    requires |values| > 0
    ensures r.Some? <==> values[0] != 0.0
    ensures r.Some? && values[0] > 0.0 ==> (r.value > 0.0 <==> EndingCapital(values) > InitialCapital(values))
  {
    if InitialCapital(values) == 0.0 then None
    else
      var p := NetProfit(values);
      assert p > 0.0 && values[0] > 0.0 ==> p / values[0] > 0.0;
      assert p <= 0.0 && values[0] > 0.0 ==> p / values[0] <= 0.0;
      Some(100.0 * (p / InitialCapital(values)))
  }

  /** The peak and trough bracket the first and the last value, so the net
      profit lies between trough less peak and peak less trough. */
  lemma CapitalBounds(values: seq<real>)
    requires |values| > 0
    ensures TroughEquity(values) <= InitialCapital(values) <= PeakEquity(values)
    ensures TroughEquity(values) <= EndingCapital(values) <= PeakEquity(values)
    ensures TroughEquity(values) - PeakEquity(values) <= NetProfit(values)
            <= PeakEquity(values) - TroughEquity(values)
  {
  }

  // ---------------------------------------------------------------------
  // Running peak and drawdown ratio

  /** The first row the peak on row `i` looks at. */
  function PeakStart(i: nat): nat {
    if i + 1 > PeakWindow then i + 1 - PeakWindow else 0
  }

  /** The `Max` column on row `i`. */
  function Peak(values: seq<real>, i: nat): (p: real)
    requires i < |values|
    ensures values[i] <= p
  {
    RangeMax(values, PeakStart(i), i + 1)
  }

  /** Within the look-back window the peak never falls: it is the running
      maximum of the curve. */
  lemma PeakNonDecreasing(values: seq<real>, i: nat)
    requires i + 1 < |values| && i + 2 <= PeakWindow
    ensures Peak(values, i) <= Peak(values, i + 1)
    ensures Peak(values, i + 1) == Max(values[..i + 2])
  {
    var j :| 0 <= j < i + 1 && values[j] == Peak(values, i);
    assert values[j] <= Peak(values, i + 1);
    RangeMaxIsMax(values, 0, i + 2);
  }

  /** The `Drawdown` column: how far below its peak each value lies, as a
      fraction of the peak. */
  function DrawdownSeries(values: seq<real>): (dd: seq<real>)
    requires Positive(values)
    ensures |dd| == |values|
  {
    seq(|values|, i requires 0 <= i < |values| => (Peak(values, i) - values[i]) / Peak(values, i))
  }

  /** For a positive curve the drawdown is 0 on the first day and lies in
      [0, 1) on every day. */
  lemma DrawdownRange(values: seq<real>, i: nat)
    requires Positive(values) && i < |values|
    ensures 0.0 <= DrawdownSeries(values)[i] < 1.0
    ensures i == 0 ==> DrawdownSeries(values)[i] == 0.0
  {
    var p := Peak(values, i);
    var v := values[i];
    assert DrawdownSeries(values)[i] == (p - v) / p;
    FractionBelowOne(p, v);
    if i == 0 {
      assert p == v;
    }
  }

  lemma FractionBelowOne(p: real, v: real)
    requires 0.0 < v <= p
    ensures 0.0 <= (p - v) / p < 1.0
  {
    var q := (p - v) / p;
    assert q * p == p - v;
  }

  // ---------------------------------------------------------------------
  // Cutting the curve into drawdown segments

  predicate IsZero(x: real) {
    -ZeroTolerance <= x <= ZeroTolerance
  }

  /** Day `i` opens a segment: its drawdown is non-zero and the previous
      day's is zero (day 0 counts its previous drawdown as zero). */
  predicate Opens(dd: seq<real>, i: nat)
    requires i < |dd|
  {
    !IsZero(dd[i]) && (i == 0 || IsZero(dd[i - 1]))
  }

  /** Day `i` closes a segment: its drawdown is back to zero after a
      non-zero day, or it is the last day and still non-zero. */
  predicate Closes(dd: seq<real>, i: nat)
    requires i < |dd|
  {
    (i > 0 && IsZero(dd[i]) && !IsZero(dd[i - 1])) || (!IsZero(dd[i]) && i == |dd| - 1)
  }

  /** A segment by row numbers: from the opening day to the closing day. */
  datatype Span = Span(first: nat, last: nat)

  /** The loop's state: the last remembered start, and the segments so far. */
  datatype ScanState = ScanState(start: Option<nat>, spans: seq<Span>)

  /** One iteration of the loop of `get_drawdown_list` on row `i`. The
      `None` case, a close with no start seen, never arises (see
      `ScanInvariant`). */
  function ScanStep(dd: seq<real>, st: ScanState, i: nat): (r: ScanState)
    requires i < |dd|
    ensures Opens(dd, i) ==> r.start == Some(i)
    ensures !Opens(dd, i) ==> r.start == st.start
    ensures |st.spans| <= |r.spans| <= |st.spans| + 1 && r.spans[..|st.spans|] == st.spans
    ensures |r.spans| == |st.spans| + 1 <==> Closes(dd, i) && r.start.Some?
    ensures |r.spans| == |st.spans| + 1 ==> r.spans[|st.spans|] == Span(r.start.value, i)
  {
    var start := if Opens(dd, i) then Some(i) else st.start;
    if Closes(dd, i) then
      match start
      case None => ScanState(start, st.spans)
      case Some(s) => ScanState(start, st.spans + [Span(s, i)])
    else ScanState(start, st.spans)
  }

  /** The loop after its first `n` rows. */
  function Scan(dd: seq<real>, n: nat): (r: ScanState)
    requires n <= |dd|
    ensures r.start.Some? ==> r.start.value < n && Opens(dd, r.start.value)
    ensures forall k :: 0 <= k < |r.spans| ==> r.spans[k].last < n
    decreases n
  {
    if n == 0 then ScanState(None, []) else ScanStep(dd, Scan(dd, n - 1), n - 1)
  }

  /** The number of opening days among the first `n`. */
  function CountOpens(dd: seq<real>, n: nat): nat
    requires n <= |dd|
  {
    if n == 0 then 0 else CountOpens(dd, n - 1) + (if Opens(dd, n - 1) then 1 else 0)
  }

  /** After `n` rows a segment is still open: row `n - 1` is non-zero and
      is not the last row. */
  predicate Pending(dd: seq<real>, n: nat)
    requires n <= |dd|
  {
    0 < n < |dd| && !IsZero(dd[n - 1])
  }

  /** A segment as the source means it: it opens on an opening day, every
      day before its end is non-zero, and it ends on a closing day, so on
      the first zero day after its start or on the last day. */
  predicate SpanValid(dd: seq<real>, s: Span) {
    && s.first <= s.last < |dd|
    && Opens(dd, s.first)
    && (forall j :: s.first <= j < s.last ==> !IsZero(dd[j]))
    && Closes(dd, s.last)
  }

  predicate SpansOrdered(spans: seq<Span>) {
    forall k :: 0 <= k < |spans| - 1 ==> spans[k].last < spans[k + 1].first
  }

  /** What holds of the loop after `n` rows. */
  predicate ScanInv(dd: seq<real>, st: ScanState, n: nat)
    requires n <= |dd|
  {
    && (forall k :: 0 <= k < |st.spans| ==> SpanValid(dd, st.spans[k]) && st.spans[k].last < n)
    && SpansOrdered(st.spans)
    && (Pending(dd, n) ==>
          && st.start.Some? && st.start.value < n && Opens(dd, st.start.value)
          && (forall j :: st.start.value <= j < n ==> !IsZero(dd[j]))
          && (forall k :: 0 <= k < |st.spans| ==> st.spans[k].last < st.start.value))
    && |st.spans| + (if Pending(dd, n) then 1 else 0) == CountOpens(dd, n)
    && (forall i :: 0 <= i < n && Opens(dd, i) ==>
          (exists k :: 0 <= k < |st.spans| && st.spans[k].first == i)
          || (Pending(dd, n) && st.start == Some(i)))
  }

  /** Processing a zero day: it closes the pending segment, if any. */
  lemma StepOnZero(dd: seq<real>, n: nat)
    requires 0 < n <= |dd| && IsZero(dd[n - 1])
    requires ScanInv(dd, Scan(dd, n - 1), n - 1)
    ensures ScanInv(dd, Scan(dd, n), n)
  {
    var i := n - 1;
    var st := Scan(dd, i);
    var st' := Scan(dd, n);
    assert !Opens(dd, i);
    assert !Pending(dd, n);
    assert CountOpens(dd, n) == CountOpens(dd, i);
    if Pending(dd, i) {
      assert Closes(dd, i);
      var s := st.start.value;
      assert st'.spans == st.spans + [Span(s, i)];
      assert SpanValid(dd, Span(s, i));
      CloseSegment(dd, st, st', s, n);
    } else {
      assert !Closes(dd, i);
      assert st'.spans == st.spans;
    }
  }

  /** On a non-zero day the remembered start is an opening day at or
      before it, with non-zero days from there on, after every segment
      closed so far. */
  lemma StartOnNonZero(dd: seq<real>, n: nat)
    requires 0 < n <= |dd| && !IsZero(dd[n - 1])
    requires ScanInv(dd, Scan(dd, n - 1), n - 1)
    ensures var st, st' := Scan(dd, n - 1), Scan(dd, n);
            && st'.start.Some? && st'.start.value < n && Opens(dd, st'.start.value)
            && (forall j :: st'.start.value <= j < n ==> !IsZero(dd[j]))
            && (forall k :: 0 <= k < |st.spans| ==> st.spans[k].last < st'.start.value)
            && (Opens(dd, n - 1) <==> !Pending(dd, n - 1))
            && (Opens(dd, n - 1) || st'.start == st.start)
  {
    var i := n - 1;
    if Opens(dd, i) {
      assert Scan(dd, n).start == Some(i);
    } else {
      assert i > 0 && !IsZero(dd[i - 1]);
      assert Pending(dd, i);
    }
  }

  /** Processing a non-zero day that is not the last keeps its segment
      pending. */
  lemma StepOnNonZeroInner(dd: seq<real>, n: nat)
    requires 0 < n < |dd| && !IsZero(dd[n - 1])
    requires ScanInv(dd, Scan(dd, n - 1), n - 1)
    ensures ScanInv(dd, Scan(dd, n), n)
  {
    var i := n - 1;
    var st := Scan(dd, i);
    var st' := Scan(dd, n);
    StartOnNonZero(dd, n);
    assert !Closes(dd, i);
    assert st'.spans == st.spans;
    assert Pending(dd, n);
  }

  /** Processing the last day when it is non-zero closes the segment it
      belongs to. */
  lemma StepOnNonZeroLast(dd: seq<real>, n: nat)
    requires 0 < n == |dd| && !IsZero(dd[n - 1])
    requires ScanInv(dd, Scan(dd, n - 1), n - 1)
    ensures ScanInv(dd, Scan(dd, n), n)
  {
    var i := n - 1;
    var st := Scan(dd, i);
    var st' := Scan(dd, n);
    StartOnNonZero(dd, n);
    var s := st'.start.value;
    assert Closes(dd, i);
    assert st'.spans == st.spans + [Span(s, i)];
    assert SpanValid(dd, Span(s, i));
    assert !Pending(dd, n);
    CloseSegment(dd, st, st', s, n);
  }

  /** Closing the pending segment on row `n - 1` appends it to the
      segments and leaves nothing pending. */
  lemma CloseSegment(dd: seq<real>, st: ScanState, st': ScanState, s: nat, n: nat)
    requires 0 < n <= |dd| && !Pending(dd, n)
    requires st'.spans == st.spans + [Span(s, n - 1)]
    requires SpanValid(dd, Span(s, n - 1))
    requires forall k :: 0 <= k < |st.spans| ==> SpanValid(dd, st.spans[k]) && st.spans[k].last < s
    requires SpansOrdered(st.spans)
    requires |st.spans| + 1 == CountOpens(dd, n)
    requires forall j :: 0 <= j < n && Opens(dd, j) ==>
               (exists k :: 0 <= k < |st.spans| && st.spans[k].first == j) || j == s
    ensures ScanInv(dd, st', n)
  {
    AppendKeepsCover(dd, st.spans, Span(s, n - 1), n);
  }

  /** Appending a segment keeps every opening day covered, counting the
      appended segment's own first day. */
  lemma AppendKeepsCover(dd: seq<real>, spans: seq<Span>, sp: Span, n: nat)
    requires n <= |dd|
    requires forall j :: 0 <= j < n && Opens(dd, j) ==>
               (exists k :: 0 <= k < |spans| && spans[k].first == j) || j == sp.first
    ensures forall j :: 0 <= j < n && Opens(dd, j) ==>
              exists k :: 0 <= k < |spans + [sp]| && (spans + [sp])[k].first == j
  {
    forall j | 0 <= j < n && Opens(dd, j)
      ensures exists k :: 0 <= k < |spans + [sp]| && (spans + [sp])[k].first == j
    {
      if j == sp.first {
        assert (spans + [sp])[|spans|].first == j;
      } else {
        var k :| 0 <= k < |spans| && spans[k].first == j;
        assert (spans + [sp])[k].first == j;
      }
    }
  }

  /** The loop keeps its invariant on every row. */
  lemma {:induction false} ScanInvariant(dd: seq<real>, n: nat)
    requires n <= |dd|
    ensures ScanInv(dd, Scan(dd, n), n)
  {
    if n > 0 {
      ScanInvariant(dd, n - 1);
      if IsZero(dd[n - 1]) {
        StepOnZero(dd, n);
      } else if n < |dd| {
        StepOnNonZeroInner(dd, n);
      } else {
        StepOnNonZeroLast(dd, n);
      }
    }
  }

  /** The drawdown segments of a drawdown series: every segment is one the
      source means, they follow one another without overlap, there is one
      per opening day, and every opening day starts one. */
  function Segments(dd: seq<real>): (spans: seq<Span>)
    ensures forall k :: 0 <= k < |spans| ==> SpanValid(dd, spans[k])
    ensures SpansOrdered(spans)
    ensures |spans| == CountOpens(dd, |dd|)
    ensures forall i :: 0 <= i < |dd| && Opens(dd, i) ==> exists k :: 0 <= k < |spans| && spans[k].first == i
  {
    ScanInvariant(dd, |dd|);
    Scan(dd, |dd|).spans
  }

  // ---------------------------------------------------------------------
  // The drawdown list

  /** One element of the drawdown list: start date, end date, length in
      days, and the largest drawdown over the segment in percent. */
  datatype Drawdown = Drawdown(startDay: int, endDay: int, length: int, size: real)

  /** The drawdown list of a drawdown series: per segment, its first and
      closing dates, the days between them, and 100 times the largest
      drawdown over its rows, both ends included. With increasing days
      every length is non-negative and the segments are in date order
      without overlap. */
  function Records(days: seq<int>, dd: seq<real>): (list: seq<Drawdown>)
    requires |days| == |dd|
    ensures |list| == CountOpens(dd, |dd|) == |Segments(dd)|
    ensures forall k :: 0 <= k < |list| ==> RecordOf(days, dd, Segments(dd)[k], list[k])
    ensures forall k :: 0 <= k < |list| ==> list[k].length == list[k].endDay - list[k].startDay
    ensures StrictlyIncreasing(days) ==>
              && (forall k :: 0 <= k < |list| ==> list[k].length >= 0)
              && (forall k :: 0 <= k < |list| - 1 ==> list[k].endDay < list[k + 1].startDay)
  {
    var spans := Segments(dd);
    seq(|spans|, k requires 0 <= k < |spans| => RecordFor(days, dd, spans[k]))
  }

  /** The record the loop writes for one segment: its first and closing
      dates, the days between them, and 100 times the largest drawdown over
      its rows. */
  function RecordFor(days: seq<int>, dd: seq<real>, s: Span): (r: Drawdown)
    requires |days| == |dd| && s.first <= s.last < |dd|
    ensures RecordOf(days, dd, s, r)
    ensures r.length == r.endDay - r.startDay
    ensures StrictlyIncreasing(days) ==> r.length >= 0
  {
    Drawdown(days[s.first], days[s.last], days[s.last] - days[s.first], 100.0 * RangeMax(dd, s.first, s.last + 1))
  }

  /** Record `r` describes segment `s`: it starts on the segment's first
      day and ends on its closing day, and its size is 100 times the largest
      drawdown on the rows from the one to the other, both included. */
  predicate RecordOf(days: seq<int>, dd: seq<real>, s: Span, r: Drawdown)
    requires |days| == |dd|
  {
    && s.first <= s.last < |dd|
    && r.startDay == days[s.first] && r.endDay == days[s.last]
    && (forall j :: s.first <= j <= s.last ==> 100.0 * dd[j] <= r.size)
    && (exists j :: s.first <= j <= s.last && r.size == 100.0 * dd[j])
  }

  /** For drawdowns in [0, 1), every recorded size exceeds 100 times the
      zero tolerance, because a segment's first day is non-zero, and stays
      below 100. */
  lemma RecordSizes(days: seq<int>, dd: seq<real>)
    requires |days| == |dd|
    requires forall j :: 0 <= j < |dd| ==> 0.0 <= dd[j] < 1.0
    ensures forall k :: 0 <= k < |Records(days, dd)| ==>
              100.0 * ZeroTolerance < Records(days, dd)[k].size < 100.0
  {
    var spans := Segments(dd);
    var list := Records(days, dd);
    forall k | 0 <= k < |list|
      ensures 100.0 * ZeroTolerance < list[k].size < 100.0
    {
      var s := spans[k];
      var m := RangeMax(dd, s.first, s.last + 1);
      assert list[k].size == 100.0 * m;
      assert dd[s.first] <= m;
      var j :| s.first <= j < s.last + 1 && dd[j] == m;
    }
  }

  /** `get_drawdown_list` on a positive equity curve. */
  function DrawdownList(days: seq<int>, values: seq<real>): (list: seq<Drawdown>)
    requires |days| == |values| && Positive(values)
    ensures |list| == CountOpens(DrawdownSeries(values), |values|) == |Segments(DrawdownSeries(values))|
    ensures forall k :: 0 <= k < |list| ==>
              RecordOf(days, DrawdownSeries(values), Segments(DrawdownSeries(values))[k], list[k])
  {
    Records(days, DrawdownSeries(values))
  }

  /** The sizes of a positive curve's drawdowns lie strictly between 100
      times the zero tolerance and 100. */
  lemma DrawdownSizes(days: seq<int>, values: seq<real>)
    requires |days| == |values| && Positive(values)
    ensures forall k :: 0 <= k < |DrawdownList(days, values)| ==>
              100.0 * ZeroTolerance < DrawdownList(days, values)[k].size < 100.0
  {
    var dd := DrawdownSeries(values);
    forall j | 0 <= j < |dd|
      ensures 0.0 <= dd[j] < 1.0
    {
      DrawdownRange(values, j);
    }
    RecordSizes(days, dd);
  }

  /** The curve 100, 90, 95, 100, 80, 100 on days 0..5 has exactly two
      drawdowns: days 1 to 3 reaching 10%, and days 4 to 5 reaching 20%. */
  lemma DrawdownExample()
    ensures DrawdownList([0, 1, 2, 3, 4, 5], [100.0, 90.0, 95.0, 100.0, 80.0, 100.0])
            == [Drawdown(1, 3, 2, 10.0), Drawdown(4, 5, 1, 20.0)]
  {
    var values := [100.0, 90.0, 95.0, 100.0, 80.0, 100.0];
    SeriesExample();
    RecordsExample();
  }

  lemma SeriesExample()
    ensures DrawdownSeries([100.0, 90.0, 95.0, 100.0, 80.0, 100.0]) == [0.0, 0.1, 0.05, 0.0, 0.2, 0.0]
  {
    SeriesExampleHead();
    SeriesExampleTail();
  }

  lemma SeriesExampleHead()
    ensures var dd := DrawdownSeries([100.0, 90.0, 95.0, 100.0, 80.0, 100.0]);
            dd[0] == 0.0 && dd[1] == 0.1 && dd[2] == 0.05
  {
    var values := [100.0, 90.0, 95.0, 100.0, 80.0, 100.0];
    PeakExample();
    DrawdownAt(values, 0, 100.0);
    DrawdownAt(values, 1, 100.0);
    DrawdownAt(values, 2, 100.0);
  }

  lemma SeriesExampleTail()
    ensures var dd := DrawdownSeries([100.0, 90.0, 95.0, 100.0, 80.0, 100.0]);
            dd[3] == 0.0 && dd[4] == 0.2 && dd[5] == 0.0
  {
    var values := [100.0, 90.0, 95.0, 100.0, 80.0, 100.0];
    PeakExample();
    DrawdownAt(values, 3, 100.0);
    DrawdownAt(values, 4, 100.0);
    DrawdownAt(values, 5, 100.0);
  }

  lemma DrawdownAt(values: seq<real>, i: nat, p: real)
    requires Positive(values) && i < |values| && Peak(values, i) == p
    ensures DrawdownSeries(values)[i] == (p - values[i]) / p
  {
  }

  lemma PeakExample()
    ensures var values := [100.0, 90.0, 95.0, 100.0, 80.0, 100.0];
            forall i :: 0 <= i < 6 ==> Peak(values, i) == 100.0
  {
    var values := [100.0, 90.0, 95.0, 100.0, 80.0, 100.0];
    assert RangeMax(values, 0, 1) == 100.0;
    assert RangeMax(values, 0, 2) == 100.0;
    assert RangeMax(values, 0, 3) == 100.0;
    assert RangeMax(values, 0, 4) == 100.0;
    assert RangeMax(values, 0, 5) == 100.0;
    assert RangeMax(values, 0, 6) == 100.0;
  }

  lemma RecordsExample()
    ensures Records([0, 1, 2, 3, 4, 5], [0.0, 0.1, 0.05, 0.0, 0.2, 0.0])
            == [Drawdown(1, 3, 2, 10.0), Drawdown(4, 5, 1, 20.0)]
  {
    var days, dd := [0, 1, 2, 3, 4, 5], [0.0, 0.1, 0.05, 0.0, 0.2, 0.0];
    SegmentsExample();
    RecordForExample();
    var list := Records(days, dd);
    assert list[0] == RecordFor(days, dd, Span(1, 3));
    assert list[1] == RecordFor(days, dd, Span(4, 5));
  }

  lemma RecordForExample()
    ensures var days, dd := [0, 1, 2, 3, 4, 5], [0.0, 0.1, 0.05, 0.0, 0.2, 0.0];
            && RecordFor(days, dd, Span(1, 3)) == Drawdown(1, 3, 2, 10.0)
            && RecordFor(days, dd, Span(4, 5)) == Drawdown(4, 5, 1, 20.0)
  {
    var dd := [0.0, 0.1, 0.05, 0.0, 0.2, 0.0];
    assert RangeMax(dd, 1, 4) == 0.1;
    assert RangeMax(dd, 4, 6) == 0.2;
  }

  lemma SegmentsExample()
    ensures Segments([0.0, 0.1, 0.05, 0.0, 0.2, 0.0]) == [Span(1, 3), Span(4, 5)]
  {
    var dd := [0.0, 0.1, 0.05, 0.0, 0.2, 0.0];
    assert Scan(dd, 1) == ScanState(None, []);
    assert Scan(dd, 2) == ScanState(Some(1), []);
    assert Scan(dd, 3) == ScanState(Some(1), []);
    assert Scan(dd, 4) == ScanState(Some(1), [Span(1, 3)]);
    assert Scan(dd, 5) == ScanState(Some(4), [Span(1, 3)]);
    assert Scan(dd, 6) == ScanState(Some(4), [Span(1, 3), Span(4, 5)]);
  }

  // ---------------------------------------------------------------------
  // Aggregates over the drawdown list

  function Sizes(list: seq<Drawdown>): (sizes: seq<real>)
    ensures |sizes| == |list| && forall k :: 0 <= k < |list| ==> sizes[k] == list[k].size
  {
    seq(|list|, k requires 0 <= k < |list| => list[k].size)
  }

  function Lengths(list: seq<Drawdown>): (lengths: seq<int>)
    ensures |lengths| == |list| && forall k :: 0 <= k < |list| ==> lengths[k] == list[k].length
  {
    seq(|list|, k requires 0 <= k < |list| => list[k].length)
  }

  /** `get_maximum_drawdown`: the largest size; `None` for an empty list,
      where `np.max` raises. */
  function MaximumDrawdown(list: seq<Drawdown>): (r: Option<real>)
    ensures r.Some? <==> |list| > 0
    ensures r.Some? ==> (exists k :: 0 <= k < |list| && list[k].size == r.value)
                        && forall k :: 0 <= k < |list| ==> list[k].size <= r.value
  {
    if |list| == 0 then None
    else
      var m := Max(Sizes(list));
      assert exists k :: 0 <= k < |list| && Sizes(list)[k] == m;
      Some(m)
  }

  /** `get_length_of_maximum_drawdown`: the length of the first drawdown
      whose size is the maximum. */
  function LengthOfMaximumDrawdown(list: seq<Drawdown>): (r: Option<int>)
    requires forall k :: 0 <= k < |list| ==> list[k].length == list[k].endDay - list[k].startDay
    ensures r.Some? <==> |list| > 0
    ensures r.Some? ==> exists k :: 0 <= k < |list| && r.value == list[k].length
                          && list[k].size == MaximumDrawdown(list).value
                          && forall j :: 0 <= j < k ==> list[j].size < list[k].size
  {
    match MaximumDrawdown(list)
    case None => None
    case Some(m) =>
      var k := FirstIndex(Sizes(list), m);
      Some(list[k].endDay - list[k].startDay)
  }

  /** `get_longest_drawdown_period`: the largest length. */
  function LongestDrawdownPeriod(list: seq<Drawdown>): (r: Option<int>)
    ensures r.Some? <==> |list| > 0
    ensures r.Some? ==> (exists k :: 0 <= k < |list| && list[k].length == r.value)
                        && forall k :: 0 <= k < |list| ==> list[k].length <= r.value
  {
    if |list| == 0 then None
    else
      var m := MaxInt(Lengths(list));
      assert exists k :: 0 <= k < |list| && Lengths(list)[k] == m;
      Some(m)
  }

  /** `get_longest_drawdown`: the size of the first drawdown whose length is
      the longest. */
  function LongestDrawdown(list: seq<Drawdown>): (r: Option<real>)
    ensures r.Some? <==> |list| > 0
    ensures r.Some? ==> exists k :: 0 <= k < |list| && r.value == list[k].size
                          && list[k].length == LongestDrawdownPeriod(list).value
                          && forall j :: 0 <= j < k ==> list[j].length < list[k].length
  {
    match LongestDrawdownPeriod(list)
    case None => None
    case Some(m) =>
      var k := FirstIndex(Lengths(list), m);
      Some(list[k].size)
  }

  /** `get_average_drawdown`: the mean size; `None` (NaN) for an empty list. */
  function AverageDrawdown(list: seq<Drawdown>): (r: Option<real>)
    ensures r.Some? <==> |list| > 0
    ensures r.Some? ==> r.value == Sum(Sizes(list)) / (|list| as real)
  {
    Mean(Sizes(list))
  }

  /** The lengths as real numbers, as `np.mean` sees them. */
  function Periods(list: seq<Drawdown>): (periods: seq<real>)
    ensures |periods| == |list| && forall k :: 0 <= k < |list| ==> periods[k] == list[k].length as real
  {
    seq(|list|, k requires 0 <= k < |list| => list[k].length as real)
  }

  /** `get_average_drawdown_period`: the mean length in days. */
  function AverageDrawdownPeriod(list: seq<Drawdown>): (r: Option<real>)
    ensures r.Some? <==> |list| > 0
    ensures r.Some? ==> r.value == Sum(Periods(list)) / (|list| as real)
  {
    Mean(Periods(list))
  }

  /** The averages never exceed the corresponding maxima, and the average
      size is at least the smallest size. */
  lemma AveragesBelowMaxima(list: seq<Drawdown>)
    requires |list| > 0
    ensures AverageDrawdown(list).value <= MaximumDrawdown(list).value
    ensures AverageDrawdownPeriod(list).value <= LongestDrawdownPeriod(list).value as real
    ensures exists k :: 0 <= k < |list| && list[k].size <= AverageDrawdown(list).value
  {
    var sizes := Sizes(list);
    var k :| 0 <= k < |sizes| && sizes[k] == Min(sizes);
    var lengths := Periods(list);
    var j :| 0 <= j < |lengths| && lengths[j] == Max(lengths);
    assert list[j].length <= LongestDrawdownPeriod(list).value;
  }
}
