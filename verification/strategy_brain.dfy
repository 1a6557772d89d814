/** The strategy brain's conversion of a daily BUY/SELL signal column into
    alternating buy/sell events and then into a trade list. */
module StrategyBrain {
  import opened Common
  import opened Signals

  /** One entry of `entry_exit_dates`: the signal that switched and its day. */
  datatype Event = Event(signal: Signal, day: int)

  /** Consecutive events carry different signals. */
  predicate Alternates(events: seq<Event>) {
    forall k :: 0 <= k < |events| - 1 ==> events[k].signal != events[k + 1].signal
  }

  function EventDays(events: seq<Event>): (dates: seq<int>)
    ensures |dates| == |events|
    ensures forall k :: 0 <= k < |events| ==> dates[k] == events[k].day
  {
    seq(|events|, k requires 0 <= k < |events| => events[k].day)
  }

  /** Whether some day among the first `n` has signal BUY. */
  predicate HasBuy(signals: seq<Signal>, n: nat)
    requires n <= |signals|
  {
    exists i :: 0 <= i < n && signals[i] == Buy
  }

  /** The loop of `get_entry_exit_dates` after the first `n` days: nothing is
      recorded until the first BUY; from then on a day is recorded when its
      signal differs from the day before. */
  function ScanEvents(signals: seq<Signal>, days: seq<int>, n: nat): (events: seq<Event>)
    requires |signals| == |days| && n <= |signals|
    ensures |events| > 0 <==> HasBuy(signals, n)
    ensures |events| > 0 ==> events[0].signal == Buy && events[|events| - 1].signal == signals[n - 1]
    ensures Alternates(events)
    ensures StrictlyIncreasing(days) ==>
              StrictlyIncreasing(EventDays(events)) && (|events| > 0 ==> events[|events| - 1].day <= days[n - 1])
    decreases n
  {
    if n == 0 then []
    else
      var events := ScanEvents(signals, days, n - 1);
      var i := n - 1;
      if |events| == 0 then
        (if signals[i] == Buy then [Event(signals[i], days[i])] else [])
      else if signals[i] != signals[i - 1] then
        AppendEvent(events, Event(signals[i], days[i]));
        events + [Event(signals[i], days[i])]
      else
        events
  }

  /** Appending an event of the other signal, dated after the last one,
      keeps the events alternating and their days increasing. */
  lemma AppendEvent(events: seq<Event>, e: Event)
    requires Alternates(events) && (|events| > 0 ==> events[|events| - 1].signal != e.signal)
    ensures Alternates(events + [e])
    ensures StrictlyIncreasing(EventDays(events)) && (|events| > 0 ==> events[|events| - 1].day < e.day) ==>
              StrictlyIncreasing(EventDays(events + [e]))
  {
  }

  /** The first BUY day among the first `n`, if any. */
  function FirstBuy(signals: seq<Signal>, n: nat): (f: Option<nat>)
    requires n <= |signals|
    ensures f.Some? ==> f.value < n && signals[f.value] == Buy
                        && forall j :: 0 <= j < f.value ==> signals[j] == Sell
    ensures f.None? ==> forall j :: 0 <= j < n ==> signals[j] == Sell
    decreases n
  {
    if n == 0 then None
    else
      var f := FirstBuy(signals, n - 1);
      if f.Some? then f
      else if signals[n - 1] == Buy then Some(n - 1)
      else
        assert forall j :: 0 <= j < n - 1 ==> signals[j] == Sell;
        assert signals[n - 1] == Sell;
        None
  }

  /** Closed form of the recorded days: the first BUY, then every later day
      on which the signal changes. */
  function RecordedIndices(signals: seq<Signal>, n: nat): (idx: seq<nat>)
    requires n <= |signals|
    ensures forall k :: 0 <= k < |idx| ==> idx[k] < n
  {
    var f := FirstBuy(signals, n);
    if f.None? then [] else [f.value] + Changes(signals, f.value + 1, n)
  }

  function EventsAt(signals: seq<Signal>, days: seq<int>, idx: seq<nat>): (events: seq<Event>)
    requires |signals| == |days|
    requires forall k :: 0 <= k < |idx| ==> idx[k] < |signals|
    ensures |events| == |idx|
  {
    seq(|idx|, k requires 0 <= k < |idx| => Event(signals[idx[k]], days[idx[k]]))
  }

  /** The scan records exactly the first BUY day and every later day whose
      signal differs from the previous day's, and nothing else. */
  lemma {:induction false} ScanRecordsChanges(signals: seq<Signal>, days: seq<int>, n: nat)
    requires |signals| == |days| && n <= |signals|
    ensures ScanEvents(signals, days, n) == EventsAt(signals, days, RecordedIndices(signals, n))
    decreases n
  {
    if n > 0 {
      ScanRecordsChanges(signals, days, n - 1);
      if FirstBuy(signals, n - 1).Some? {
        var extra := ChangeAt(signals, n - 1);
        ScanStepAfterFirstBuy(signals, days, n);
        EventsAtAppend(signals, days, RecordedIndices(signals, n - 1), extra);
      } else {
        ScanStepBeforeFirstBuy(signals, days, n);
      }
    }
  }

  /** Once a BUY has been recorded, one more day appends that day to the scan
      exactly when its signal changes. */
  lemma ScanStepAfterFirstBuy(signals: seq<Signal>, days: seq<int>, n: nat)
    requires |signals| == |days| && 0 < n <= |signals|
    requires FirstBuy(signals, n - 1).Some?
    ensures n - 1 >= 1
    ensures ScanEvents(signals, days, n)
            == ScanEvents(signals, days, n - 1) + EventsAt(signals, days, ChangeAt(signals, n - 1))
    ensures RecordedIndices(signals, n) == RecordedIndices(signals, n - 1) + ChangeAt(signals, n - 1)
  {
    var f := FirstBuy(signals, n - 1).value;
    assert HasBuy(signals, n - 1) by {
      assert signals[f] == Buy;
    }
    ScanStepAfterBuy(signals, days, n);
    RecordedStepAfterFirstBuy(signals, n);
  }

  /** Once the scan holds an event, one more day appends that day's event
      exactly when its signal changes. */
  lemma ScanStepAfterBuy(signals: seq<Signal>, days: seq<int>, n: nat)
    requires |signals| == |days| && 0 < n <= |signals|
    requires HasBuy(signals, n - 1)
    ensures n - 1 >= 1
    ensures ScanEvents(signals, days, n)
            == ScanEvents(signals, days, n - 1) + EventsAt(signals, days, ChangeAt(signals, n - 1))
  {
    var i := n - 1;
    assert |ScanEvents(signals, days, i)| > 0;
    var extra := EventsAt(signals, days, ChangeAt(signals, i));
    if signals[i] != signals[i - 1] {
      assert extra == [Event(signals[i], days[i])];
    } else {
      assert extra == [];
    }
  }

  /** The closed form grows the same way. */
  lemma RecordedStepAfterFirstBuy(signals: seq<Signal>, n: nat)
    requires 0 < n <= |signals|
    requires FirstBuy(signals, n - 1).Some?
    ensures n - 1 >= 1
    ensures RecordedIndices(signals, n) == RecordedIndices(signals, n - 1) + ChangeAt(signals, n - 1)
  {
    var f := FirstBuy(signals, n - 1).value;
    assert FirstBuy(signals, n) == Some(f);
    var before := Changes(signals, f + 1, n - 1);
    RecordedAfter(signals, n - 1, f);
    RecordedAfter(signals, n, f);
    ChangesStep(signals, f + 1, n);
    assert [f] + (before + ChangeAt(signals, n - 1)) == ([f] + before) + ChangeAt(signals, n - 1);
  }

  /** Once the first BUY is known, the closed form is that day followed by
      the later changes. */
  lemma RecordedAfter(signals: seq<Signal>, n: nat, f: nat)
    requires n <= |signals| && FirstBuy(signals, n) == Some(f)
    ensures f + 1 <= n
    ensures RecordedIndices(signals, n) == [f] + Changes(signals, f + 1, n)
  {
  }

  /** Before any BUY, one more day records that day exactly when it is a BUY. */
  lemma ScanStepBeforeFirstBuy(signals: seq<Signal>, days: seq<int>, n: nat)
    requires |signals| == |days| && 0 < n <= |signals|
    requires FirstBuy(signals, n - 1).None?
    requires ScanEvents(signals, days, n - 1) == EventsAt(signals, days, RecordedIndices(signals, n - 1))
    ensures ScanEvents(signals, days, n) == EventsAt(signals, days, RecordedIndices(signals, n))
  {
    assert RecordedIndices(signals, n - 1) == [];
    if signals[n - 1] == Buy {
      assert RecordedIndices(signals, n) == [n - 1];
    } else {
      assert RecordedIndices(signals, n) == [];
    }
  }

  lemma EventsAtAppend(signals: seq<Signal>, days: seq<int>, idx: seq<nat>, extra: seq<nat>)
    requires |signals| == |days|
    requires forall k :: 0 <= k < |idx| ==> idx[k] < |signals|
    requires forall k :: 0 <= k < |extra| ==> extra[k] < |signals|
    ensures EventsAt(signals, days, idx + extra) == EventsAt(signals, days, idx) + EventsAt(signals, days, extra)
  {
  }

  /** Alternating events that start with BUY have BUY exactly at the even
      positions. */
  lemma {:induction false} AlternatingParity(events: seq<Event>, k: nat)
    requires Alternates(events) && |events| > 0 && events[0].signal == Buy
    requires k < |events|
    ensures events[k].signal == (if k % 2 == 0 then Buy else Sell)
    decreases k
  {
    if k > 0 {
      AlternatingParity(events, k - 1);
    }
  }

  /** `get_entry_exit_dates`: `None` when no day is BUY (indexing the empty
      list raises there); otherwise the recorded events, closed with a SELL
      on `endDay` when the last one is a BUY. */
  function EntryExitDates(signals: seq<Signal>, days: seq<int>, endDay: int): (r: Option<seq<Event>>)
    requires |signals| == |days|
    ensures r.Some? <==> HasBuy(signals, |signals|)
    ensures r.Some? ==> var events := r.value;
              && |events| > 0 && |events| % 2 == 0
              && events[0].signal == Buy && events[|events| - 1].signal == Sell
              && Alternates(events)
    ensures r.Some? ==> ClosesRecorded(signals, days, endDay, r.value)
    ensures r.Some? && StrictlyIncreasing(days) && (forall i :: 0 <= i < |days| ==> days[i] < endDay) ==>
              StrictlyIncreasing(EventDays(r.value))
  {
    var events := ScanEvents(signals, days, |signals|);
    if |events| == 0 then None
    else
      var closed := CloseWithSell(events, endDay);
      RecordedEvents(signals, days, endDay);
      Some(closed)
  }

  /** `events` are the events of the recorded days `rec` (the first BUY and
      every later change), in order, followed by one SELL on `endDay`
      exactly when the last recorded day is a BUY. */
  predicate ClosesRecorded(signals: seq<Signal>, days: seq<int>, endDay: int, events: seq<Event>)
    requires |signals| == |days|
  {
    var rec := RecordedIndices(signals, |signals|);
    && 0 < |rec| <= |events| <= |rec| + 1
    && events[..|rec|] == EventsAt(signals, days, rec)
    && (|events| == |rec| + 1 <==> signals[rec[|rec| - 1]] == Buy)
    && (|events| == |rec| + 1 ==> events[|rec|] == Event(Sell, endDay))
  }

  /** The closing step of `get_entry_exit_dates`: a SELL on `endDay` is
      appended exactly when the last event is a BUY. */
  function CloseWithSell(events: seq<Event>, endDay: int): (closed: seq<Event>)
    requires |events| > 0
    ensures |events| <= |closed| <= |events| + 1 && closed[..|events|] == events
    ensures |closed| == |events| + 1 <==> events[|events| - 1].signal == Buy
    ensures |closed| == |events| + 1 ==> closed[|events|] == Event(Sell, endDay)
    ensures Alternates(events) && events[0].signal == Buy ==>
              && Alternates(closed) && closed[0].signal == Buy && closed[|closed| - 1].signal == Sell
              && |closed| % 2 == 0
    ensures StrictlyIncreasing(EventDays(events)) && events[|events| - 1].day < endDay ==>
              StrictlyIncreasing(EventDays(closed))
  {
    var closed := if events[|events| - 1].signal == Buy then events + [Event(Sell, endDay)] else events;
    if Alternates(events) && events[0].signal == Buy then
      AlternatingParity(closed, |closed| - 1);
      closed
    else
      closed
  }

  /** Closing the scan over the whole column gives the recorded days'
      events, closed as `get_entry_exit_dates` closes them. */
  lemma RecordedEvents(signals: seq<Signal>, days: seq<int>, endDay: int)
    requires |signals| == |days|
    requires |ScanEvents(signals, days, |signals|)| > 0
    ensures ClosesRecorded(signals, days, endDay, CloseWithSell(ScanEvents(signals, days, |signals|), endDay))
  {
    var rec := RecordedIndices(signals, |signals|);
    var events := ScanEvents(signals, days, |signals|);
    ScanRecordsChanges(signals, days, |signals|);
    assert events[|rec| - 1] == Event(signals[rec[|rec| - 1]], days[rec[|rec| - 1]]);
  }

  /** `construct_trades_list`: trade k has id k and pairs events 2k and 2k+1;
      `None` for an odd number of events, where `entry_exit_dates[i + 1]`
      runs past the end. */
  function ConstructTradesList(events: seq<Event>, ticker: string): (r: Option<seq<Trade>>)
    ensures r.Some? <==> |events| % 2 == 0
    ensures r.Some? ==> |r.value| == |events| / 2
    ensures r.Some? ==> forall k :: 0 <= k < |r.value| ==>
              r.value[k] == Trade(k, ticker, LotSize, Unlevered, events[2 * k].day, events[2 * k + 1].day)
  {
    if |events| % 2 == 1 then None
    else Some(PairDays(EventDays(events), ticker, 0))
  }

  /** The trade list keeps every event day: its entry and exit days, read in
      order, are the event days. */
  lemma ConstructTradesRoundTrip(events: seq<Event>, ticker: string)
    requires |events| % 2 == 0
    ensures ConstructTradesList(events, ticker).Some?
    ensures TradeDays(ConstructTradesList(events, ticker).value) == EventDays(events)
  {
    PairDaysRoundTrip(EventDays(events), ticker, 0);
  }

  /** Signal column to trade list. When some day is BUY, the trades come out
      numbered from 0 in chronological order without overlap, and each one
      opens before it closes provided the end date lies after every day. */
  function TradesFromSignals(signals: seq<Signal>, days: seq<int>, endDay: int, ticker: string)
    : (r: Option<seq<Trade>>)
    requires |signals| == |days|
    ensures r.Some? <==> HasBuy(signals, |signals|)
    ensures r.Some? ==> |r.value| > 0 && forall k :: 0 <= k < |r.value| ==> r.value[k].id == k
    ensures r.Some? && StrictlyIncreasing(days) && (forall i :: 0 <= i < |days| ==> days[i] < endDay) ==>
              && (forall k :: 0 <= k < |r.value| ==> r.value[k].buyDay < r.value[k].sellDay)
              && (forall k :: 0 <= k < |r.value| - 1 ==> r.value[k].sellDay < r.value[k + 1].buyDay)
  {
    match EntryExitDates(signals, days, endDay)
    case None => None
    case Some(events) =>
      PairDaysChronological(EventDays(events), ticker, 0);
      assert ConstructTradesList(events, ticker) == Some(PairDays(EventDays(events), ticker, 0));
      ConstructTradesList(events, ticker)
  }
}
