/** The ENTRY/EXIT event scan and the trade order list that the moving-average
    strategy and the buy-on-up/sell-on-down strategy share word for word. */
module StrategyEvents {
  import opened Common
  import opened Signals

  datatype Kind = Entry | Exit

  /** One entry of `entry_exit_dates`: ("ENTRY", date) or ("EXIT", date). */
  datatype Mark = Mark(kind: Kind, day: int)

  /** The events recorded so far, and the trades built from them. */
  datatype Orders = Orders(marks: seq<Mark>, trades: seq<Trade>)

  /** The event a switch to `s` records: ENTRY on a switch to BUY, EXIT on a
      switch to SELL. */
  function KindOf(s: Signal): Kind {
    if s == Buy then Entry else Exit
  }

  predicate Alternates(marks: seq<Mark>) {
    forall k :: 0 <= k < |marks| - 1 ==> marks[k].kind != marks[k + 1].kind
  }

  function MarkDays(marks: seq<Mark>): (dates: seq<int>)
    ensures |dates| == |marks|
    ensures forall k :: 0 <= k < |marks| ==> dates[k] == marks[k].day
  {
    seq(|marks|, k requires 0 <= k < |marks| => marks[k].day)
  }

  /** The loop of `get_exit_entry_dates` after the first `n` days: day 0 is
      skipped, ENTRY is recorded on SELL then BUY, EXIT on BUY then SELL. */
  function ScanMarks(signals: seq<Signal>, days: seq<int>, n: nat): (marks: seq<Mark>)
    requires |signals| == |days| && n <= |signals|
    ensures |marks| > 0 ==> n > 1
    ensures Alternates(marks)
    ensures |marks| == 0 ==> forall j :: 0 <= j < n ==> signals[j] == signals[0]
    ensures |marks| > 0 ==> marks[0].kind == KindOf(if signals[0] == Buy then Sell else Buy)
    ensures |marks| > 0 ==> marks[|marks| - 1].kind == KindOf(signals[n - 1])
    ensures StrictlyIncreasing(days) ==>
              StrictlyIncreasing(MarkDays(marks)) && (|marks| > 0 ==> marks[|marks| - 1].day <= days[n - 1])
    decreases n
  {
    if n == 0 then []
    else
      var marks := ScanMarks(signals, days, n - 1);
      var count := n - 1;
      if count != 0 then
        if signals[count - 1] == Sell && signals[count] == Buy then
          AppendMark(marks, Mark(Entry, days[count]));
          marks + [Mark(Entry, days[count])]
        else if signals[count - 1] == Buy && signals[count] == Sell then
          AppendMark(marks, Mark(Exit, days[count]));
          marks + [Mark(Exit, days[count])]
        else
          marks
      else
        marks
  }

  /** Appending a mark of the other kind, dated after the last one, keeps the
      marks alternating and their days increasing. */
  lemma AppendMark(marks: seq<Mark>, m: Mark)
    requires Alternates(marks) && (|marks| > 0 ==> marks[|marks| - 1].kind != m.kind)
    ensures Alternates(marks + [m])
    ensures StrictlyIncreasing(MarkDays(marks)) && (|marks| > 0 ==> marks[|marks| - 1].day < m.day) ==>
              StrictlyIncreasing(MarkDays(marks + [m]))
  {
  }

  function MarksAt(signals: seq<Signal>, days: seq<int>, idx: seq<nat>): (marks: seq<Mark>)
    requires |signals| == |days|
    requires forall k :: 0 <= k < |idx| ==> idx[k] < |signals|
    ensures |marks| == |idx|
  {
    seq(|idx|, k requires 0 <= k < |idx| => Mark(KindOf(signals[idx[k]]), days[idx[k]]))
  }

  /** The scan records exactly the days from day 1 on whose signal differs
      from the previous day's, with the kind of the new signal. */
  lemma {:induction false} ScanMarksAtChanges(signals: seq<Signal>, days: seq<int>, n: nat)
    requires |signals| == |days| && n <= |signals|
    ensures ScanMarks(signals, days, n) == MarksAt(signals, days, Changes(signals, 1, n))
    decreases n
  {
    if n > 1 {
      ScanMarksAtChanges(signals, days, n - 1);
      ScanMarksStep(signals, days, n);
      ChangesStep(signals, 1, n);
      MarksAtAppend(signals, days, Changes(signals, 1, n - 1), ChangeAt(signals, n - 1));
    }
  }

  /** From day 1 on, one more day appends its event exactly when it changes
      signal. */
  lemma ScanMarksStep(signals: seq<Signal>, days: seq<int>, n: nat)
    requires |signals| == |days| && 1 < n <= |signals|
    ensures ScanMarks(signals, days, n)
            == ScanMarks(signals, days, n - 1) + MarksAt(signals, days, ChangeAt(signals, n - 1))
  {
    var c := n - 1;
    if signals[c] != signals[c - 1] {
      assert MarksAt(signals, days, ChangeAt(signals, c)) == [Mark(KindOf(signals[c]), days[c])];
    } else {
      assert MarksAt(signals, days, ChangeAt(signals, c)) == [];
    }
  }

  lemma MarksAtAppend(signals: seq<Signal>, days: seq<int>, idx: seq<nat>, extra: seq<nat>)
    requires |signals| == |days|
    requires forall k :: 0 <= k < |idx| ==> idx[k] < |signals|
    requires forall k :: 0 <= k < |extra| ==> extra[k] < |signals|
    ensures MarksAt(signals, days, idx + extra) == MarksAt(signals, days, idx) + MarksAt(signals, days, extra)
  {
  }

  /** `get_exit_entry_dates` over the whole signal column. */
  function ExitEntryDates(signals: seq<Signal>, days: seq<int>): (marks: seq<Mark>)
    requires |signals| == |days|
    ensures |marks| > 0 ==> |signals| > 1
    ensures Alternates(marks)
    ensures |marks| > 0 && signals[0] == Sell ==> marks[0].kind == Entry
    ensures StrictlyIncreasing(days) ==> StrictlyIncreasing(MarkDays(marks))
    ensures StrictlyIncreasing(days) && |marks| > 0 ==> marks[|marks| - 1].day <= days[|days| - 1]
  {
    ScanMarks(signals, days, |signals|)
  }

  /** A day whose signal differs from day 0's is preceded, at or after day 1,
      by a day whose signal differs from the day before. */
  lemma {:induction false} ChangeBefore(signals: seq<Signal>, j: nat)
    requires j < |signals| && signals[j] != signals[0]
    ensures exists i :: 1 <= i <= j && signals[i] != signals[i - 1]
    decreases j
  {
    if signals[j - 1] == signals[0] {
      assert signals[j] != signals[j - 1];
    } else {
      ChangeBefore(signals, j - 1);
    }
  }

  /** The event list is non-empty exactly when the signal is not constant. */
  lemma EventsIffSignalChanges(signals: seq<Signal>, days: seq<int>)
    requires |signals| == |days|
    ensures |ExitEntryDates(signals, days)| > 0 <==> exists j :: 0 <= j < |signals| && signals[j] != signals[0]
  {
    var idx := Changes(signals, 1, |signals|);
    ChangesFacts(signals, 1, |signals|);
    ScanMarksAtChanges(signals, days, |signals|);
    assert |ExitEntryDates(signals, days)| == |idx|;
    if j :| 0 <= j < |signals| && signals[j] != signals[0] {
      ChangeBefore(signals, j);
      var i :| 1 <= i <= j && signals[i] != signals[i - 1];
      assert i in idx;
    }
    if |idx| > 0 {
      var i := idx[0];
      if signals[i] == signals[0] {
        assert signals[i - 1] != signals[0];
      }
    }
  }

  /** Alternating events that start with ENTRY have ENTRY exactly at the even
      positions. */
  lemma {:induction false} AlternatingParity(marks: seq<Mark>, k: nat)
    requires Alternates(marks) && |marks| > 0 && marks[0].kind == Entry
    requires k < |marks|
    ensures marks[k].kind == (if k % 2 == 0 then Entry else Exit)
    decreases k
  {
    if k > 0 {
      AlternatingParity(marks, k - 1);
    }
  }

  /** The event list after `get_trade_order_list`'s first statement: an EXIT
      on `today` is appended when the last event is an ENTRY. */
  function CloseOpenPosition(marks: seq<Mark>, today: int): (closed: seq<Mark>)
    requires |marks| > 0
    ensures |marks| <= |closed| <= |marks| + 1 && closed[..|marks|] == marks
    ensures closed[|closed| - 1].kind == Exit
    ensures marks[|marks| - 1].kind == Exit ==> closed == marks
    ensures marks[|marks| - 1].kind == Entry ==> closed == marks + [Mark(Exit, today)]
  {
    match marks[|marks| - 1].kind
    case Entry => marks + [Mark(Exit, today)]
    case Exit => marks
  }

  /** `get_trade_order_list` as evidently intended, with the appended exit
      dated `today` (the clock read becomes a parameter) and paired like any
      other exit. As written the source also raises whenever that exit is
      paired; `TradeOrderListAsWritten` keeps that behaviour. `None` for an
      empty event list, where `entry_exit_dates[-1]` raises. Trade i+1 pairs
      events 2i and 2i+1; an unpaired last event is dropped. */
  function TradeOrderList(marks: seq<Mark>, ticker: string, today: int): (r: Option<Orders>)
    ensures r.Some? <==> |marks| > 0
    ensures r.Some? ==> var closed := r.value.marks;
              && |marks| <= |closed| <= |marks| + 1 && closed[..|marks|] == marks
              && closed[|closed| - 1].kind == Exit
    ensures r.Some? ==> var closed := r.value.marks; var trades := r.value.trades;
              && |trades| == |closed| / 2
              && forall i :: 0 <= i < |trades| ==>
                   trades[i] == Trade(i + 1, ticker, LotSize, Unlevered, closed[2 * i].day, closed[2 * i + 1].day)
  {
    if |marks| == 0 then None
    else
      var closed := CloseOpenPosition(marks, today);
      Some(Orders(closed, PairDays(MarkDays(closed), ticker, 1)))
  }

  /** Calling `get_trade_order_list` again on the events the first call left
      behind changes nothing, whatever the clock says the second time. */
  lemma TradeOrderListIdempotent(marks: seq<Mark>, ticker: string, today: int, later: int)
    requires |marks| > 0
    ensures var first := TradeOrderList(marks, ticker, today).value;
            TradeOrderList(first.marks, ticker, later) == Some(first)
  {
  }

  /** The signal column to orders, as each strategy's constructor chains
      `get_exit_entry_dates` and `get_trade_order_list`. When the first day is
      SELL, every trade enters on a day the signal switched to BUY. */
  function OrdersFromSignals(signals: seq<Signal>, days: seq<int>, ticker: string, today: int)
    : (r: Option<Orders>)
    requires |signals| == |days|
    ensures r.Some? <==> |ExitEntryDates(signals, days)| > 0
    ensures r.Some? && |signals| > 0 && signals[0] == Sell ==>
              var trades := r.value.trades;
              forall i :: 0 <= i < |trades| ==>
                exists d :: 1 <= d < |days| && trades[i].buyDay == days[d]
                            && signals[d - 1] == Sell && signals[d] == Buy
  {
    var marks := ExitEntryDates(signals, days);
    if |marks| > 0 && |signals| > 0 && signals[0] == Sell then
      EntriesAreBuySwitches(signals, days, ticker, today);
      TradeOrderList(marks, ticker, today)
    else
      TradeOrderList(marks, ticker, today)
  }

  /** The day a given trade enters on: one where the signal switches from
      SELL to BUY. */
  lemma EntrySwitchDay(signals: seq<Signal>, days: seq<int>, ticker: string, today: int, i: nat)
    returns (d: nat)
    requires |signals| == |days| && |signals| > 0 && signals[0] == Sell
    requires OrdersFromSignals(signals, days, ticker, today).Some?
    requires i < |OrdersFromSignals(signals, days, ticker, today).value.trades|
    ensures 1 <= d < |days| && signals[d - 1] == Sell && signals[d] == Buy
    ensures OrdersFromSignals(signals, days, ticker, today).value.trades[i].buyDay == days[d]
  {
    var trades := OrdersFromSignals(signals, days, ticker, today).value.trades;
    assert exists d :: 1 <= d < |days| && trades[i].buyDay == days[d]
                       && signals[d - 1] == Sell && signals[d] == Buy;
    d :| 1 <= d < |days| && trades[i].buyDay == days[d] && signals[d - 1] == Sell && signals[d] == Buy;
  }

  /** When the first day is SELL, the days increase and `today` lies after
      every day, the trades are numbered 1, 2, ..., each opens before it
      closes, and each closes before the next opens. */
  lemma OrdersChronological(signals: seq<Signal>, days: seq<int>, ticker: string, today: int)
    requires |signals| == |days| && |signals| > 0 && signals[0] == Sell
    requires StrictlyIncreasing(days) && forall d :: 0 <= d < |days| ==> days[d] < today
    requires OrdersFromSignals(signals, days, ticker, today).Some?
    ensures var trades := OrdersFromSignals(signals, days, ticker, today).value.trades;
            && |trades| > 0
            && (forall i :: 0 <= i < |trades| ==> trades[i].id == i + 1)
            && (forall i :: 0 <= i < |trades| ==> trades[i].buyDay < trades[i].sellDay)
            && (forall i :: 0 <= i < |trades| - 1 ==> trades[i].sellDay < trades[i + 1].buyDay)
  {
    var marks := ExitEntryDates(signals, days);
    assert days[|days| - 1] < today;
    SellFirstGivesTrade(signals, days, ticker, today);
    OrderListChronological(marks, ticker, today);
  }

  /** Increasing event days, all before `today`, give trades numbered
      1, 2, ... that each open before they close and close before the next
      opens. */
  lemma OrderListChronological(marks: seq<Mark>, ticker: string, today: int)
    requires |marks| > 0 && StrictlyIncreasing(MarkDays(marks))
    requires marks[|marks| - 1].day < today
    ensures var trades := TradeOrderList(marks, ticker, today).value.trades;
            && (forall i :: 0 <= i < |trades| ==> trades[i].id == i + 1)
            && (forall i :: 0 <= i < |trades| ==> trades[i].buyDay < trades[i].sellDay)
            && (forall i :: 0 <= i < |trades| - 1 ==> trades[i].sellDay < trades[i + 1].buyDay)
  {
    ClosedChronological(marks, today);
    PairDaysChronological(MarkDays(CloseOpenPosition(marks, today)), ticker, 1);
  }

  /** When the first day is SELL, a non-empty event list yields at least
      one trade. */
  lemma SellFirstGivesTrade(signals: seq<Signal>, days: seq<int>, ticker: string, today: int)
    requires |signals| == |days| && |signals| > 0 && signals[0] == Sell
    requires OrdersFromSignals(signals, days, ticker, today).Some?
    ensures |OrdersFromSignals(signals, days, ticker, today).value.trades| > 0
  {
    var marks := ExitEntryDates(signals, days);
    assert marks[0].kind == Entry;
    var closed := CloseOpenPosition(marks, today);
    assert |closed| >= 2;
  }

  /** An ENTRY event sits on a day whose signal switched from SELL to BUY. */
  lemma EntryMarkIsBuySwitch(signals: seq<Signal>, days: seq<int>, k: nat)
    requires |signals| == |days|
    requires k < |ExitEntryDates(signals, days)| && ExitEntryDates(signals, days)[k].kind == Entry
    ensures exists d :: 1 <= d < |days| && ExitEntryDates(signals, days)[k].day == days[d]
                        && signals[d - 1] == Sell && signals[d] == Buy
  {
    var idx := Changes(signals, 1, |signals|);
    var marks := ExitEntryDates(signals, days);
    MarkAtChange(signals, days, k);
    ChangesFacts(signals, 1, |signals|);
    var d := idx[k];
    assert signals[d] != signals[d - 1];
    assert marks[k].day == days[d] && signals[d - 1] == Sell && signals[d] == Buy;
  }

  /** Event k of the whole scan is the k-th change day. */
  lemma MarkAtChange(signals: seq<Signal>, days: seq<int>, k: nat)
    requires |signals| == |days|
    requires k < |ExitEntryDates(signals, days)|
    ensures var idx := Changes(signals, 1, |signals|);
            k < |idx| && ExitEntryDates(signals, days)[k] == Mark(KindOf(signals[idx[k]]), days[idx[k]])
  {
    ScanMarksAtChanges(signals, days, |signals|);
  }

  /** With a SELL first day, every trade's entry is the day of a switch from
      SELL to BUY. */
  lemma EntriesAreBuySwitches(signals: seq<Signal>, days: seq<int>, ticker: string, today: int)
    requires |signals| == |days| && |signals| > 0 && signals[0] == Sell
    requires |ExitEntryDates(signals, days)| > 0
    ensures var trades := TradeOrderList(ExitEntryDates(signals, days), ticker, today).value.trades;
            forall i :: 0 <= i < |trades| ==>
              exists d :: 1 <= d < |days| && trades[i].buyDay == days[d]
                          && signals[d - 1] == Sell && signals[d] == Buy
  {
    var marks := ExitEntryDates(signals, days);
    var orders := TradeOrderList(marks, ticker, today).value;
    var closed := orders.marks;
    forall i | 0 <= i < |orders.trades|
      ensures exists d :: 1 <= d < |days| && orders.trades[i].buyDay == days[d]
                          && signals[d - 1] == Sell && signals[d] == Buy
    {
      assert 2 * i < |marks|;
      assert closed[2 * i] == marks[2 * i];
      AlternatingParity(marks, 2 * i);
      EntryMarkIsBuySwitch(signals, days, 2 * i);
    }
  }

  /** Closing an open position on a later day keeps the event days strictly
      increasing. */
  lemma ClosedChronological(marks: seq<Mark>, today: int)
    requires |marks| > 0 && StrictlyIncreasing(MarkDays(marks))
    requires marks[|marks| - 1].day < today
    ensures StrictlyIncreasing(MarkDays(CloseOpenPosition(marks, today)))
  {
  }

  /** `get_trade_order_list` exactly as written. The appended exit carries a
      plain calendar date, and the trade-building loop calls `.date()` on it,
      which that type does not have; so the call fails (`None`) whenever the
      appended exit falls inside a pair. */
  function TradeOrderListAsWritten(marks: seq<Mark>, ticker: string, today: int): (r: Option<Orders>)
    ensures r.None? <==> |marks| == 0 || (marks[|marks| - 1].kind == Entry && |marks| % 2 == 1)
    ensures r.Some? ==> r == TradeOrderList(marks, ticker, today)
  {
    if |marks| == 0 then None
    else
      var closed := CloseOpenPosition(marks, today);
      if |closed| > |marks| && |closed| % 2 == 0 then None
      else Some(Orders(closed, PairDays(MarkDays(closed), ticker, 1)))
  }

  /** A price that rises once and stays up leaves one open ENTRY. As written,
      building the trades then fails; the corrected list closes the position
      on `today` and yields one trade. */
  lemma AsWrittenFailsOnOpenPosition(ticker: string)
    ensures var signals := [Sell, Buy];
            var days := [10, 11];
            var marks := ExitEntryDates(signals, days);
            && marks == [Mark(Entry, 11)]
            && TradeOrderListAsWritten(marks, ticker, 20).None?
            && TradeOrderList(marks, ticker, 20)
               == Some(Orders([Mark(Entry, 11), Mark(Exit, 20)], [Trade(1, ticker, LotSize, Unlevered, 11, 20)]))
  {
    var signals := [Sell, Buy];
    var days := [10, 11];
    assert ScanMarks(signals, days, 1) == [];
    assert ScanMarks(signals, days, 2) == [Mark(Entry, 11)];
    var orders := TradeOrderList([Mark(Entry, 11)], ticker, 20).value;
    assert orders.marks == [Mark(Entry, 11), Mark(Exit, 20)];
    assert |orders.trades| == 1;
    assert orders.trades[0] == Trade(1, ticker, LotSize, Unlevered, 11, 20);
    assert orders.trades == [Trade(1, ticker, LotSize, Unlevered, 11, 20)];
  }

  /** The corrected list succeeds on every non-empty event list and never
      leaves a position open. */
  lemma CorrectedClosesEveryPosition(marks: seq<Mark>, ticker: string, today: int)
    requires |marks| > 0 && marks[0].kind == Entry && Alternates(marks)
    ensures var orders := TradeOrderList(marks, ticker, today);
            && orders.Some?
            && |orders.value.marks| % 2 == 0
            && |orders.value.trades| * 2 == |orders.value.marks|
  {
    var closed := CloseOpenPosition(marks, today);
    AlternatingParity(marks, |marks| - 1);
  }
}
