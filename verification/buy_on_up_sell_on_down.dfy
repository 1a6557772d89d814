/** The up/down strategy: BUY on a day whose close rose from the day before,
    SELL otherwise, then the shared ENTRY/EXIT scan and trade order list. */
module BuyOnUpSellOnDown {
  import opened Common
  import opened Signals
  import opened StrategyEvents

  /** `Close.diff()`: the change from the previous day's close, undefined
      (NaN) on the first day. */
  function Change(close: seq<real>): (change: seq<Option<real>>)
    ensures |change| == |close|
    ensures forall i :: 0 <= i < |close| ==> (change[i].Some? <==> i > 0)
  {
    seq(|close|, i requires 0 <= i < |close| => if i == 0 then None else Some(close[i] - close[i - 1]))
  }

  /** `is_up_day`: the change is strictly positive; a NaN change compares
      false. */
  predicate IsUpDay(change: Option<real>) {
    change.Some? && change.value > 0.0
  }

  /** `get_signals` over every row. */
  function UpDownSignals(close: seq<real>): (signals: seq<Signal>)
    ensures |signals| == |close|
    ensures forall i :: 0 <= i < |close| ==> (signals[i] == Buy <==> i > 0 && close[i] > close[i - 1])
  {
    var change := Change(close);
    seq(|close|, i requires 0 <= i < |close| => if IsUpDay(change[i]) then Buy else Sell)
  }

  /** A day is BUY exactly when its close is strictly above the previous
      day's; the first day, having no previous close, is SELL. */
  lemma UpDaySignal(close: seq<real>, i: nat)
    requires i < |close|
    ensures UpDownSignals(close)[i] == Buy <==> i > 0 && close[i] > close[i - 1]
    ensures i == 0 ==> UpDownSignals(close)[i] == Sell
  {
  }

  /** The strategy's constructor: signals, then `get_exit_entry_dates`, then
      `get_trade_order_list`. Whenever it succeeds it yields at least one
      trade, because day 0 is SELL and so the first event is an ENTRY. */
  function UpDownOrders(close: seq<real>, days: seq<int>, ticker: string, today: int): (r: Option<Orders>)
    requires |close| == |days|
    ensures r.Some? ==> |r.value.trades| > 0
  {
    var signals := UpDownSignals(close);
    var r := OrdersFromSignals(signals, days, ticker, today);
    if r.Some? then
      UpDaySignal(close, 0);
      SellFirstGivesTrade(signals, days, ticker, today);
      r
    else
      r
  }

  /** The strategy produces orders exactly when the close rises on some
      day; a series that never rises leaves the event list empty, where the
      source fails indexing its last element. */
  lemma OrdersIffSomeRise(close: seq<real>, days: seq<int>, ticker: string, today: int)
    requires |close| == |days|
    ensures UpDownOrders(close, days, ticker, today).Some?
            <==> exists d :: 1 <= d < |close| && close[d] > close[d - 1]
  {
    var signals := UpDownSignals(close);
    EventsIffSignalChanges(signals, days);
    if |close| > 0 {
      UpDaySignal(close, 0);
      if d :| 1 <= d < |close| && close[d] > close[d - 1] {
        UpDaySignal(close, d);
        assert signals[d] != signals[0];
      }
      if j :| 0 <= j < |signals| && signals[j] != signals[0] {
        UpDaySignal(close, j);
      }
    }
  }

  /** Day `d` starts a rise after a day that did not rise. */
  predicate RiseStarts(close: seq<real>, d: nat)
    requires 1 <= d < |close|
  {
    close[d] > close[d - 1] && !(d >= 2 && close[d - 1] > close[d - 2])
  }

  /** Trade `t` buys on the first day of some rise. */
  predicate EntersOnRise(close: seq<real>, days: seq<int>, t: Trade)
    requires |close| == |days|
  {
    exists d :: 1 <= d < |days| && t.buyDay == days[d] && RiseStarts(close, d)
  }

  /** Every trade of the strategy enters on the first day of a rise. */
  lemma EntriesStartRises(close: seq<real>, days: seq<int>, ticker: string, today: int)
    requires |close| == |days|
    requires UpDownOrders(close, days, ticker, today).Some?
    ensures var trades := UpDownOrders(close, days, ticker, today).value.trades;
            forall i :: 0 <= i < |trades| ==> EntersOnRise(close, days, trades[i])
  {
    var signals := UpDownSignals(close);
    var orders := OrdersFromSignals(signals, days, ticker, today);
    assert UpDownOrders(close, days, ticker, today) == orders;
    UpDaySignal(close, 0);
    var trades := orders.value.trades;
    forall i | 0 <= i < |trades|
      ensures EntersOnRise(close, days, trades[i])
    {
      var d := EntrySwitchDay(signals, days, ticker, today, i);
      assert RiseStarts(close, d) by {
        UpDaySignal(close, d);
        UpDaySignal(close, d - 1);
      }
    }
  }

  /** With increasing days and `today` after the last of them, the
      strategy's trades are numbered 1, 2, ..., each opens before it
      closes, and each closes before the next opens. */
  lemma UpDownOrdersChronological(close: seq<real>, days: seq<int>, ticker: string, today: int)
    requires |close| == |days|
    requires StrictlyIncreasing(days) && forall d :: 0 <= d < |days| ==> days[d] < today
    requires UpDownOrders(close, days, ticker, today).Some?
    ensures var trades := UpDownOrders(close, days, ticker, today).value.trades;
            && (forall i :: 0 <= i < |trades| ==> trades[i].id == i + 1)
            && (forall i :: 0 <= i < |trades| ==> trades[i].buyDay < trades[i].sellDay)
            && (forall i :: 0 <= i < |trades| - 1 ==> trades[i].sellDay < trades[i + 1].buyDay)
  {
    var signals := UpDownSignals(close);
    assert UpDownOrders(close, days, ticker, today) == OrdersFromSignals(signals, days, ticker, today);
    UpDaySignal(close, 0);
    OrdersChronological(signals, days, ticker, today);
  }
}
