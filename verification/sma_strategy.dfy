/** The moving-average strategy: BUY while the adjusted close is above its
    simple moving average, then the shared ENTRY/EXIT scan and trade order
    list. */
module SmaStrategy {
  import opened Common
  import opened Signals
  import opened StrategyEvents

  /** The sum of the closes on days [lo, hi), added from the left. */
  function WindowSum(adjClose: seq<real>, lo: nat, hi: nat): real
    requires lo <= hi <= |adjClose|
    decreases hi - lo
  {
    if lo == hi then 0.0 else WindowSum(adjClose, lo, hi - 1) + adjClose[hi - 1]
  }

  /** The window sum is the sum of the slice of those days. */
  lemma {:induction false} WindowSumIsSum(adjClose: seq<real>, lo: nat, hi: nat)
    requires lo <= hi <= |adjClose|
    ensures WindowSum(adjClose, lo, hi) == Sum(adjClose[lo..hi])
    decreases hi - lo
  {
    if lo < hi {
      WindowSumIsSum(adjClose, lo, hi - 1);
      assert adjClose[lo..hi][..hi - lo - 1] == adjClose[lo..hi - 1];
    }
  }

  /** `Adj Close.rolling(window=period).mean()`: defined (not NaN) exactly
      from day `period - 1` on. */
  function MovingAverage(adjClose: seq<real>, period: nat): (ma: seq<Option<real>>)
    requires period >= 1
    ensures |ma| == |adjClose|
    ensures forall i :: 0 <= i < |adjClose| ==> (ma[i].Some? <==> i + 1 >= period)
  {
    seq(|adjClose|, i requires 0 <= i < |adjClose| =>
      if i + 1 >= period then Some(WindowSum(adjClose, i + 1 - period, i + 1) / (period as real)) else None)
  }

  /** Once defined, the average on day `i` is the mean of the `period` closes
      ending on day `i`, so it lies between their least and greatest. */
  lemma MovingAverageIsWindowMean(adjClose: seq<real>, period: nat, i: nat)
    requires period >= 1 && i < |adjClose| && i + 1 >= period
    ensures var window := adjClose[i + 1 - period..i + 1];
            && MovingAverage(adjClose, period)[i] == Mean(window)
            && Min(window) <= MovingAverage(adjClose, period)[i].value <= Max(window)
  {
    var window := adjClose[i + 1 - period..i + 1];
    WindowSumIsSum(adjClose, i + 1 - period, i + 1);
    assert |window| == period;
    assert Mean(window).Some?;
  }

  /** `get_signals` for one row: the comparison `Adj Close > MA`, which is
      false when the average is NaN. */
  function SignalOf(adjClose: real, ma: Option<real>): Signal {
    match ma
    case None => Sell
    case Some(avg) => if adjClose > avg then Buy else Sell
  }

  /** `df.apply(get_signals, axis=1)`: one signal per row, BUY exactly
      where the average is defined and the close is strictly above it. */
  function SignalColumn(adjClose: seq<real>, ma: seq<Option<real>>): (signals: seq<Signal>)
    requires |ma| == |adjClose|
    ensures |signals| == |adjClose|
    ensures forall i :: 0 <= i < |adjClose| ==> (signals[i] == Buy <==> ma[i].Some? && adjClose[i] > ma[i].value)
  {
    seq(|adjClose|, i requires 0 <= i < |adjClose| => SignalOf(adjClose[i], ma[i]))
  }

  /** A day is BUY exactly when its average is defined and the close is
      strictly above it: a tie and every warm-up day give SELL. */
  lemma SignalIsStrictlyAbove(adjClose: seq<real>, period: nat, i: nat)
    requires period >= 1 && i < |adjClose|
    ensures var ma := MovingAverage(adjClose, period);
            && (SignalColumn(adjClose, ma)[i] == Buy <==> i + 1 >= period && adjClose[i] > ma[i].value)
            && (i + 1 < period ==> SignalColumn(adjClose, ma)[i] == Sell)
  {
  }

  /** Day 0 is always SELL: for a one-day window the average is the close
      itself, and for longer windows it is still NaN. */
  lemma FirstSignalIsSell(adjClose: seq<real>, period: nat)
    requires period >= 1 && |adjClose| > 0
    ensures StrategySignals(adjClose, period)[0] == Sell
  {
    var ma := MovingAverage(adjClose, period);
    if period == 1 {
      assert WindowSum(adjClose, 0, 1) == adjClose[0];
      assert ma[0] == Some(adjClose[0]);
    }
  }

  /** `get_signals`: the signal column of the whole price history. */
  function StrategySignals(adjClose: seq<real>, period: nat): (signals: seq<Signal>)
    requires period >= 1
    ensures |signals| == |adjClose|
    ensures forall i :: 0 <= i < |adjClose| ==>
              (signals[i] == Buy <==> i + 1 >= period && adjClose[i] > MovingAverage(adjClose, period)[i].value)
  {
    SignalColumn(adjClose, MovingAverage(adjClose, period))
  }

  /** The strategy's constructor: signals, then `get_exit_entry_dates`, then
      `get_trade_order_list`. Whenever it succeeds it yields at least one
      trade, because day 0 is SELL and so the first event is an ENTRY. */
  function StrategyOrders(adjClose: seq<real>, days: seq<int>, period: nat, ticker: string, today: int)
    : (r: Option<Orders>)
    requires period >= 1 && |adjClose| == |days|
    ensures r.Some? ==> |r.value.trades| > 0
  {
    var signals := StrategySignals(adjClose, period);
    var r := OrdersFromSignals(signals, days, ticker, today);
    if r.Some? then
      FirstSignalIsSell(adjClose, period);
      SellFirstGivesTrade(signals, days, ticker, today);
      r
    else
      r
  }

  /** The strategy produces orders exactly when the close is strictly above
      its defined moving average on some day; otherwise the event list is
      empty, where the source fails indexing its last element. */
  lemma OrdersIffSomeDayAbove(adjClose: seq<real>, days: seq<int>, period: nat, ticker: string, today: int)
    requires period >= 1 && |adjClose| == |days|
    ensures StrategyOrders(adjClose, days, period, ticker, today).Some?
            <==> exists d :: 0 <= d < |adjClose| && d + 1 >= period
                             && adjClose[d] > MovingAverage(adjClose, period)[d].value
  {
    var signals := StrategySignals(adjClose, period);
    assert StrategyOrders(adjClose, days, period, ticker, today) == OrdersFromSignals(signals, days, ticker, today);
    EventsIffSignalChanges(signals, days);
    if |adjClose| > 0 {
      FirstSignalIsSell(adjClose, period);
      if d :| 0 <= d < |adjClose| && d + 1 >= period && adjClose[d] > MovingAverage(adjClose, period)[d].value {
        SignalIsStrictlyAbove(adjClose, period, d);
        assert signals[d] != signals[0];
      }
      if j :| 0 <= j < |signals| && signals[j] != signals[0] {
        SignalIsStrictlyAbove(adjClose, period, j);
      }
    }
  }

  /** Day `d` is where the close crosses above its moving average: strictly
      above it on day `d`, not strictly above (or still warming up) the day
      before. */
  predicate CrossesAbove(adjClose: seq<real>, period: nat, d: nat)
    requires period >= 1 && 1 <= d < |adjClose|
  {
    var ma := MovingAverage(adjClose, period);
    && d + 1 >= period && adjClose[d] > ma[d].value
    && !(d >= period && adjClose[d - 1] > ma[d - 1].value)
  }

  /** A switch of the signal column from SELL to BUY is exactly a crossing
      above the moving average. */
  lemma BuySwitchIsCrossing(adjClose: seq<real>, period: nat, d: nat)
    requires period >= 1 && 1 <= d < |adjClose|
    ensures var signals := StrategySignals(adjClose, period);
            signals[d - 1] == Sell && signals[d] == Buy <==> CrossesAbove(adjClose, period, d)
  {
    SignalIsStrictlyAbove(adjClose, period, d);
    SignalIsStrictlyAbove(adjClose, period, d - 1);
  }

  /** Trade `t` buys on some day where the close crosses above its moving
      average. */
  predicate EntersOnCrossing(adjClose: seq<real>, days: seq<int>, period: nat, t: Trade)
    requires period >= 1 && |adjClose| == |days|
  {
    exists d :: 1 <= d < |days| && t.buyDay == days[d] && CrossesAbove(adjClose, period, d)
  }

  /** Every trade of the strategy enters on a day where the close crosses
      above its moving average. */
  lemma EntriesAboveAverage(adjClose: seq<real>, days: seq<int>, period: nat, ticker: string, today: int)
    requires period >= 1 && |adjClose| == |days|
    requires StrategyOrders(adjClose, days, period, ticker, today).Some?
    ensures var trades := StrategyOrders(adjClose, days, period, ticker, today).value.trades;
            forall i :: 0 <= i < |trades| ==> EntersOnCrossing(adjClose, days, period, trades[i])
  {
    var signals := StrategySignals(adjClose, period);
    var orders := OrdersFromSignals(signals, days, ticker, today);
    assert StrategyOrders(adjClose, days, period, ticker, today) == orders;
    FirstSignalIsSell(adjClose, period);
    var trades := orders.value.trades;
    forall i | 0 <= i < |trades|
      ensures EntersOnCrossing(adjClose, days, period, trades[i])
    {
      var d := EntrySwitchDay(signals, days, ticker, today, i);
      BuySwitchIsCrossing(adjClose, period, d);
    }
  }

  /** A successful run of the strategy is the shared event scan applied to
      a non-empty signal column that starts with SELL. */
  lemma StrategyOrdersStartWithSell(adjClose: seq<real>, days: seq<int>, period: nat, ticker: string, today: int)
    requires period >= 1 && |adjClose| == |days|
    requires StrategyOrders(adjClose, days, period, ticker, today).Some?
    ensures var signals := StrategySignals(adjClose, period);
            && |signals| > 1 && signals[0] == Sell
            && OrdersFromSignals(signals, days, ticker, today) == StrategyOrders(adjClose, days, period, ticker, today)
  {
    FirstSignalIsSell(adjClose, period);
  }

  /** With increasing days and `today` after the last of them, the
      strategy's trades are numbered 1, 2, ..., each opens before it
      closes, and each closes before the next opens. */
  lemma StrategyOrdersChronological(adjClose: seq<real>, days: seq<int>, period: nat, ticker: string, today: int)
    requires period >= 1 && |adjClose| == |days|
    requires StrictlyIncreasing(days) && forall d :: 0 <= d < |days| ==> days[d] < today
    requires StrategyOrders(adjClose, days, period, ticker, today).Some?
    ensures var trades := StrategyOrders(adjClose, days, period, ticker, today).value.trades;
            && (forall i :: 0 <= i < |trades| ==> trades[i].id == i + 1)
            && (forall i :: 0 <= i < |trades| ==> trades[i].buyDay < trades[i].sellDay)
            && (forall i :: 0 <= i < |trades| - 1 ==> trades[i].sellDay < trades[i + 1].buyDay)
  {
    StrategyOrdersStartWithSell(adjClose, days, period, ticker, today);
    OrdersChronological(StrategySignals(adjClose, period), days, ticker, today);
  }
}
