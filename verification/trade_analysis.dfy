/** Statistics of a trade list: each trade's return over its price window,
    the split into winners and losers, frequencies, win and loss rates,
    average holding lengths and returns, best and worst trades, and the
    longest winning and losing streaks. */
module TradeAnalysis {
  import opened Common

  /** The adjusted close of a ticker on a day, standing in for the price
      download. */
  type PriceFn = (string, int) -> real

  ghost predicate PositivePrices(price: PriceFn) {
    forall x, d :: price(x, d) > 0.0
  }

  // ---------------------------------------------------------------------
  // Returns

  /** The trading days of `days` inside [buy, sell]: the label slice
      `loc[start_date:end_date]` includes both ends. */
  function WindowDays(days: seq<int>, buy: int, sell: int): (w: seq<int>)
    ensures forall d :: d in w <==> d in days && buy <= d <= sell
    ensures StrictlyIncreasing(days) ==> StrictlyIncreasing(w)
    decreases |days|
  {
    if |days| == 0 then []
    else
      var init := days[..|days| - 1];
      var d := days[|days| - 1];
      assert days == init + [d];
      var earlier := WindowDays(init, buy, sell);
      assert StrictlyIncreasing(days) ==> forall j :: 0 <= j < |init| ==> init[j] < d;
      if buy <= d <= sell then
        assert StrictlyIncreasing(days) ==> forall j :: 0 <= j < |earlier| ==> earlier[j] in init && earlier[j] < d;
        earlier + [d]
      else earlier
  }

  /** A trade's return in percent: 100 times the last over the first close
      of its window, less one. `None` when the window holds no trading day,
      where `iloc` raises. */
  function TradeReturn(t: Trade, days: seq<int>, price: PriceFn): (r: Option<real>)
    requires PositivePrices(price)
    ensures r.Some? <==> exists d :: d in days && t.buyDay <= d <= t.sellDay
  {
    var w := WindowDays(days, t.buyDay, t.sellDay);
    if |w| == 0 then None
    else
      assert w[0] in w;
      var first := price(t.ticker, w[0]);
      var last := price(t.ticker, w[|w| - 1]);
      Some(100.0 * (last / first - 1.0))
  }

  /** With positive prices a return never reaches -100%, and it is positive
      exactly when the window's last close is above its first. */
  lemma ReturnSign(t: Trade, days: seq<int>, price: PriceFn)
    requires PositivePrices(price)
    requires TradeReturn(t, days, price).Some?
    ensures var w := WindowDays(days, t.buyDay, t.sellDay);
            var r := TradeReturn(t, days, price).value;
            && |w| > 0
            && r > -100.0
            && (r > 0.0 <==> price(t.ticker, w[|w| - 1]) > price(t.ticker, w[0]))
  {
    var w := WindowDays(days, t.buyDay, t.sellDay);
    var first := price(t.ticker, w[0]);
    var last := price(t.ticker, w[|w| - 1]);
    RatioFacts(last, first);
  }

  lemma RatioFacts(last: real, first: real)
    requires last > 0.0 && first > 0.0
    ensures last / first > 0.0
    ensures last / first > 1.0 <==> last > first
  {
    var q := last / first;
    assert q * first == last;
  }

  /** Every trade's window holds at least one trading day. */
  predicate AllPriced(trades: seq<Trade>, days: seq<int>, price: PriceFn)
    requires PositivePrices(price)
  {
    forall k :: 0 <= k < |trades| ==> TradeReturn(trades[k], days, price).Some?
  }

  /** `rets` lists the trades' returns, one per trade, in trade order. */
  predicate ReturnsOf(trades: seq<Trade>, days: seq<int>, price: PriceFn, rets: seq<real>)
    requires PositivePrices(price)
  {
    |rets| == |trades| && forall k :: 0 <= k < |trades| ==> TradeReturn(trades[k], days, price) == Some(rets[k])
  }

  /** `get_return_list`: one return per trade, in trade order; `None` if
      any trade's window is empty. */
  function ReturnList(trades: seq<Trade>, days: seq<int>, price: PriceFn): (r: Option<seq<real>>)
    requires PositivePrices(price)
    ensures r.Some? <==> AllPriced(trades, days, price)
    ensures r.Some? ==> ReturnsOf(trades, days, price, r.value)
    decreases |trades|
  {
    if |trades| == 0 then Some([])
    else
      var init := trades[..|trades| - 1];
      var t := trades[|trades| - 1];
      var rest := ReturnList(init, days, price);
      var x := TradeReturn(t, days, price);
      PricedStep(trades, days, price);
      if rest.None? || x.None? then None
      else
        ReturnsStep(trades, days, price, rest.value, x.value);
        Some(rest.value + [x.value])
  }

  /** A list of trades is priced exactly when all but its last are, and the
      last is. */
  lemma PricedStep(trades: seq<Trade>, days: seq<int>, price: PriceFn)
    requires PositivePrices(price) && |trades| > 0
    ensures AllPriced(trades, days, price)
            <==> AllPriced(trades[..|trades| - 1], days, price)
                 && TradeReturn(trades[|trades| - 1], days, price).Some?
  {
    var init := trades[..|trades| - 1];
    assert forall k :: 0 <= k < |init| ==> init[k] == trades[k];
  }

  /** Returns of all but the last trade, followed by the last one's, are the
      returns of the whole list. */
  lemma ReturnsStep(trades: seq<Trade>, days: seq<int>, price: PriceFn, rs: seq<real>, x: real)
    requires PositivePrices(price) && |trades| > 0
    requires ReturnsOf(trades[..|trades| - 1], days, price, rs)
    requires TradeReturn(trades[|trades| - 1], days, price) == Some(x)
    ensures ReturnsOf(trades, days, price, rs + [x])
  {
    var init := trades[..|trades| - 1];
    var out := rs + [x];
    forall k | 0 <= k < |trades|
      ensures TradeReturn(trades[k], days, price) == Some(out[k])
    {
      if k < |init| {
        assert out[k] == rs[k] && init[k] == trades[k];
      }
    }
  }

  // ---------------------------------------------------------------------
  // Winners and losers

  /** `positive_return_list`: returns above zero, in order. */
  function Winners(rets: seq<real>): (w: seq<real>)
    ensures forall x :: x in w <==> x in rets && x > 0.0
  {
    Filter(rets, x => x > 0.0)
  }

  /** `negative_return_list`: returns at or below zero, in order. */
  function Losers(rets: seq<real>): (l: seq<real>)
    ensures forall x :: x in l <==> x in rets && x <= 0.0
  {
    Filter(rets, x => x <= 0.0)
  }

  /** Winners and losers split the returns: together they hold every return
      exactly as often as the list does. */
  lemma WinnersLosersPartition(rets: seq<real>)
    ensures multiset(Winners(rets)) + multiset(Losers(rets)) == multiset(rets)
    ensures |Winners(rets)| + |Losers(rets)| == |rets|
  {
    FilterPartition(rets, x => x > 0.0, x => x <= 0.0);
  }

  /** `get_frequency_of_all_trades`. */
  function FrequencyOfAllTrades(trades: seq<Trade>): nat {
    |trades|
  }

  /** The winning and losing frequencies add up to the number of trades. */
  lemma FrequenciesAddUp(trades: seq<Trade>, rets: seq<real>)
    requires |rets| == |trades|
    ensures |Winners(rets)| + |Losers(rets)| == FrequencyOfAllTrades(trades)
  {
    WinnersLosersPartition(rets);
  }

  /** `get_win_rate`: the share of winners in percent; `None` for no trades,
      where the source divides by zero. */
  function WinRate(rets: seq<real>): (r: Option<real>)
    ensures r.Some? <==> |rets| > 0
    ensures r.Some? ==> r.value * (|rets| as real) == 100.0 * (|Winners(rets)| as real)
    ensures r.Some? ==> 0.0 <= r.value <= 100.0
  {
    if |rets| == 0 then None
    else
      WinnersLosersPartition(rets);
      var share := (|Winners(rets)| as real) / (|rets| as real);
      ShareBounds(|Winners(rets)|, |rets|);
      Percent(|Winners(rets)| as real, |rets| as real);
      Some(100.0 * share)
  }

  lemma Percent(part: real, whole: real)
    requires whole > 0.0
    ensures 100.0 * (part / whole) * whole == 100.0 * part
  {
    var q := part / whole;
    assert q * whole == part;
  }

  lemma ShareBounds(part: nat, whole: nat)
    requires 0 < whole && part <= whole
    ensures 0.0 <= (part as real) / (whole as real) <= 1.0
  {
    DivideBounds(part as real, whole as real, 0.0, 1.0);
  }

  /** `get_loss_rate`: 100 less the win rate. */
  function LossRate(rets: seq<real>): (r: Option<real>)
    ensures r.Some? <==> |rets| > 0
    ensures r.Some? ==> 0.0 <= r.value <= 100.0
  {
    match WinRate(rets)
    case None => None
    case Some(w) => Some(100.0 - w)
  }

  /** The loss rate is the share of losers in percent, so zero returns count
      towards it. */
  lemma LossRateIsLoserShare(rets: seq<real>)
    requires |rets| > 0
    ensures LossRate(rets).value == 100.0 * ((|Losers(rets)| as real) / (|rets| as real))
  {
    WinnersLosersPartition(rets);
    ComplementShare(|Winners(rets)| as real, |Losers(rets)| as real, |rets| as real);
  }

  lemma ComplementShare(w: real, l: real, n: real)
    requires n > 0.0 && w + l == n
    ensures 100.0 - 100.0 * (w / n) == 100.0 * (l / n)
  {
    assert w / n + l / n == (w + l) / n;
    assert n / n == 1.0;
  }

  // ---------------------------------------------------------------------
  // Average lengths and returns

  /** A trade's holding length in days. */
  function Length(t: Trade): real {
    (t.sellDay - t.buyDay) as real
  }

  /** The lengths of the trades whose return is a win (`winning`) or a loss
      (`!winning`), with the same boundary as the winner/loser split. */
  function LengthsWhere(trades: seq<Trade>, rets: seq<real>, winning: bool): (ls: seq<real>)
    requires |rets| == |trades|
    ensures |ls| <= |trades|
    decreases |trades|
  {
    if |trades| == 0 then []
    else
      var n := |trades| - 1;
      var earlier := LengthsWhere(trades[..n], rets[..n], winning);
      if (rets[n] > 0.0) == winning then earlier + [Length(trades[n])] else earlier
  }

  /** The selected lengths are those of exactly the trades whose return
      falls on the `winning` side of zero, in trade order: `idx` lists those
      trades' positions, increasing. */
  lemma {:induction false} LengthsWhereIndices(trades: seq<Trade>, rets: seq<real>, winning: bool)
    returns (idx: seq<nat>)
    requires |rets| == |trades|
    ensures |idx| == |LengthsWhere(trades, rets, winning)|
    ensures forall j :: 0 <= j < |idx| ==>
              idx[j] < |trades| && LengthsWhere(trades, rets, winning)[j] == Length(trades[idx[j]])
    ensures forall j, j' :: 0 <= j < j' < |idx| ==> idx[j] < idx[j']
    ensures forall k :: 0 <= k < |trades| ==> ((rets[k] > 0.0) == winning <==> k in idx)
    decreases |trades|
  {
    if |trades| == 0 {
      idx := [];
    } else {
      var n := |trades| - 1;
      var ti, ri := trades[..n], rets[..n];
      var e := LengthsWhereIndices(ti, ri, winning);
      var earlier := LengthsWhere(ti, ri, winning);
      assert forall k :: 0 <= k < n ==> ti[k] == trades[k] && ri[k] == rets[k];
      if (rets[n] > 0.0) == winning {
        idx := e + [n];
        assert LengthsWhere(trades, rets, winning) == earlier + [Length(trades[n])];
      } else {
        idx := e;
        assert LengthsWhere(trades, rets, winning) == earlier;
      }
    }
  }

  function AllLengths(trades: seq<Trade>): (ls: seq<real>)
    ensures |ls| == |trades| && forall k :: 0 <= k < |trades| ==> ls[k] == Length(trades[k])
  {
    seq(|trades|, k requires 0 <= k < |trades| => Length(trades[k]))
  }

  /** `get_average_length`: the mean holding length over all trades. */
  function AverageLength(trades: seq<Trade>): (r: Option<real>)
    ensures r.Some? <==> |trades| > 0
    ensures r.Some? ==> r.value == Sum(AllLengths(trades)) / (|trades| as real)
  {
    Mean(AllLengths(trades))
  }

  /** `get_average_winning_length`: the mean holding length of the trades
      whose return is above zero. */
  function AverageWinningLength(trades: seq<Trade>, rets: seq<real>): (r: Option<real>)
    requires |rets| == |trades|
    ensures r.Some? <==> |Winners(rets)| > 0
    ensures r.Some? ==> r.value == Sum(LengthsWhere(trades, rets, true)) / (|Winners(rets)| as real)
  {
    LengthsCount(trades, rets);
    Mean(LengthsWhere(trades, rets, true))
  }

  /** `get_average_losing_length`: the mean holding length of the trades
      whose return is at or below zero. */
  function AverageLosingLength(trades: seq<Trade>, rets: seq<real>): (r: Option<real>)
    requires |rets| == |trades|
    ensures r.Some? <==> |Losers(rets)| > 0
    ensures r.Some? ==> r.value == Sum(LengthsWhere(trades, rets, false)) / (|Losers(rets)| as real)
  {
    LengthsCount(trades, rets);
    Mean(LengthsWhere(trades, rets, false))
  }

  /** The winning and losing lengths are as many as the winners and the
      losers. */
  lemma {:induction false} LengthsCount(trades: seq<Trade>, rets: seq<real>)
    requires |rets| == |trades|
    ensures |LengthsWhere(trades, rets, true)| == |Winners(rets)|
    ensures |LengthsWhere(trades, rets, false)| == |Losers(rets)|
    decreases |trades|
  {
    if |trades| > 0 {
      var n := |trades| - 1;
      LengthsCount(trades[..n], rets[..n]);
      assert rets[..|rets| - 1] == rets[..n];
    }
  }

  /** The winning and losing lengths together add up to all the lengths. */
  lemma {:induction false} LengthsSum(trades: seq<Trade>, rets: seq<real>)
    requires |rets| == |trades|
    ensures Sum(LengthsWhere(trades, rets, true)) + Sum(LengthsWhere(trades, rets, false))
            == Sum(AllLengths(trades))
    decreases |trades|
  {
    if |trades| > 0 {
      var n := |trades| - 1;
      LengthsSum(trades[..n], rets[..n]);
      var all := AllLengths(trades);
      assert all[..n] == AllLengths(trades[..n]);
      var l := Length(trades[n]);
      var earlier := LengthsWhere(trades[..n], rets[..n], rets[n] > 0.0);
      assert (earlier + [l])[..|earlier|] == earlier;
    }
  }

  /** `get_average_returns`: the mean return. */
  function AverageReturns(rets: seq<real>): (r: Option<real>)
    ensures r.Some? <==> |rets| > 0
    ensures r.Some? ==> r.value == Sum(rets) / (|rets| as real)
  {
    Mean(rets)
  }

  /** `get_average_win_returns`: the mean of the winners, so above zero
      whenever there is a winner. */
  function AverageWinReturns(rets: seq<real>): (r: Option<real>)
    ensures r.Some? <==> |Winners(rets)| > 0
    ensures r.Some? ==> r.value == Sum(Winners(rets)) / (|Winners(rets)| as real)
    ensures r.Some? ==> r.value > 0.0
  {
    var w := Winners(rets);
    if |w| == 0 then None
    else
      assert Min(w) in w;
      Mean(w)
  }

  /** `get_average_loss_return`: the mean of the losers, so at most zero
      whenever there is a loser. */
  function AverageLossReturn(rets: seq<real>): (r: Option<real>)
    ensures r.Some? <==> |Losers(rets)| > 0
    ensures r.Some? ==> r.value == Sum(Losers(rets)) / (|Losers(rets)| as real)
    ensures r.Some? ==> r.value <= 0.0
  {
    var l := Losers(rets);
    if |l| == 0 then None
    else
      assert Max(l) in l;
      Mean(l)
  }

  // ---------------------------------------------------------------------
  // Best and worst trades

  /** `get_best_winning_trade`: the largest winner; `None` when there is
      none, where `np.max` raises. */
  function BestWinningTrade(rets: seq<real>): (r: Option<real>)
    ensures r.Some? <==> |Winners(rets)| > 0
    ensures r.Some? ==> r.value in rets && r.value > 0.0
                        && forall x :: x in rets && x > 0.0 ==> x <= r.value
  {
    var w := Winners(rets);
    if |w| == 0 then None
    else
      var m := Max(w);
      assert forall x :: x in w ==> x <= m;
      Some(m)
  }

  /** `get_worst_winning_trade`: the smallest winner. */
  function WorstWinningTrade(rets: seq<real>): (r: Option<real>)
    ensures r.Some? <==> |Winners(rets)| > 0
    ensures r.Some? ==> r.value in rets && r.value > 0.0
                        && forall x :: x in rets && x > 0.0 ==> r.value <= x
  {
    var w := Winners(rets);
    if |w| == 0 then None
    else
      var m := Min(w);
      assert forall x :: x in w ==> m <= x;
      Some(m)
  }

  /** `get_best_losing_trade`: the largest loser. */
  function BestLosingTrade(rets: seq<real>): (r: Option<real>)
    ensures r.Some? <==> |Losers(rets)| > 0
    ensures r.Some? ==> r.value in rets && r.value <= 0.0
                        && forall x :: x in rets && x <= 0.0 ==> x <= r.value
  {
    var l := Losers(rets);
    if |l| == 0 then None
    else
      var m := Max(l);
      assert forall x :: x in l ==> x <= m;
      Some(m)
  }

  /** `get_worst_losing_trade`: the smallest loser. */
  function WorstLosingTrade(rets: seq<real>): (r: Option<real>)
    ensures r.Some? <==> |Losers(rets)| > 0
    ensures r.Some? ==> r.value in rets && r.value <= 0.0
                        && forall x :: x in rets && x <= 0.0 ==> r.value <= x
  {
    var l := Losers(rets);
    if |l| == 0 then None
    else
      var m := Min(l);
      assert forall x :: x in l ==> m <= x;
      Some(m)
  }

  /** Every loser lies below every winner: the worst winner is above the
      best loser, and each class's worst is at most its best. */
  lemma BestWorstOrdered(rets: seq<real>)
    requires |Winners(rets)| > 0 && |Losers(rets)| > 0
    ensures WorstWinningTrade(rets).value <= BestWinningTrade(rets).value
    ensures WorstLosingTrade(rets).value <= BestLosingTrade(rets).value
    ensures BestLosingTrade(rets).value < WorstWinningTrade(rets).value
  {
  }

  // ---------------------------------------------------------------------
  // Best and worst trades as reported

  /** A figure rounded to `places` decimal places, `None` staying `None`:
      a whole number of units of the last place, at most half a unit away
      from the exact figure. */
  function ReportedTo(v: Option<real>, places: nat): (r: Option<real>)
    ensures r.Some? <==> v.Some?
    ensures r.Some? ==> Scaled(r.value, places) == Scaled(r.value, places).Floor as real
    ensures r.Some? ==> Scaled(v.value, places) - 0.5 <= Scaled(r.value, places) <= Scaled(v.value, places) + 0.5
  {
    match v
    case None => None
    case Some(x) => Some(RoundHalfEven(x, places))
  }

  /** `get_best_winning_trade` as written: `np.round` without places
      reports the best winner to a whole percent. */
  function BestWinningTradeAsWritten(rets: seq<real>): (r: Option<real>)
    ensures r.Some? <==> |Winners(rets)| > 0
    ensures r.Some? ==> r.value == r.value.Floor as real
                        && BestWinningTrade(rets).value - 0.5 <= r.value <= BestWinningTrade(rets).value + 0.5
  {
    ReportedTo(BestWinningTrade(rets), 0)
  }

  /** `get_best_losing_trade` as written: also a whole percent. */
  function BestLosingTradeAsWritten(rets: seq<real>): (r: Option<real>)
    ensures r.Some? <==> |Losers(rets)| > 0
    ensures r.Some? ==> r.value == r.value.Floor as real
                        && BestLosingTrade(rets).value - 0.5 <= r.value <= BestLosingTrade(rets).value + 0.5
  {
    ReportedTo(BestLosingTrade(rets), 0)
  }

  /** `get_worst_winning_trade`: the worst winner to two places, within half
      a hundredth of the exact figure. */
  function WorstWinningTradeReported(rets: seq<real>): (r: Option<real>)
    ensures r.Some? <==> |Winners(rets)| > 0
    ensures r.Some? ==> WorstWinningTrade(rets).value - 0.005 <= r.value <= WorstWinningTrade(rets).value + 0.005
  {
    assert Pow10(2) == 100.0;
    ReportedTo(WorstWinningTrade(rets), 2)
  }

  /** `get_worst_losing_trade`: the worst loser to two places. */
  function WorstLosingTradeReported(rets: seq<real>): (r: Option<real>)
    ensures r.Some? <==> |Losers(rets)| > 0
    ensures r.Some? ==> WorstLosingTrade(rets).value - 0.005 <= r.value <= WorstLosingTrade(rets).value + 0.005
  {
    assert Pow10(2) == 100.0;
    ReportedTo(WorstLosingTrade(rets), 2)
  }

  /** The best winner reported to two places, like the worst one. */
  function BestWinningTradeReported(rets: seq<real>): (r: Option<real>)
    ensures r.Some? <==> |Winners(rets)| > 0
    ensures r.Some? ==> BestWinningTrade(rets).value - 0.005 <= r.value <= BestWinningTrade(rets).value + 0.005
  {
    assert Pow10(2) == 100.0;
    ReportedTo(BestWinningTrade(rets), 2)
  }

  /** The best loser reported to two places, like the worst one. */
  function BestLosingTradeReported(rets: seq<real>): (r: Option<real>)
    ensures r.Some? <==> |Losers(rets)| > 0
    ensures r.Some? ==> BestLosingTrade(rets).value - 0.005 <= r.value <= BestLosingTrade(rets).value + 0.005
  {
    assert Pow10(2) == 100.0;
    ReportedTo(BestLosingTrade(rets), 2)
  }

  /** As written, a single winner of 0.4% and a single loser of -0.6% are
      reported with each class's best below its worst: the best winner reads
      0 and the worst 0.4, the best loser reads -1 and the worst -0.6. */
  lemma AsWrittenBestBelowWorst()
    ensures var rets := [0.4, -0.6];
            && BestWinningTradeAsWritten(rets) == Some(0.0) && WorstWinningTradeReported(rets) == Some(0.4)
            && BestLosingTradeAsWritten(rets) == Some(-1.0) && WorstLosingTradeReported(rets) == Some(-0.6)
  {
    var rets := [0.4, -0.6];
    assert Winners(rets) == [0.4];
    assert Losers(rets) == [-0.6];
    assert Pow10(2) == 100.0;
    assert Scaled(0.4, 2) == 40.0 && Scaled(-0.6, 2) == -60.0;
    assert Scaled(0.4, 0) == 0.4 && Scaled(-0.6, 0) == -0.6;
  }

  /** Reported to the same two places, every class's worst stays at most its
      best, and the best loser at most the worst winner. */
  lemma ReportedBestWorstOrdered(rets: seq<real>)
    requires |Winners(rets)| > 0 && |Losers(rets)| > 0
    ensures WorstWinningTradeReported(rets).value <= BestWinningTradeReported(rets).value
    ensures WorstLosingTradeReported(rets).value <= BestLosingTradeReported(rets).value
    ensures BestLosingTradeReported(rets).value <= WorstWinningTradeReported(rets).value
  {
    BestWorstOrdered(rets);
    RoundHalfEvenMonotone(WorstWinningTrade(rets).value, BestWinningTrade(rets).value, 2);
    RoundHalfEvenMonotone(WorstLosingTrade(rets).value, BestLosingTrade(rets).value, 2);
    RoundHalfEvenMonotone(BestLosingTrade(rets).value, WorstWinningTrade(rets).value, 2);
  }

  // ---------------------------------------------------------------------
  // Streaks

  /** The two counters of the streak loops: a win streak continues on a
      return of at least zero, a loss streak on a return below zero. */
  datatype Outcome = Win | Loss

  predicate Continues(x: real, o: Outcome) {
    match o
    case Win => x >= 0.0
    case Loss => x < 0.0
  }

  /** Every return in [lo, hi) continues the streak. */
  predicate AllContinue(s: seq<real>, lo: nat, hi: nat, o: Outcome)
    requires lo <= hi <= |s|
  {
    forall j :: lo <= j < hi ==> Continues(s[j], o)
  }

  /** `m` is the length of the longest run of consecutive returns that all
      continue the streak. */
  ghost predicate IsLongestRun(s: seq<real>, o: Outcome, m: nat) {
    && (exists lo, hi :: 0 <= lo <= hi <= |s| && hi - lo == m && AllContinue(s, lo, hi, o))
    && (forall lo, hi :: 0 <= lo <= hi <= |s| && AllContinue(s, lo, hi, o) ==> hi - lo <= m)
  }

  /** `get_longest_consecutive_wins` (for `Win`) and
      `get_longest_consecutive_losses` (for `Loss`): the running-counter
      scan. */
  method LongestStreak(s: seq<real>, o: Outcome) returns (maxLength: nat)
    ensures IsLongestRun(s, o, maxLength)
  {
    var current: nat := 0;
    maxLength := 0;
    ghost var bestLo: nat := 0;
    var i := 0;
    while i < |s|
      invariant 0 <= i <= |s|
      invariant current <= i && AllContinue(s, i - current, i, o)
      invariant i - current == 0 || !Continues(s[i - current - 1], o)
      invariant current <= maxLength
      invariant bestLo + maxLength <= i && AllContinue(s, bestLo, bestLo + maxLength, o)
      invariant forall lo, hi :: 0 <= lo <= hi <= i && AllContinue(s, lo, hi, o) ==> hi - lo <= maxLength
    {
      if Continues(s[i], o) {
        current := current + 1;
        if current > maxLength {
          maxLength := current;
          bestLo := i + 1 - current;
        }
      } else {
        current := 0;
      }
      forall lo, hi | 0 <= lo <= hi <= i + 1 && AllContinue(s, lo, hi, o)
        ensures hi - lo <= maxLength
      {
        if hi == i + 1 && current < i + 1 {
          RunStartsAfterBreak(s, lo, hi, o, i - current);
        }
      }
      i := i + 1;
    }
  }

  /** A run that reaches past a return that breaks the streak starts after
      it. */
  lemma RunStartsAfterBreak(s: seq<real>, lo: nat, hi: nat, o: Outcome, b: nat)
    requires lo <= hi <= |s| && AllContinue(s, lo, hi, o)
    requires b < hi && !Continues(s[b], o)
    ensures b < lo
  {
  }

  /** A win run and a loss run never share a return, so the longest of each
      together fit in the list; and a non-empty list has a streak of at
      least one of the two kinds. */
  lemma StreaksBound(s: seq<real>, wins: nat, losses: nat)
    requires IsLongestRun(s, Win, wins) && IsLongestRun(s, Loss, losses)
    ensures wins + losses <= |s|
    ensures |s| > 0 ==> wins >= 1 || losses >= 1
  {
    var a, a' :| 0 <= a <= a' <= |s| && a' - a == wins && AllContinue(s, a, a', Win);
    var b, b' :| 0 <= b <= b' <= |s| && b' - b == losses && AllContinue(s, b, b', Loss);
    var j := if a <= b then b else a;
    assert j < a' ==> s[j] >= 0.0;
    assert j < b' ==> s[j] < 0.0;
    if |s| > 0 {
      if s[0] >= 0.0 {
        assert AllContinue(s, 0, 1, Win);
      } else {
        assert AllContinue(s, 0, 1, Loss);
      }
    }
  }

  /** A zero return sits on different sides of the two boundaries: the
      split counts it as a loser, yet it extends a win streak and breaks a
      loss streak. */
  lemma ZeroReturnBoundary(wins: nat, losses: nat)
    requires IsLongestRun([0.0], Win, wins) && IsLongestRun([0.0], Loss, losses)
    ensures |Winners([0.0])| == 0 && |Losers([0.0])| == 1
    ensures wins == 1 && losses == 0
  {
    var s := [0.0];
    assert AllContinue(s, 0, 1, Win);
    var b, b' :| 0 <= b <= b' <= 1 && b' - b == losses && AllContinue(s, b, b', Loss);
    assert !Continues(s[0], Loss);
    WinnersLosersPartition(s);
  }
}
