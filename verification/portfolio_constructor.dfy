/** The portfolio table built from a trade list: for every day of the date
    index, the value of each ticker position, the cash, and the total
    value. Every pass of the source is pointwise over the rows, so the table
    is modelled row by row: a row starts filled with zeros and 10,000 cash,
    then goes through the buy pass, the price pass, the sell pass and the
    value pass in that order. */
module PortfolioConstructor {
  import opened Common

  /** The cash every simulation starts with. */
  const InitialCash: real := 10000.0

  /** The adjusted close of a ticker on a day, standing in for the price
      download. */
  type PriceFn = (string, int) -> real

  /** One row of the table: the index day, one column per ticker, cash and
      total value. */
  datatype Row = Row(day: int, columns: map<string, real>, cash: real, value: real)

  /** The distinct tickers of the trades, in order of first appearance. */
  function Tickers(trades: seq<Trade>): (tickers: seq<string>)
    ensures |tickers| <= |trades|
    decreases |trades|
  {
    if |trades| == 0 then []
    else
      var earlier := Tickers(trades[..|trades| - 1]);
      var x := trades[|trades| - 1].ticker;
      if x in earlier then earlier else earlier + [x]
  }

  /** No ticker is listed twice, and a ticker is listed exactly when some
      trade is on it. */
  lemma {:induction false} TickersFacts(trades: seq<Trade>)
    ensures forall i, j :: 0 <= i < j < |Tickers(trades)| ==> Tickers(trades)[i] != Tickers(trades)[j]
    ensures forall x :: x in Tickers(trades) <==> exists k :: 0 <= k < |trades| && trades[k].ticker == x
    decreases |trades|
  {
    if |trades| > 0 {
      var init := trades[..|trades| - 1];
      assert forall k :: 0 <= k < |init| ==> init[k] == trades[k];
      TickersFacts(init);
      var earlier := Tickers(init);
      var x := trades[|trades| - 1].ticker;
      assert Tickers(trades) == if x in earlier then earlier else earlier + [x];
    }
  }

  /** The ticker of every trade is listed. */
  lemma TickerListed(trades: seq<Trade>, k: nat)
    requires k < |trades|
    ensures trades[k].ticker in Tickers(trades)
  {
    TickersFacts(trades);
  }

  /** The row for `day` before any trade: every ticker column 0, cash
      10,000, value 0. */
  function InitialRow(tickers: seq<string>, day: int): (row: Row)
    ensures row.columns.Keys == set x | x in tickers
  {
    Row(day, map x | x in tickers :: 0.0, InitialCash, 0.0)
  }

  /** Whether `t` holds ticker `x` on `day`: the label slice `loc[buy:sell]`
      includes both ends. */
  predicate Covers(t: Trade, x: string, day: int) {
    t.ticker == x && t.buyDay <= day <= t.sellDay
  }

  /** What buying `t` takes from the cash on `day`: its quantity at the
      buy-day price from the buy day onward, nothing before. */
  function BuyCost(t: Trade, day: int, price: PriceFn): real {
    if t.buyDay <= day then (t.quantity as real) * price(t.ticker, t.buyDay) else 0.0
  }

  /** What selling `t` adds to the cash on `day`: its quantity at the
      sell-day price from the day after the sell day onward. */
  function SaleProceeds(t: Trade, day: int, price: PriceFn): real {
    if day >= t.sellDay + 1 then (t.quantity as real) * price(t.ticker, t.sellDay) else 0.0
  }

  /** Everything the buys have taken from the cash by `day`. */
  function Outflow(trades: seq<Trade>, day: int, price: PriceFn): real {
    SumOf(trades, t => BuyCost(t, day, price))
  }

  /** Everything the sales have added to the cash by `day`. */
  function Inflow(trades: seq<Trade>, day: int, price: PriceFn): real {
    SumOf(trades, t => SaleProceeds(t, day, price))
  }

  /** One iteration of the buy loop on one row: the quantity overwrites the
      ticker's column inside the trade's window, and the cost leaves the
      cash from the buy day on. */
  function BuyStep(row: Row, t: Trade, price: PriceFn): (r: Row)
    ensures r.day == row.day && r.value == row.value
    ensures r.columns.Keys == row.columns.Keys + {t.ticker} || r.columns == row.columns
    ensures forall x :: x in row.columns && x != t.ticker ==> x in r.columns && r.columns[x] == row.columns[x]
  {
    var columns := if Covers(t, t.ticker, row.day) then row.columns[t.ticker := t.quantity as real] else row.columns;
    Row(row.day, columns, row.cash - BuyCost(t, row.day, price), row.value)
  }

  /** The buy loop over all trades, in list order. */
  function BuyPass(row: Row, trades: seq<Trade>, price: PriceFn): (r: Row)
    ensures r.day == row.day && r.value == row.value
    decreases |trades|
  {
    if |trades| == 0 then row
    else BuyStep(BuyPass(row, trades[..|trades| - 1], price), trades[|trades| - 1], price)
  }

  /** The market value of `quantity` shares at `unitPrice`. */
  function Worth(quantity: real, unitPrice: real): real {
    quantity * unitPrice
  }

  /** The price loop on one row: each ticker column times that day's price. */
  function PricePass(row: Row, price: PriceFn): (r: Row)
    ensures r.day == row.day && r.cash == row.cash && r.value == row.value
    ensures r.columns.Keys == row.columns.Keys
    ensures forall x :: x in row.columns ==> r.columns[x] == Worth(row.columns[x], price(x, row.day))
  {
    Row(row.day, map x | x in row.columns :: Worth(row.columns[x], price(x, row.day)), row.cash, row.value)
  }

  /** One iteration of the sell loop on one row. */
  function SellStep(row: Row, t: Trade, price: PriceFn): (r: Row)
    ensures r.day == row.day && r.columns == row.columns && r.value == row.value
  {
    row.(cash := row.cash + SaleProceeds(t, row.day, price))
  }

  /** The sell loop over all trades, in list order. */
  function SellPass(row: Row, trades: seq<Trade>, price: PriceFn): (r: Row)
    ensures r.day == row.day && r.columns == row.columns && r.value == row.value
    decreases |trades|
  {
    if |trades| == 0 then row
    else SellStep(SellPass(row, trades[..|trades| - 1], price), trades[|trades| - 1], price)
  }

  /** The sum of the ticker columns, visiting the tickers in `tickers`
      order. */
  function ColumnTotal(columns: map<string, real>, tickers: seq<string>): real {
    SumOf(tickers, x => if x in columns then columns[x] else 0.0)
  }

  /** The value loop on one row: add every ticker column, then the cash. */
  function ValuePass(row: Row, tickers: seq<string>): (r: Row)
    ensures r.day == row.day && r.columns == row.columns && r.cash == row.cash
  {
    row.(value := row.value + ColumnTotal(row.columns, tickers) + row.cash)
  }

  /** The finished row for one index day. */
  function BuildRow(trades: seq<Trade>, day: int, price: PriceFn): (row: Row)
    ensures row.day == day
  {
    var tickers := Tickers(trades);
    var bought := BuyPass(InitialRow(tickers, day), trades, price);
    ValuePass(SellPass(PricePass(bought, price), trades, price), tickers)
  }

  /** `PortfolioConstructor.__init__`: one row per index day, in index
      order. */
  function Construct(trades: seq<Trade>, index: seq<int>, price: PriceFn): (table: seq<Row>)
    ensures |table| == |index|
    ensures forall i :: 0 <= i < |index| ==> table[i].day == index[i]
  {
    seq(|index|, i requires 0 <= i < |index| => BuildRow(trades, index[i], price))
  }

  // ---------------------------------------------------------------------
  // Closed forms of the passes

  /** The buy pass keeps the columns it started with when every trade's
      ticker is among them, and takes exactly the total buy cost from the
      cash. */
  lemma {:induction false} BuyPassCash(row: Row, trades: seq<Trade>, price: PriceFn)
    ensures BuyPass(row, trades, price).cash == row.cash - Outflow(trades, row.day, price)
    decreases |trades|
  {
    if |trades| > 0 {
      BuyPassCash(row, trades[..|trades| - 1], price);
    }
  }

  /** The buy pass adds no column for a ticker that some column already
      names. */
  lemma {:induction false} BuyPassKeys(row: Row, trades: seq<Trade>, price: PriceFn)
    requires forall k :: 0 <= k < |trades| ==> trades[k].ticker in row.columns
    ensures BuyPass(row, trades, price).columns.Keys == row.columns.Keys
    decreases |trades|
  {
    if |trades| > 0 {
      var init := trades[..|trades| - 1];
      assert forall k :: 0 <= k < |init| ==> init[k] == trades[k];
      BuyPassKeys(row, init, price);
    }
  }

  /** No trade from position `from` on covers `x` on `day`. */
  predicate NoneCoversFrom(trades: seq<Trade>, x: string, day: int, from: int) {
    forall j :: 0 <= j < |trades| && from <= j ==> !Covers(trades[j], x, day)
  }

  /** Trade `k` is the last one, in list order, that covers `x` on `day`. */
  predicate LastCovering(trades: seq<Trade>, x: string, day: int, k: int) {
    0 <= k < |trades| && Covers(trades[k], x, day) && NoneCoversFrom(trades, x, day, k + 1)
  }

  /** The quantity of `x` held on `day` once every trade is bought: that of
      the last trade, in list order, whose window covers the day, or 0 when
      none does. */
  function HeldQuantity(trades: seq<Trade>, x: string, day: int): real
    decreases |trades|
  {
    if |trades| == 0 then 0.0
    else if Covers(trades[|trades| - 1], x, day) then trades[|trades| - 1].quantity as real
    else HeldQuantity(trades[..|trades| - 1], x, day)
  }

  /** The held quantity is the quantity of the last covering trade, and 0
      when no trade covers the day: overlapping trades on one ticker
      overwrite each other rather than add up. */
  lemma HeldIsLastCovering(trades: seq<Trade>, x: string, day: int)
    ensures NoneCoversFrom(trades, x, day, 0) ==> HeldQuantity(trades, x, day) == 0.0
    ensures forall k :: LastCovering(trades, x, day, k) ==>
              HeldQuantity(trades, x, day) == trades[k].quantity as real
  {
    if NoneCoversFrom(trades, x, day, 0) {
      HeldWhenNoneCovers(trades, x, day);
    }
    forall k | LastCovering(trades, x, day, k)
      ensures HeldQuantity(trades, x, day) == trades[k].quantity as real
    {
      HeldAtLastCovering(trades, x, day, k);
    }
  }

  lemma {:induction false} HeldWhenNoneCovers(trades: seq<Trade>, x: string, day: int)
    requires NoneCoversFrom(trades, x, day, 0)
    ensures HeldQuantity(trades, x, day) == 0.0
    decreases |trades|
  {
    if |trades| > 0 {
      var init := trades[..|trades| - 1];
      assert NoneCoversFrom(init, x, day, 0) by {
        forall j | 0 <= j < |init|
          ensures !Covers(init[j], x, day)
        {
          assert init[j] == trades[j];
        }
      }
      HeldWhenNoneCovers(init, x, day);
    }
  }

  lemma {:induction false} HeldAtLastCovering(trades: seq<Trade>, x: string, day: int, k: int)
    requires LastCovering(trades, x, day, k)
    ensures HeldQuantity(trades, x, day) == trades[k].quantity as real
    decreases |trades|
  {
    var n := |trades| - 1;
    if k < n {
      var init := trades[..n];
      assert !Covers(trades[n], x, day);
      assert LastCovering(init, x, day, k) by {
        assert init[k] == trades[k];
        forall j | 0 <= j < |init| && k + 1 <= j
          ensures !Covers(init[j], x, day)
        {
          assert init[j] == trades[j];
        }
      }
      HeldAtLastCovering(init, x, day, k);
      assert init[k] == trades[k];
    }
  }

  /** After the buy pass a column holds the held quantity, or keeps its old
      value when no trade covers the day. */
  lemma {:induction false} BuyPassColumn(row: Row, trades: seq<Trade>, price: PriceFn, x: string)
    requires x in row.columns
    ensures x in BuyPass(row, trades, price).columns
    ensures BuyPass(row, trades, price).columns[x]
            == if NoneCoversFrom(trades, x, row.day, 0) then row.columns[x] else HeldQuantity(trades, x, row.day)
    decreases |trades|
  {
    if |trades| > 0 {
      var n := |trades| - 1;
      var init := trades[..n];
      var t := trades[n];
      assert forall k :: 0 <= k < n ==> init[k] == trades[k];
      BuyPassColumn(row, init, price, x);
      var before := BuyPass(row, init, price);
      var after := BuyPass(row, trades, price);
      assert after == BuyStep(before, t, price);
      if Covers(t, x, row.day) {
        assert !NoneCoversFrom(trades, x, row.day, 0);
        assert after.columns[x] == t.quantity as real;
      } else {
        assert after.columns[x] == before.columns[x];
        assert NoneCoversFrom(trades, x, row.day, 0) == NoneCoversFrom(init, x, row.day, 0);
      }
    }
  }

  /** The sell pass adds exactly the total sale proceeds to the cash. */
  lemma {:induction false} SellPassCash(row: Row, trades: seq<Trade>, price: PriceFn)
    ensures SellPass(row, trades, price).cash == row.cash + Inflow(trades, row.day, price)
    decreases |trades|
  {
    if |trades| > 0 {
      SellPassCash(row, trades[..|trades| - 1], price);
    }
  }

  // ---------------------------------------------------------------------
  // Properties of the finished table

  /** The columns of every row are exactly the tickers traded. */
  lemma ColumnsAreTickers(trades: seq<Trade>, day: int, price: PriceFn)
    ensures BuildRow(trades, day, price).columns.Keys
            == set k | 0 <= k < |trades| :: trades[k].ticker
  {
    var tickers := Tickers(trades);
    TickersFacts(trades);
    var init := InitialRow(tickers, day);
    BuyPassKeys(init, trades, price);
    var keys := BuildRow(trades, day, price).columns.Keys;
    assert keys == init.columns.Keys;
    forall x | x in keys
      ensures x in set k | 0 <= k < |trades| :: trades[k].ticker
    {
      var k :| 0 <= k < |trades| && trades[k].ticker == x;
    }
  }

  /** Cash on each day is 10,000, less the cost of every trade bought on or
      before that day, plus the proceeds of every trade sold strictly
      before it. */
  lemma CashClosedForm(trades: seq<Trade>, day: int, price: PriceFn)
    ensures BuildRow(trades, day, price).cash
            == InitialCash - Outflow(trades, day, price) + Inflow(trades, day, price)
  {
    var tickers := Tickers(trades);
    var bought := BuyPass(InitialRow(tickers, day), trades, price);
    BuyPassCash(InitialRow(tickers, day), trades, price);
    SellPassCash(PricePass(bought, price), trades, price);
  }

  /** The cash does not depend on the order of the trade list. */
  lemma CashOrderIndependent(trades: seq<Trade>, reordered: seq<Trade>, day: int, price: PriceFn)
    requires multiset(trades) == multiset(reordered)
    ensures BuildRow(trades, day, price).cash == BuildRow(reordered, day, price).cash
  {
    CashClosedForm(trades, day, price);
    CashClosedForm(reordered, day, price);
    SumOfPermutation(trades, reordered, t => BuyCost(t, day, price));
    SumOfPermutation(trades, reordered, t => SaleProceeds(t, day, price));
  }

  /** Each ticker column is the held quantity, the quantity of the last
      trade covering the day or 0, times that day's price. */
  lemma ColumnIsHeldTimesPrice(trades: seq<Trade>, day: int, price: PriceFn, x: string)
    requires exists k :: 0 <= k < |trades| && trades[k].ticker == x
    ensures x in BuildRow(trades, day, price).columns
    ensures BuildRow(trades, day, price).columns[x] == Worth(HeldQuantity(trades, x, day), price(x, day))
  {
    var k0 :| 0 <= k0 < |trades| && trades[k0].ticker == x;
    TickerListed(trades, k0);
    var init := InitialRow(Tickers(trades), day);
    assert x in init.columns && init.columns[x] == 0.0;
    BuyPassColumn(init, trades, price, x);
    HeldIsLastCovering(trades, x, day);
    var bought := BuyPass(init, trades, price);
    assert bought.columns[x] == HeldQuantity(trades, x, day);
    BuildRowColumn(trades, day, price, x);
    PricedColumn(bought, price, x, day);
  }

  /** A column is 0 on a day no trade on its ticker covers. */
  lemma ColumnZeroOutsideWindows(trades: seq<Trade>, day: int, price: PriceFn, x: string)
    requires exists k :: 0 <= k < |trades| && trades[k].ticker == x
    requires NoneCoversFrom(trades, x, day, 0)
    ensures x in BuildRow(trades, day, price).columns
    ensures BuildRow(trades, day, price).columns[x] == 0.0
  {
    ColumnIsHeldTimesPrice(trades, day, price, x);
    HeldIsLastCovering(trades, x, day);
    ZeroWorth(HeldQuantity(trades, x, day), price(x, day));
  }

  lemma ZeroWorth(quantity: real, unitPrice: real)
    requires quantity == 0.0
    ensures Worth(quantity, unitPrice) == 0.0
  {
  }

  /** A column of the finished row is the same entry of the priced row
      after the buy pass. */
  lemma BuildRowColumn(trades: seq<Trade>, day: int, price: PriceFn, x: string)
    requires x in BuyPass(InitialRow(Tickers(trades), day), trades, price).columns
    ensures x in BuildRow(trades, day, price).columns
    ensures BuildRow(trades, day, price).columns[x]
            == PricePass(BuyPass(InitialRow(Tickers(trades), day), trades, price), price).columns[x]
  {
    var bought := BuyPass(InitialRow(Tickers(trades), day), trades, price);
    assert BuildRow(trades, day, price).columns == PricePass(bought, price).columns;
  }

  /** The price pass multiplies a column by the price of its ticker on the
      row's day. */
  lemma PricedColumn(row: Row, price: PriceFn, x: string, day: int)
    requires x in row.columns && row.day == day
    ensures x in PricePass(row, price).columns
    ensures PricePass(row, price).columns[x] == Worth(row.columns[x], price(x, day))
  {
  }

  /** The total value of a row is its cash plus all its ticker columns. */
  lemma ValueIsCashPlusPositions(trades: seq<Trade>, day: int, price: PriceFn)
    ensures var row := BuildRow(trades, day, price);
            row.value == row.cash + ColumnTotal(row.columns, Tickers(trades))
  {
    var tickers := Tickers(trades);
    var init := InitialRow(tickers, day);
    BuyPassCash(init, trades, price);
  }

  /** The value does not depend on the order the ticker set is visited in. */
  lemma ColumnTotalOrderIndependent(columns: map<string, real>, tickers: seq<string>, reordered: seq<string>)
    requires multiset(tickers) == multiset(reordered)
    ensures ColumnTotal(columns, tickers) == ColumnTotal(columns, reordered)
  {
    SumOfPermutation(tickers, reordered, x => if x in columns then columns[x] else 0.0);
  }

  /** Before the earliest buy day, with every trade selling no earlier than
      it buys, cash and value are both 10,000. */
  lemma UntouchedBeforeFirstBuy(trades: seq<Trade>, day: int, price: PriceFn)
    requires forall k :: 0 <= k < |trades| ==> day < trades[k].buyDay <= trades[k].sellDay
    ensures BuildRow(trades, day, price).cash == InitialCash
    ensures BuildRow(trades, day, price).value == InitialCash
  {
    CashClosedForm(trades, day, price);
    NothingBoughtYet(trades, day, price);
    ValueIsCashPlusPositions(trades, day, price);
    var row := BuildRow(trades, day, price);
    var tickers := Tickers(trades);
    TickersFacts(trades);
    forall i | 0 <= i < |tickers|
      ensures tickers[i] in row.columns && row.columns[tickers[i]] == 0.0
    {
      assert tickers[i] in tickers;
      ColumnZeroOutsideWindows(trades, day, price, tickers[i]);
    }
    ZeroColumns(row.columns, tickers);
  }

  lemma {:induction false} NothingBoughtYet(trades: seq<Trade>, day: int, price: PriceFn)
    requires forall k :: 0 <= k < |trades| ==> day < trades[k].buyDay <= trades[k].sellDay
    ensures Outflow(trades, day, price) == 0.0 && Inflow(trades, day, price) == 0.0
    decreases |trades|
  {
    if |trades| > 0 {
      var init := trades[..|trades| - 1];
      assert forall k :: 0 <= k < |init| ==> init[k] == trades[k];
      NothingBoughtYet(init, day, price);
    }
  }

  lemma {:induction false} ZeroColumns(columns: map<string, real>, tickers: seq<string>)
    requires forall i :: 0 <= i < |tickers| ==> tickers[i] in columns && columns[tickers[i]] == 0.0
    ensures ColumnTotal(columns, tickers) == 0.0
    decreases |tickers|
  {
    if |tickers| > 0 {
      var init := tickers[..|tickers| - 1];
      assert forall i :: 0 <= i < |init| ==> init[i] == tickers[i];
      ZeroColumns(columns, init);
    }
  }

  /** A single trade conserves value: 10,000 before it is bought; inside
      its window 10,000 plus the quantity times the price gain since the
      buy day; and from the sell day on 10,000 plus the realised gain, so
      settling the sale in cash on the following day changes nothing. */
  lemma SingleTradeValue(t: Trade, day: int, price: PriceFn)
    requires t.buyDay <= t.sellDay
    ensures var value := BuildRow([t], day, price).value;
            var q := t.quantity as real;
            && (day < t.buyDay ==> value == InitialCash)
            && (t.buyDay <= day <= t.sellDay ==>
                  value == InitialCash + q * price(t.ticker, day) - q * price(t.ticker, t.buyDay))
            && (day >= t.sellDay ==>
                  value == InitialCash + q * price(t.ticker, t.sellDay) - q * price(t.ticker, t.buyDay))
  {
    var row := BuildRow([t], day, price);
    SingleTradeCash(t, day, price);
    SingleTradeColumn(t, day, price);
    SingleTradeArithmetic(t, day, price, row.cash, row.columns[t.ticker], row.value);
  }

  /** The case analysis behind `SingleTradeValue`, on the row's figures. */
  lemma SingleTradeArithmetic(t: Trade, day: int, price: PriceFn, cash: real, held: real, value: real)
    requires t.buyDay <= t.sellDay
    requires cash == InitialCash - BuyCost(t, day, price) + SaleProceeds(t, day, price)
    requires held == if Covers(t, t.ticker, day) then (t.quantity as real) * price(t.ticker, day) else 0.0
    requires value == cash + held
    ensures var q := t.quantity as real;
            && (day < t.buyDay ==> value == InitialCash)
            && (t.buyDay <= day <= t.sellDay ==>
                  value == InitialCash + q * price(t.ticker, day) - q * price(t.ticker, t.buyDay))
            && (day >= t.sellDay ==>
                  value == InitialCash + q * price(t.ticker, t.sellDay) - q * price(t.ticker, t.buyDay))
  {
    if day == t.sellDay {
      assert price(t.ticker, day) == price(t.ticker, t.sellDay);
    }
  }

  /** With one trade, the cash is 10,000 less its cost once bought, plus its
      proceeds once sold. */
  lemma SingleTradeCash(t: Trade, day: int, price: PriceFn)
    ensures BuildRow([t], day, price).cash
            == InitialCash - BuyCost(t, day, price) + SaleProceeds(t, day, price)
  {
    CashClosedForm([t], day, price);
    SumOfSingleton(t, t => BuyCost(t, day, price));
    SumOfSingleton(t, t => SaleProceeds(t, day, price));
  }

  /** With one trade, the value is the cash plus its ticker's column, which
      holds the position's market value inside the window and 0 outside. */
  lemma SingleTradeColumn(t: Trade, day: int, price: PriceFn)
    ensures var row := BuildRow([t], day, price);
            && t.ticker in row.columns
            && row.value == row.cash + row.columns[t.ticker]
            && row.columns[t.ticker]
               == if Covers(t, t.ticker, day) then (t.quantity as real) * price(t.ticker, day) else 0.0
  {
    var row := BuildRow([t], day, price);
    ValueIsCashPlusPositions([t], day, price);
    ColumnIsHeldTimesPrice([t], day, price, t.ticker);
    assert [t][..0] == [];
    assert Tickers([t]) == [t.ticker];
    SumOfSingleton(t.ticker, x => if x in row.columns then row.columns[x] else 0.0);
  }

  /** The leverage field is read but never used: trades that differ only in
      leverage give the same table. */
  lemma LeverageIgnored(trades: seq<Trade>, levered: seq<Trade>, index: seq<int>, price: PriceFn)
    requires |levered| == |trades|
    requires forall k :: 0 <= k < |trades| ==> levered[k] == trades[k].(leverage := levered[k].leverage)
    ensures Construct(levered, index, price) == Construct(trades, index, price)
  {
    forall i | 0 <= i < |index|
      ensures BuildRow(levered, index[i], price) == BuildRow(trades, index[i], price)
    {
      var tickers := Tickers(trades);
      LeverageIgnoredTickers(trades, levered);
      var init := InitialRow(tickers, index[i]);
      LeverageIgnoredBuys(trades, levered, init, price);
      var priced := PricePass(BuyPass(init, trades, price), price);
      LeverageIgnoredSales(trades, levered, priced, price);
    }
  }

  lemma {:induction false} LeverageIgnoredTickers(trades: seq<Trade>, levered: seq<Trade>)
    requires |levered| == |trades|
    requires forall k :: 0 <= k < |trades| ==> levered[k] == trades[k].(leverage := levered[k].leverage)
    ensures Tickers(levered) == Tickers(trades)
    decreases |trades|
  {
    if |trades| > 0 {
      var n := |trades|;
      LeverageIgnoredTickers(trades[..n - 1], levered[..n - 1]);
    }
  }

  lemma {:induction false} LeverageIgnoredBuys(trades: seq<Trade>, levered: seq<Trade>, row: Row, price: PriceFn)
    requires |levered| == |trades|
    requires forall k :: 0 <= k < |trades| ==> levered[k] == trades[k].(leverage := levered[k].leverage)
    ensures BuyPass(row, levered, price) == BuyPass(row, trades, price)
    decreases |trades|
  {
    if |trades| > 0 {
      var n := |trades|;
      LeverageIgnoredBuys(trades[..n - 1], levered[..n - 1], row, price);
    }
  }

  lemma {:induction false} LeverageIgnoredSales(trades: seq<Trade>, levered: seq<Trade>, row: Row, price: PriceFn)
    requires |levered| == |trades|
    requires forall k :: 0 <= k < |trades| ==> levered[k] == trades[k].(leverage := levered[k].leverage)
    ensures SellPass(row, levered, price) == SellPass(row, trades, price)
    decreases |trades|
  {
    if |trades| > 0 {
      var n := |trades|;
      LeverageIgnoredSales(trades[..n - 1], levered[..n - 1], row, price);
    }
  }
}
