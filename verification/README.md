# Backtester core in Dafny

A model of the discrete core of a small Python stock backtester. The model has four parts:

- **Strategies.** A strategy turns a daily price history into a BUY/SELL signal column. It then turns the points where the signal switches into ENTRY/EXIT events, and pairs those events into a trade list. Each trade is `[UTID, Ticker, Quantity, Leverage, Buy Date, Sell Date]`.
- **Portfolio constructor.** This turns a trade list into a per-day table: one column per ticker holding quantity times price, then cash and total value.
- **Portfolio analysis.** This summarises the equity curve: capital figures, the running peak, the drawdown ratio, and the list of drawdown segments with their aggregates.
- **Trade analysis.** This summarises the trade list: per-trade returns, winners and losers, frequencies, win and loss rates, average lengths and returns, best and worst trades, and the longest winning and losing streaks.

Modelling conventions:

- Dates are integer day numbers.
- A price download becomes a total function `price(ticker, day)`.
- The date index of a table becomes a sequence of day numbers.
- A Python exception, or an infinite or NaN result (an empty `mean`, a division by a zero capital), becomes `None` of an `Option`.

Modules:

| module | file | models |
|---|---|---|
| `Common` | common.dfy | `Option`, the trade row, sums, `max`/`min`/`mean`, list filtering |
| `Signals` | signals.dfy | BUY/SELL, the days a signal switches, pairing days into trades |
| `StrategyBrain` | strategy_brain.dfy | `StrategyBrain.get_entry_exit_dates` and `construct_trades_list` |
| `StrategyEvents` | strategy_events.dfy | the ENTRY/EXIT scan and trade order list shared word for word by both strategies |
| `SmaStrategy` | sma_strategy.dfy | the moving-average signal of `SMA_StrategyConstructor` |
| `BuyOnUpSellOnDown` | buy_on_up_sell_on_down.dfy | the up-day signal of `BuyOnUpSellOnDown` (through `Strategy.is_up_day`) |
| `PortfolioConstructor` | portfolio_constructor.dfy | `PortfolioConstructor.__init__`, one table row at a time |
| `PortfolioAnalysis` | portfolio_analysis.dfy | capital figures, drawdown series and segments, drawdown aggregates |
| `TradeAnalysis` | trade_analysis.dfy | return list and trade statistics |

## Model

| member | source | states |
|---|---|---|
| Common.RoundToInt | Classes/TradeAnalysis.py:119-129 | `np.round` to a whole number: within one half of the input, a tie going to the even neighbour |
| Common.RoundHalfEven | Classes/TradeAnalysis.py:122-123 | `np.round(x, places)`: a whole number of last-place units, at most half a unit from `x` |
| Common.RoundHalfEvenMonotone | Classes/TradeAnalysis.py:119-129 | rounding to fixed places never reverses an ordering |
| Common.Mean | Classes/TradeAnalysis.py:99-101 | `numpy.mean`: defined iff the list is non-empty; then the value times the length is the sum, and it lies between the least and the greatest element |
| Signals.Changes | Strategies/SMA_StrategyConstructor.py:36-42 | every listed day lies in the scanned range |
| Signals.ChangesFacts | Strategies/SMA_StrategyConstructor.py:36-42 | the listed days are exactly the days of the range whose signal differs from the previous day's, in ascending order |
| Signals.PairDays | Classes/StrategyBrain.py:49-60 | `len/2` trades; trade k enters on date 2k and exits on date 2k+1, with lot 100 and leverage 1 |
| Signals.PairDaysRoundTrip | Classes/StrategyBrain.py:45-61 | for an even number of dates, reading the trades' entry and exit days back gives the original dates |
| Signals.PairDaysChronological | Classes/StrategyBrain.py:49-60 | pairing increasing dates gives trades that open before they close, each closing before the next opens |
| StrategyBrain.ScanEvents | Classes/StrategyBrain.py:30-37 | the scan is empty iff no BUY was seen yet; it starts with BUY, ends with the current signal, alternates, and has increasing days when the index increases |
| StrategyBrain.FirstBuy | Classes/StrategyBrain.py:31-34 | the first BUY day, with every earlier day SELL; `None` iff all days are SELL |
| StrategyBrain.ScanRecordsChanges | Classes/StrategyBrain.py:30-37 | the scan records exactly the first BUY day and every later day whose signal differs from the day before |
| StrategyBrain.AlternatingParity | Classes/StrategyBrain.py:36-37 | in alternating events that start with BUY, event k is BUY iff k is even |
| StrategyBrain.EntryExitDates | Classes/StrategyBrain.py:25-41 | fails iff no day is BUY; otherwise the events of the recorded days (first BUY, then every switch) in order, followed by one SELL dated the end date exactly when the last recorded day is BUY; even length, starts BUY, ends SELL, alternates, with increasing days when the end date is after the index |
| StrategyBrain.CloseWithSell | Classes/StrategyBrain.py:38-40 | keeps the events as a prefix and appends one SELL on the end date iff the last event is BUY; alternating events from BUY come out with even length, ending SELL; increasing days stay increasing for a later end date |
| StrategyBrain.RecordedEvents | Classes/StrategyBrain.py:30-40 | closing the full scan gives the recorded days' events closed as the source closes them |
| StrategyBrain.ConstructTradesList | Classes/StrategyBrain.py:45-61 | fails on an odd event list; otherwise trade k has id k, lot 100, leverage 1, and days of events 2k and 2k+1 |
| StrategyBrain.ConstructTradesRoundTrip | Classes/StrategyBrain.py:45-61 | no event day is lost: the trades' entry and exit days are the event days in order |
| StrategyBrain.TradesFromSignals | Classes/StrategyBrain.py:30-60 | succeeds iff some day is BUY; ids count from 0; trades are chronological and do not overlap |
| StrategyEvents.ScanMarks | Strategies/SMA_StrategyConstructor.py:36-42 | day 0 records nothing; events alternate, the first is the switch away from day 0's signal, the last matches the current signal, and days increase |
| StrategyEvents.ScanMarksAtChanges | Strategies/SMA_StrategyConstructor.py:36-42 | the scan records exactly the days from day 1 on whose signal differs from the previous day, ENTRY for a switch to BUY and EXIT for a switch to SELL |
| StrategyEvents.MarkAtChange | Strategies/SMA_StrategyConstructor.py:36-42 | event k is the k-th switch day with the kind of its new signal |
| StrategyEvents.ExitEntryDates | Strategies/SMA_StrategyConstructor.py:33-43 | events alternate; a SELL first day makes the first event ENTRY; event days increase and never pass the last index day |
| StrategyEvents.EventsIffSignalChanges | Strategies/SMA_StrategyConstructor.py:36-48 | the event list is non-empty iff the signal is not constant, which decides the failure at line 48 |
| StrategyEvents.AlternatingParity | Strategies/SMA_StrategyConstructor.py:36-42 | in alternating events that start with ENTRY, event k is ENTRY iff k is even |
| StrategyEvents.CloseOpenPosition | Strategies/SMA_StrategyConstructor.py:48-49 | keeps the events as a prefix and appends one EXIT dated today only when the last event is ENTRY; the result ends with EXIT |
| StrategyEvents.TradeOrderList | Strategies/SMA_StrategyConstructor.py:45-55 | the corrected list of "## Findings": fails iff there are no events; otherwise `floor(len/2)` trades numbered from 1 with lot 100 and leverage 1, pairing events 2i and 2i+1 of the closed list |
| StrategyEvents.TradeOrderListIdempotent | Strategies/SMA_StrategyConstructor.py:48-49 | a second call on the events the first call left returns the same list and appends nothing |
| StrategyEvents.ClosedChronological | Strategies/SMA_StrategyConstructor.py:48-49 | closing on a later day keeps the event days strictly increasing |
| StrategyEvents.CorrectedClosesEveryPosition | Strategies/SMA_StrategyConstructor.py:48-54 | for alternating events from ENTRY, the closed list has even length and every event belongs to a trade |
| StrategyEvents.OrdersFromSignals | Strategies/SMA_StrategyConstructor.py:23-24 | succeeds iff the event list is non-empty (over the corrected list of "## Findings", which closes an open position today); with a SELL first day every trade enters on a SELL-to-BUY switch |
| StrategyEvents.SellFirstGivesTrade | Strategies/SMA_StrategyConstructor.py:39-54 | a SELL first day and a non-empty event list give at least one trade |
| StrategyEvents.EntryMarkIsBuySwitch | Strategies/SMA_StrategyConstructor.py:39-40 | every ENTRY sits on a day whose signal switched from SELL to BUY |
| StrategyEvents.EntriesAreBuySwitches | Strategies/SMA_StrategyConstructor.py:39-54 | every trade's buy day is a SELL-to-BUY switch day |
| StrategyEvents.OrdersChronological | Strategies/SMA_StrategyConstructor.py:36-54 | with a SELL first day, increasing days and `today` after them: ids 1, 2, ..., buy before sell, and each sell before the next buy |
| StrategyEvents.TradeOrderListAsWritten | Strategies/SMA_StrategyConstructor.py:48-54 | as written the list fails exactly when it is empty or when the appended today's EXIT is paired into a trade |
| StrategyEvents.AsWrittenFailsOnOpenPosition | Strategies/SMA_StrategyConstructor.py:48-54 | signals SELL, BUY give one open ENTRY; the as-written list fails and the corrected list gives the single trade closed today |
| SmaStrategy.WindowSumIsSum | Strategies/SMA_StrategyConstructor.py:29 | the window sum equals the sum of the slice of those closes |
| SmaStrategy.MovingAverage | Strategies/SMA_StrategyConstructor.py:29 | one entry per day, defined exactly from day `period - 1` on |
| SmaStrategy.MovingAverageIsWindowMean | Strategies/SMA_StrategyConstructor.py:29 | the defined average is the mean of the last `period` closes and lies between their minimum and maximum |
| SmaStrategy.SignalColumn | Strategies/SMA_StrategyConstructor.py:57-61 | one signal per row; BUY iff that row's average is defined (not NaN) and the close is strictly above it |
| SmaStrategy.StrategySignals | Strategies/SMA_StrategyConstructor.py:29-30 | one signal per day; BUY iff the day is past the warm-up and the close is strictly above its moving average |
| SmaStrategy.SignalIsStrictlyAbove | Strategies/SMA_StrategyConstructor.py:57-61 | BUY iff the average is defined and the close is strictly above it; ties and warm-up days are SELL |
| SmaStrategy.FirstSignalIsSell | Strategies/SMA_StrategyConstructor.py:29-30 | day 0 is always SELL, for every period |
| SmaStrategy.StrategyOrders | Strategies/SMA_StrategyConstructor.py:17-24 | whenever the constructor succeeds it yields at least one trade |
| SmaStrategy.OrdersIffSomeDayAbove | Strategies/SMA_StrategyConstructor.py:48 | orders exist iff on some day the close is strictly above its defined average (over the corrected list of "## Findings", which closes an open position today) |
| SmaStrategy.BuySwitchIsCrossing | Strategies/SMA_StrategyConstructor.py:39-61 | a SELL-to-BUY switch is exactly a crossing of the close above its average |
| SmaStrategy.EntriesAboveAverage | Strategies/SMA_StrategyConstructor.py:36-54 | every trade enters on a day where the close crosses above its average |
| SmaStrategy.StrategyOrdersStartWithSell | Strategies/SMA_StrategyConstructor.py:22-24 | a successful run scans a signal column of at least two days that starts with SELL |
| SmaStrategy.StrategyOrdersChronological | Strategies/SMA_StrategyConstructor.py:36-54 | ids 1, 2, ..., each trade opens before it closes and closes before the next opens |
| BuyOnUpSellOnDown.Change | Classes/Strategy.py:166 | the day-over-day change is defined on every day but the first |
| BuyOnUpSellOnDown.UpDownSignals | Strategies/BuyOnUpSellOnDown.py:66-70 | one signal per day (through `Strategy.is_up_day`); BUY iff the close is strictly above the previous close, so the first day is SELL |
| BuyOnUpSellOnDown.UpDaySignal | Classes/Strategy.py:162-167 | BUY iff the close is strictly above the previous close; the first day is SELL |
| BuyOnUpSellOnDown.UpDownOrders | Strategies/BuyOnUpSellOnDown.py:24-32 | whenever the constructor succeeds it yields at least one trade |
| BuyOnUpSellOnDown.OrdersIffSomeRise | Strategies/BuyOnUpSellOnDown.py:57 | orders exist iff the close rises on some day (over the corrected list of "## Findings", which closes an open position today) |
| BuyOnUpSellOnDown.EntriesStartRises | Strategies/BuyOnUpSellOnDown.py:41-63 | every trade enters on the first day of a rise |
| BuyOnUpSellOnDown.UpDownOrdersChronological | Strategies/BuyOnUpSellOnDown.py:41-64 | ids 1, 2, ..., each trade opens before it closes and closes before the next opens |
| PortfolioConstructor.Tickers | Classes/PortfolioConstructor.py:22-27 | at most one ticker per trade |
| PortfolioConstructor.TickersFacts | Classes/PortfolioConstructor.py:22-27 | no ticker twice, and a ticker is listed iff some trade has it |
| PortfolioConstructor.TickerListed | Classes/PortfolioConstructor.py:22-27 | the ticker of every trade is listed |
| PortfolioConstructor.InitialRow | Classes/PortfolioConstructor.py:29-37 | the starting row has exactly one column per ticker |
| PortfolioConstructor.BuyStep | Classes/PortfolioConstructor.py:43-47 | one buy touches only its own ticker's column |
| PortfolioConstructor.BuyPass | Classes/PortfolioConstructor.py:42-47 | the buy loop leaves the day and value unchanged |
| PortfolioConstructor.PricePass | Classes/PortfolioConstructor.py:51-52 | each column becomes its quantity times that day's price; cash and keys are unchanged |
| PortfolioConstructor.SellStep | Classes/PortfolioConstructor.py:56-58 | a sale changes only the cash |
| PortfolioConstructor.SellPass | Classes/PortfolioConstructor.py:55-58 | the sell loop changes only the cash |
| PortfolioConstructor.ValuePass | Classes/PortfolioConstructor.py:61-63 | the value loop changes only the value |
| PortfolioConstructor.BuildRow | Classes/PortfolioConstructor.py:33-63 | the finished row belongs to the requested day |
| PortfolioConstructor.Construct | Classes/PortfolioConstructor.py:33-66 | one row per index day, in index order |
| PortfolioConstructor.BuyPassCash | Classes/PortfolioConstructor.py:42-47 | the buy loop takes exactly the cost of every trade bought on or before the day |
| PortfolioConstructor.BuyPassKeys | Classes/PortfolioConstructor.py:42-44 | buying a ticker that already has a column adds no column |
| PortfolioConstructor.HeldIsLastCovering | Classes/PortfolioConstructor.py:42-44 | the held quantity is the last covering trade's quantity (overwrite, not add), and 0 when no trade covers the day |
| PortfolioConstructor.BuyPassColumn | Classes/PortfolioConstructor.py:42-44 | after the buy loop a column holds the held quantity, or keeps its old value when no trade covers the day |
| PortfolioConstructor.SellPassCash | Classes/PortfolioConstructor.py:55-58 | the sell loop adds exactly the proceeds of every trade sold before the day |
| PortfolioConstructor.ColumnsAreTickers | Classes/PortfolioConstructor.py:22-35 | the columns of every row are exactly the traded tickers |
| PortfolioConstructor.CashClosedForm | Classes/PortfolioConstructor.py:37-58 | cash is 10,000 less the buys on or before the day plus the sales before it |
| PortfolioConstructor.CashOrderIndependent | Classes/PortfolioConstructor.py:42-58 | cash does not depend on the order of the trade list |
| PortfolioConstructor.ColumnIsHeldTimesPrice | Classes/PortfolioConstructor.py:42-52 | a column is the held quantity times the day's price |
| PortfolioConstructor.ColumnZeroOutsideWindows | Classes/PortfolioConstructor.py:29-52 | a column is 0 on a day no trade on its ticker covers |
| PortfolioConstructor.ValueIsCashPlusPositions | Classes/PortfolioConstructor.py:61-63 | value is cash plus the sum of all ticker columns |
| PortfolioConstructor.ColumnTotalOrderIndependent | Classes/PortfolioConstructor.py:61-62 | the column total does not depend on the order the tickers are visited in |
| PortfolioConstructor.UntouchedBeforeFirstBuy | Classes/PortfolioConstructor.py:37-47 | before every buy day, cash and value are both 10,000 |
| PortfolioConstructor.NothingBoughtYet | Classes/PortfolioConstructor.py:47-58 | before every buy day no cost and no proceeds have reached the cash |
| PortfolioConstructor.SingleTradeValue | Classes/PortfolioConstructor.py:42-63 | one trade conserves value: 10,000 before the buy, 10,000 plus the mark-to-market gain while held, and the locked-in gain from the sell day on |
| PortfolioConstructor.LeverageIgnored | Classes/PortfolioConstructor.py:25-58 | trades that differ only in leverage give the same table |
| PortfolioConstructor.LeverageIgnoredTickers | Classes/PortfolioConstructor.py:24-27 | leverage does not affect the ticker list |
| PortfolioConstructor.LeverageIgnoredBuys | Classes/PortfolioConstructor.py:43-47 | leverage does not affect the buy loop |
| PortfolioConstructor.LeverageIgnoredSales | Classes/PortfolioConstructor.py:56-58 | leverage does not affect the sell loop |
| PortfolioAnalysis.TimePeriod | Classes/PortfolioAnalysis.py:16-20 | non-negative for an increasing index, and positive when it has two days or more |
| PortfolioAnalysis.InitialCapital | Classes/PortfolioAnalysis.py:22-27 | a value of the curve, between the trough and the peak |
| PortfolioAnalysis.EndingCapital | Classes/PortfolioAnalysis.py:29-34 | a value of the curve, between the trough and the peak |
| PortfolioAnalysis.PeakEquity | Classes/PortfolioAnalysis.py:36-40 | a value of the curve that no value exceeds |
| PortfolioAnalysis.TroughEquity | Classes/PortfolioAnalysis.py:42-46 | a value of the curve that no value undercuts |
| PortfolioAnalysis.NetProfit | Classes/PortfolioAnalysis.py:48-53 | initial capital plus net profit is the ending capital; a one-day curve has no profit |
| PortfolioAnalysis.NetProfitPercentage | Classes/PortfolioAnalysis.py:55-62 | defined iff the initial capital is non-zero; positive iff the curve ends above its start, for a positive start |
| PortfolioAnalysis.CapitalBounds | Classes/PortfolioAnalysis.py:22-53 | trough <= initial, ending <= peak, and the net profit is within the peak-to-trough range |
| PortfolioAnalysis.Peak | Classes/PortfolioAnalysis.py:132 | the peak is at least the current value |
| PortfolioAnalysis.PeakNonDecreasing | Classes/PortfolioAnalysis.py:132 | inside the window the peak never falls and equals the running maximum |
| PortfolioAnalysis.DrawdownSeries | Classes/PortfolioAnalysis.py:133 | one drawdown ratio per day |
| PortfolioAnalysis.DrawdownRange | Classes/PortfolioAnalysis.py:132-133 | for a positive curve the drawdown lies in [0, 1) and is 0 on the first day |
| PortfolioAnalysis.ScanStep | Classes/PortfolioAnalysis.py:136-154 | an opening day becomes the remembered start, otherwise the start is kept; earlier segments are untouched and at most one is added, exactly on a closing day with a start known, running from that start to this day |
| PortfolioAnalysis.Scan | Classes/PortfolioAnalysis.py:136-154 | after `n` rows the remembered start is an opening row among them, and every segment closed on one of them |
| PortfolioAnalysis.StepOnZero | Classes/PortfolioAnalysis.py:145-154 | a zero day keeps the loop invariant, closing any pending segment |
| PortfolioAnalysis.StartOnNonZero | Classes/PortfolioAnalysis.py:145-146 | on a non-zero day the remembered start is an opening day with no zero since, after every recorded segment |
| PortfolioAnalysis.StepOnNonZeroInner | Classes/PortfolioAnalysis.py:145-154 | a non-zero day before the last keeps the loop invariant |
| PortfolioAnalysis.StepOnNonZeroLast | Classes/PortfolioAnalysis.py:147-154 | a non-zero last day closes the pending segment and keeps the invariant |
| PortfolioAnalysis.ScanInvariant | Classes/PortfolioAnalysis.py:136-154 | after every row the recorded segments are valid, ordered and as many as the openings seen |
| PortfolioAnalysis.Segments | Classes/PortfolioAnalysis.py:136-154 | each segment opens on a zero-to-non-zero day, stays non-zero, and closes on the next zero or the last day; segments are ordered and disjoint; there is one per opening day |
| PortfolioAnalysis.Records | Classes/PortfolioAnalysis.py:156-165 | one record per segment, record k for segment k: it starts on the segment's opening date, ends on its closing date, and its size is 100 times the largest drawdown over the segment's rows, both ends included; length is end minus start, non-negative for increasing days; records are in date order without overlap |
| PortfolioAnalysis.RecordFor | Classes/PortfolioAnalysis.py:156-165 | the record of one segment: its dates, the days between them, and 100 times a drawdown of the segment that none of its rows exceeds |
| PortfolioAnalysis.RecordSizes | Classes/PortfolioAnalysis.py:156-165 | every size is above the zero tolerance and below 100 |
| PortfolioAnalysis.DrawdownList | Classes/PortfolioAnalysis.py:125-166 | one record per zero-to-non-zero transition of the drawdown series; record k carries the dates of segment k and 100 times the largest drawdown over it |
| PortfolioAnalysis.DrawdownSizes | Classes/PortfolioAnalysis.py:156-165 | every drawdown of a positive curve is strictly positive and below 100 percent |
| PortfolioAnalysis.DrawdownExample | Classes/PortfolioAnalysis.py:132-165 | the curve 100, 90, 95, 100, 80, 100 gives exactly the segments days 1-3 of size 10 and days 4-5 of size 20 |
| PortfolioAnalysis.PeakExample | Classes/PortfolioAnalysis.py:132 | the example curve's peak is 100 on every day |
| PortfolioAnalysis.RecordsExample | Classes/PortfolioAnalysis.py:136-165 | the example's drawdown series segments into the two records above |
| PortfolioAnalysis.MaximumDrawdown | Classes/PortfolioAnalysis.py:168-173 | the largest size, attained by some record; fails on an empty list |
| PortfolioAnalysis.LengthOfMaximumDrawdown | Classes/PortfolioAnalysis.py:175-185 | the length of the first record attaining the maximum size |
| PortfolioAnalysis.LongestDrawdownPeriod | Classes/PortfolioAnalysis.py:187-192 | the largest length, attained by some record |
| PortfolioAnalysis.LongestDrawdown | Classes/PortfolioAnalysis.py:194-202 | the size of the first record attaining the longest length |
| PortfolioAnalysis.AverageDrawdown | Classes/PortfolioAnalysis.py:204-211 | defined iff the list is non-empty; then the sum of the sizes divided by the number of records |
| PortfolioAnalysis.AverageDrawdownPeriod | Classes/PortfolioAnalysis.py:213-220 | defined iff the list is non-empty; then the sum of the lengths divided by the number of records |
| PortfolioAnalysis.AveragesBelowMaxima | Classes/PortfolioAnalysis.py:204-220 | the average size is at most the maximum and at least some size; the average length is at most the longest |
| TradeAnalysis.WindowDays | Classes/TradeAnalysis.py:31-32 | exactly the index days inside the trade's inclusive window, increasing |
| TradeAnalysis.TradeReturn | Classes/TradeAnalysis.py:93-95 | defined iff some index day lies in the trade's window |
| TradeAnalysis.ReturnSign | Classes/TradeAnalysis.py:95 | with positive prices the return exceeds -100 and is positive iff the last close is above the first |
| TradeAnalysis.ReturnList | Classes/TradeAnalysis.py:90-97 | succeeds iff every trade's window holds a trading day; then one return per trade, in trade order, each that trade's return |
| TradeAnalysis.Winners | Classes/TradeAnalysis.py:15-17 | exactly the returns above zero |
| TradeAnalysis.Losers | Classes/TradeAnalysis.py:18-20 | exactly the returns at or below zero |
| TradeAnalysis.WinnersLosersPartition | Classes/TradeAnalysis.py:15-20 | winners and losers together are the returns as a multiset, so their counts add up |
| TradeAnalysis.FrequenciesAddUp | Classes/TradeAnalysis.py:56-63 | winning plus losing frequency is the frequency of all trades (`FrequencyOfAllTrades`, the number of trades) |
| TradeAnalysis.WinRate | Classes/TradeAnalysis.py:103-105 | defined iff there are returns; then 100 times the number of winners over the number of returns, in [0, 100] |
| TradeAnalysis.LossRate | Classes/TradeAnalysis.py:107-109 | defined iff there are returns; lies in [0, 100] |
| TradeAnalysis.LossRateIsLoserShare | Classes/TradeAnalysis.py:103-109 | the loss rate is the losers' share in percent, zero returns included |
| TradeAnalysis.AllLengths | Classes/TradeAnalysis.py:66-68 | one length per trade, sell day minus buy day |
| TradeAnalysis.AverageLength | Classes/TradeAnalysis.py:65-70 | defined iff there are trades; then the sum of all lengths over the number of trades |
| TradeAnalysis.LengthsWhere | Classes/TradeAnalysis.py:74-88 | at most one length per trade |
| TradeAnalysis.LengthsWhereIndices | Classes/TradeAnalysis.py:74-88 | the selected lengths are those of exactly the trades whose return lies on the chosen side of zero, in trade order |
| TradeAnalysis.AverageWinningLength | Classes/TradeAnalysis.py:72-79 | defined iff there is a winner; then the sum of the winners' lengths over the number of winners |
| TradeAnalysis.AverageLosingLength | Classes/TradeAnalysis.py:81-88 | defined iff there is a loser; then the sum of the losers' lengths over the number of losers |
| TradeAnalysis.LengthsCount | Classes/TradeAnalysis.py:72-88 | the winning and losing lengths are exactly as many as the winners and the losers |
| TradeAnalysis.LengthsSum | Classes/TradeAnalysis.py:65-88 | the winning and losing lengths add up to all the lengths |
| TradeAnalysis.AverageReturns | Classes/TradeAnalysis.py:99-101 | defined iff there are returns; then their sum over their number |
| TradeAnalysis.AverageWinReturns | Classes/TradeAnalysis.py:111-113 | defined iff there is a winner; then the winners' sum over their number, which is positive |
| TradeAnalysis.AverageLossReturn | Classes/TradeAnalysis.py:115-117 | defined iff there is a loser; then the losers' sum over their number, which is at most zero |
| TradeAnalysis.BestWinningTrade | Classes/TradeAnalysis.py:119-120 | a positive return that no positive return exceeds |
| TradeAnalysis.WorstWinningTrade | Classes/TradeAnalysis.py:122-123 | a positive return that no positive return undercuts |
| TradeAnalysis.BestLosingTrade | Classes/TradeAnalysis.py:125-126 | a non-positive return that no non-positive return exceeds |
| TradeAnalysis.WorstLosingTrade | Classes/TradeAnalysis.py:128-129 | a non-positive return that no non-positive return undercuts |
| TradeAnalysis.ReportedTo | Classes/TradeAnalysis.py:119-129 | a rounded figure: a whole number of units of the last place, at most half a unit from the exact one, `None` kept |
| TradeAnalysis.BestWinningTradeAsWritten | Classes/TradeAnalysis.py:119-120 | as written: the best winner as a whole percent, within half a percent of the exact best |
| TradeAnalysis.BestLosingTradeAsWritten | Classes/TradeAnalysis.py:125-126 | as written: the best loser as a whole percent, within half a percent of the exact best |
| TradeAnalysis.WorstWinningTradeReported | Classes/TradeAnalysis.py:122-123 | the worst winner to two places, within 0.005 of the exact worst |
| TradeAnalysis.WorstLosingTradeReported | Classes/TradeAnalysis.py:128-129 | the worst loser to two places, within 0.005 of the exact worst |
| TradeAnalysis.BestWinningTradeReported | Classes/TradeAnalysis.py:119-120 | corrected: the best winner to two places, within 0.005 of the exact best |
| TradeAnalysis.BestLosingTradeReported | Classes/TradeAnalysis.py:125-126 | corrected: the best loser to two places, within 0.005 of the exact best |
| TradeAnalysis.AsWrittenBestBelowWorst | Classes/TradeAnalysis.py:119-129 | for returns [0.4, -0.6] as written, the best winner reads 0 below the worst 0.4, and the best loser -1 below the worst -0.6 |
| TradeAnalysis.ReportedBestWorstOrdered | Classes/TradeAnalysis.py:119-129 | rounded to the same two places, each class's worst is at most its best and the best loser at most the worst winner |
| TradeAnalysis.BestWorstOrdered | Classes/TradeAnalysis.py:119-129 | worst <= best within each class, and the best loser is below the worst winner |
| TradeAnalysis.LongestStreak | Classes/TradeAnalysis.py:34-54 | the running-counter scan returns the length of the longest run of returns >= 0 (wins) or < 0 (losses) |
| TradeAnalysis.StreaksBound | Classes/TradeAnalysis.py:34-54 | the longest win and loss streaks together fit in the list, and a non-empty list has one of them at least 1 |
| TradeAnalysis.ZeroReturnBoundary | Classes/TradeAnalysis.py:15-54 | a single zero return is a loser in the split, yet it makes a win streak of 1 and no loss streak |

## Left out

- Market data. Price downloads become the function `price(ticker, day)` or a sequence of closes, and the date index becomes a parameter. This replaces the hard-coded 10 business days from 2013-01-02 in the portfolio constructor.
- Rounding. Every `round`/`np.round` is left out, and the model works on exact reals. There are two exceptions. The zero test of the drawdown scan rounds to three places and is modelled as a magnitude of at most 0.0005. The best and worst trades are also modelled as reported, rounded half to even (see "## Findings").
- Floating-point statistics are left out: annual return, annual risk, downside deviation, Sharpe, Sortino and Calmar ratios, and value at risk. They need fractional powers, standard deviations and the normal quantile.
- Indicators other than the simple moving average and the up-day test, plotting, printing, report formatting, the scripts, and the module-level demo runs.
- Columns that the analysis methods add to the shared data frame.
- PortfolioConstructor.Tickers: Python set order is arbitrary. The model lists tickers in order of first appearance, and `ColumnTotalOrderIndependent` shows the value does not depend on that order.
- PortfolioConstructor.Construct: pandas chained-assignment behaviour is not modelled. Each loop is modelled with its evident column semantics.
- PortfolioConstructor.Construct: a missing price for a ticker on an index day (NaN) is not modelled, because prices are a total function.
- PortfolioAnalysis.TimePeriod: like the other capital figures, it requires a non-empty curve. An empty index already fails when the analysis object is constructed.
- PortfolioAnalysis.DrawdownSeries: requires a positive equity curve. A zero or negative peak would give an infinite or NaN ratio in the source.
- PortfolioAnalysis.PeakNonDecreasing: holds only within the 99,999-row look-back window. Beyond it the rolling maximum can fall.
- PortfolioAnalysis.LengthOfMaximumDrawdown: requires each record's length to be its end minus its start. `Records` guarantees this for every list it builds.
- PortfolioAnalysis.LengthOfMaximumDrawdown: picks the first record of the exact largest size. The source's `.index` searches sizes already rounded to two places (Classes/PortfolioAnalysis.py:160-165), so near-ties can pick a different record. For sizes 10.001 (length 3) and 10.004 (length 40), both read 10.0 in the source, which returns 3; the model returns 40.
- PortfolioAnalysis.CapitalBounds: the orderings hold for the exact values only. The source rounds peak and trough to one place and the capitals to two, which can reverse them. For the one-day curve [100.06], the reported trough 100.1 is above the reported initial capital 100.06.
- TradeAnalysis.BestWorstOrdered: the orderings hold for the exact values only. The source rounds the best trades to a whole percent and the worst to two places, which can reverse them (see "## Findings"). `ReportedBestWorstOrdered` restores them when all four are rounded to two places.
- StrategyEvents.TradeOrderList: models the corrected list of "## Findings", which pairs the exit appended for an open position. Every strategy order member builds on it: `OrdersFromSignals`, `SmaStrategy.StrategyOrders`, `SmaStrategy.OrdersIffSomeDayAbove`, `BuyOnUpSellOnDown.UpDownOrders`, `BuyOnUpSellOnDown.OrdersIffSomeRise` and the lemmas about them. As written, the source also raises whenever the last switch is to BUY; `TradeOrderListAsWritten` models that.
- PortfolioAnalysis.AverageDrawdownPeriod: the final `int(np.round(...))` is dropped, and the exact mean length is returned.
- PortfolioAnalysis.AverageDrawdown, TradeAnalysis.AverageLength, TradeAnalysis.AverageWinningLength, TradeAnalysis.AverageLosingLength, TradeAnalysis.AverageReturns, TradeAnalysis.AverageWinReturns, TradeAnalysis.AverageLossReturn, TradeAnalysis.WinRate: the final `round(..., 2)` is dropped, and the exact value is returned.
- PortfolioAnalysis.ScanStep: a close with no start remembered would fail in the source on an unbound variable. It cannot arise (`ScanInvariant`), and the model records nothing for it.
- TradeAnalysis.TradeReturn: requires positive prices. A zero first close would give an infinite return in the source.
- TradeAnalysis.ReturnList: tickers missing from the shared price frame on some index days (NaN prices) are not modelled.
- SmaStrategy.MovingAverage: requires a period of at least 1.
- BuyOnUpSellOnDown.UpDownOrders: takes no period. The moving-average column that strategy computes is never read by its signal.
- `PortfolioAnalysis` keeps its risk-free rate only for the left-out ratios, so the rate is not part of the model.

## Findings

| source | as written | input that shows it | evidently intended | confidence | as-written member | corrected member |
|---|---|---|---|---|---|---|
| Strategies/SMA_StrategyConstructor.py:48-54 | the EXIT appended for an open position carries `dt.date.today()`, a `date`, and the loop then calls `.date()` on it, which a `date` does not have, so the list fails whenever that EXIT is paired into a trade (Strategies/BuyOnUpSellOnDown.py:57-63 is identical) | signals SELL, BUY on days 10, 11: one open ENTRY on day 11 | the open position is closed today, giving the trade (1, ticker, 100, 1, 11, today) | high, not executed | StrategyEvents.TradeOrderListAsWritten, StrategyEvents.AsWrittenFailsOnOpenPosition | StrategyEvents.TradeOrderList, StrategyEvents.CorrectedClosesEveryPosition |
| Classes/TradeAnalysis.py:119-129 | the best winning and best losing trades are rounded with `np.round(x)`, to a whole percent, while the worst ones use `np.round(x, 2)` | returns [0.4, -0.6]: best winner 0.0 below worst winner 0.4 (the same trade), best loser -1.0 below worst loser -0.6 | all four rounded to two places, so a class's best is never reported below its worst | medium, not executed | TradeAnalysis.BestWinningTradeAsWritten, TradeAnalysis.BestLosingTradeAsWritten, TradeAnalysis.AsWrittenBestBelowWorst | TradeAnalysis.BestWinningTradeReported, TradeAnalysis.BestLosingTradeReported, TradeAnalysis.ReportedBestWorstOrdered |
