/** Two-valued trading signals, the days on which they change, and the
    pairing of alternating entry/exit days into trades that both strategy
    files and the strategy brain perform. */
module Signals {
  import opened Common

  /** The per-day rating a strategy emits: "BUY" or "SELL". */
  datatype Signal = Buy | Sell

  /** Every generated trade buys this many shares. */
  const LotSize: int := 100

  /** Every generated trade is unlevered. */
  const Unlevered: int := 1

  /** Indices `i` in [lo, hi) whose signal differs from the previous day's,
      in ascending order. */
  function Changes(signals: seq<Signal>, lo: nat, hi: nat): (r: seq<nat>)
    requires 1 <= lo && hi <= |signals|
    ensures forall k :: 0 <= k < |r| ==> lo <= r[k] < hi
    decreases hi
  {
    if hi <= lo then []
    else
      Changes(signals, lo, hi - 1)
        + (if signals[hi - 1] != signals[hi - 2] then [hi - 1] else [])
  }

  /** `[i]` when day `i` changes signal, else nothing. */
  function ChangeAt(signals: seq<Signal>, i: nat): (r: seq<nat>)
    requires 1 <= i < |signals|
    ensures |r| <= 1 && (|r| == 1 <==> signals[i] != signals[i - 1])
    ensures forall k :: 0 <= k < |r| ==> r[k] == i
  {
    if signals[i] != signals[i - 1] then [i] else []
  }

  /** The change days are exactly the days in [lo, hi) whose signal differs
      from the day before, listed in ascending order. */
  lemma ChangesFacts(signals: seq<Signal>, lo: nat, hi: nat)
    requires 1 <= lo && hi <= |signals|
    ensures var r := Changes(signals, lo, hi);
            && (forall k :: 0 <= k < |r| ==> signals[r[k]] != signals[r[k] - 1])
            && (forall i :: lo <= i < hi && signals[i] != signals[i - 1] ==> i in r)
            && (forall k, l :: 0 <= k < l < |r| ==> r[k] < r[l])
  {
    var r := Changes(signals, lo, hi);
    forall k | 0 <= k < |r|
      ensures signals[r[k]] != signals[r[k] - 1]
    {
      ChangeIsSwitch(signals, lo, hi, k);
    }
    forall i | lo <= i < hi && signals[i] != signals[i - 1]
      ensures i in r
    {
      var k := SwitchIsChange(signals, lo, hi, i);
      assert r[k] == i;
    }
    forall k, l | 0 <= k < l < |r|
      ensures r[k] < r[l]
    {
      ChangesOrdered(signals, lo, hi, k, l);
    }
  }

  lemma {:induction false} ChangeIsSwitch(signals: seq<Signal>, lo: nat, hi: nat, k: nat)
    requires 1 <= lo && hi <= |signals| && k < |Changes(signals, lo, hi)|
    ensures var d := Changes(signals, lo, hi)[k]; signals[d] != signals[d - 1]
    decreases hi
  {
    var r := Changes(signals, lo, hi);
    var before := Changes(signals, lo, hi - 1);
    var extra := ChangeAt(signals, hi - 1);
    assert r == before + extra by {
      ChangesStep(signals, lo, hi);
    }
    if k < |before| {
      ChangeIsSwitch(signals, lo, hi - 1, k);
      assert r[k] == before[k];
    } else {
      assert r[k] == extra[k - |before|];
    }
  }

  lemma {:induction false} SwitchIsChange(signals: seq<Signal>, lo: nat, hi: nat, i: nat) returns (k: nat)
    requires 1 <= lo <= i < hi <= |signals| && signals[i] != signals[i - 1]
    ensures k < |Changes(signals, lo, hi)| && Changes(signals, lo, hi)[k] == i
    decreases hi
  {
    ChangesStep(signals, lo, hi);
    var before := Changes(signals, lo, hi - 1);
    if i < hi - 1 {
      k := SwitchIsChange(signals, lo, hi - 1, i);
      assert Changes(signals, lo, hi)[k] == before[k];
    } else {
      k := |before|;
      assert Changes(signals, lo, hi)[k] == i;
    }
  }

  lemma {:induction false} ChangesOrdered(signals: seq<Signal>, lo: nat, hi: nat, k: nat, l: nat)
    requires 1 <= lo && hi <= |signals| && k < l < |Changes(signals, lo, hi)|
    ensures Changes(signals, lo, hi)[k] < Changes(signals, lo, hi)[l]
    decreases hi
  {
    ChangesStep(signals, lo, hi);
    var before := Changes(signals, lo, hi - 1);
    var r := Changes(signals, lo, hi);
    assert r[k] == before[k];
    if l < |before| {
      ChangesOrdered(signals, lo, hi - 1, k, l);
      assert r[l] == before[l];
    } else {
      assert r[l] == hi - 1;
    }
  }

  /** Extending the range by one day appends that day when it is a change. */
  lemma ChangesStep(signals: seq<Signal>, lo: nat, hi: nat)
    requires 1 <= lo < hi <= |signals|
    ensures Changes(signals, lo, hi) == Changes(signals, lo, hi - 1) + ChangeAt(signals, hi - 1)
  {
  }

  /** The trades `for i in range(len/2)` builds: trade k enters on `dates[2k]`
      and exits on `dates[2k+1]`, ids counting up from `firstId`; an odd last
      date is left unpaired. */
  function PairDays(dates: seq<int>, ticker: string, firstId: int): (trades: seq<Trade>)
    ensures |trades| == |dates| / 2
    ensures forall k :: 0 <= k < |trades| ==>
              trades[k] == Trade(firstId + k, ticker, LotSize, Unlevered, dates[2 * k], dates[2 * k + 1])
    decreases |dates|
  {
    if |dates| < 2 then []
    else
      var n := |dates| / 2;
      var earlier := PairDays(dates[..2 * n - 2], ticker, firstId);
      earlier + [Trade(firstId + n - 1, ticker, LotSize, Unlevered, dates[2 * n - 2], dates[2 * n - 1])]
  }

  /** The entry and exit day of each trade, in trade order. */
  function TradeDays(trades: seq<Trade>): (dates: seq<int>)
    ensures |dates| == 2 * |trades|
    decreases |trades|
  {
    if |trades| == 0 then []
    else TradeDays(trades[..|trades| - 1]) + [trades[|trades| - 1].buyDay, trades[|trades| - 1].sellDay]
  }

  /** Pairing an even number of dates loses nothing: flattening the trades
      gives the dates back. */
  lemma {:induction false} PairDaysRoundTrip(dates: seq<int>, ticker: string, firstId: int)
    requires |dates| % 2 == 0
    ensures TradeDays(PairDays(dates, ticker, firstId)) == dates
    decreases |dates|
  {
    if |dates| >= 2 {
      var prefix := dates[..|dates| - 2];
      PairDaysRoundTrip(prefix, ticker, firstId);
      var last := PairDaysStep(dates, ticker, firstId);
      TradeDaysAppend(PairDays(prefix, ticker, firstId), last);
      SplitLastTwo(dates);
    }
  }

  lemma SplitLastTwo(dates: seq<int>)
    requires |dates| >= 2
    ensures dates == dates[..|dates| - 2] + [dates[|dates| - 2], dates[|dates| - 1]]
  {
  }

  /** Two more dates add one trade on them at the end. */
  lemma PairDaysStep(dates: seq<int>, ticker: string, firstId: int) returns (last: Trade)
    requires |dates| >= 2 && |dates| % 2 == 0
    ensures last.buyDay == dates[|dates| - 2] && last.sellDay == dates[|dates| - 1]
    ensures PairDays(dates, ticker, firstId) == PairDays(dates[..|dates| - 2], ticker, firstId) + [last]
  {
    var n := |dates| / 2;
    assert 2 * n == |dates|;
    last := Trade(firstId + n - 1, ticker, LotSize, Unlevered, dates[2 * n - 2], dates[2 * n - 1]);
  }

  lemma TradeDaysAppend(trades: seq<Trade>, t: Trade)
    ensures TradeDays(trades + [t]) == TradeDays(trades) + [t.buyDay, t.sellDay]
  {
    assert (trades + [t])[..|trades|] == trades;
  }

  /** Pairing strictly increasing dates yields trades that each open before
      they close and that follow one another without overlap. */
  lemma PairDaysChronological(dates: seq<int>, ticker: string, firstId: int)
    ensures StrictlyIncreasing(dates) ==>
              var trades := PairDays(dates, ticker, firstId);
              && (forall k :: 0 <= k < |trades| ==> trades[k].buyDay < trades[k].sellDay)
              && (forall k :: 0 <= k < |trades| - 1 ==> trades[k].sellDay < trades[k + 1].buyDay)
  {
    var trades := PairDays(dates, ticker, firstId);
    forall k | 0 <= k < |trades| - 1
      ensures trades[k].sellDay == dates[2 * k + 1] && trades[k + 1].buyDay == dates[2 * k + 2]
    {
      assert 2 * (k + 1) == 2 * k + 2;
    }
  }
}
