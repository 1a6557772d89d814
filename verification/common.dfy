/** Shared vocabulary of the backtester model: optional results, the trade
    record every component exchanges, and folds over sequences of reals. */
module Common {

  /** A value that may be missing. `None` stands for the places where the
      Python code raises (an index into an empty list, `max` of an empty
      list) or yields NaN (the mean of an empty list). */
  datatype Option<T> = None | Some(value: T)

  /** One row of a trade list: [UTID, Ticker, Quantity, Leverage, Buy Date,
      Sell Date], with dates as day numbers. */
  datatype Trade = Trade(id: int, ticker: string, quantity: int, leverage: int,
                         buyDay: int, sellDay: int)

  /** Calendar days in chronological order, no day twice. */
  predicate StrictlyIncreasing(days: seq<int>) {
    forall i, j :: 0 <= i < j < |days| ==> days[i] < days[j]
  }

  /** Left-to-right sum, the order `numpy.sum` and a `+=` loop add in. */
  function Sum(s: seq<real>): real
    decreases |s|
  {
    if |s| == 0 then 0.0 else Sum(s[..|s| - 1]) + s[|s| - 1]
  }

  lemma {:induction false} SumAppend(s: seq<real>, t: seq<real>)
    ensures Sum(s + t) == Sum(s) + Sum(t)
    decreases |t|
  {
    if |t| == 0 {
      assert s + t == s;
    } else {
      assert (s + t)[..|s + t| - 1] == s + t[..|t| - 1];
      SumAppend(s, t[..|t| - 1]);
    }
  }

  /** `f` summed over the elements of `s`, left to right. */
  function SumOf<T>(s: seq<T>, f: T -> real): real
    decreases |s|
  {
    if |s| == 0 then 0.0 else SumOf(s[..|s| - 1], f) + f(s[|s| - 1])
  }

  lemma {:induction false} SumOfAppend<T>(s: seq<T>, t: seq<T>, f: T -> real)
    ensures SumOf(s + t, f) == SumOf(s, f) + SumOf(t, f)
    decreases |t|
  {
    if |t| == 0 {
      assert s + t == s;
    } else {
      assert (s + t)[..|s + t| - 1] == s + t[..|t| - 1];
      SumOfAppend(s, t[..|t| - 1], f);
    }
  }

  lemma SumOfSingleton<T>(x: T, f: T -> real)
    ensures SumOf([x], f) == f(x)
  {
    assert [x][..0] == [];
  }

  /** A sum over a collection does not depend on the order it is visited
      in: two sequences with the same elements give the same sum. */
  lemma {:induction false} SumOfPermutation<T>(s: seq<T>, t: seq<T>, f: T -> real)
    requires multiset(s) == multiset(t)
    ensures SumOf(s, f) == SumOf(t, f)
    decreases |s|
  {
    if |s| == 0 {
      assert |t| == |multiset(t)| == 0;
    } else {
      var init, x := s[..|s| - 1], s[|s| - 1];
      assert x in multiset(t);
      var j :| 0 <= j < |t| && t[j] == x;
      var rest := t[..j] + t[j + 1..];
      RemoveMatching(s, t, j);
      SumOfPermutation(init, rest, f);
      SumOfRemove(t, j, f);
    }
  }

  /** Taking the last element out of `s` and a matching one out of `t`
      leaves two sequences with the same elements. */
  lemma RemoveMatching<T>(s: seq<T>, t: seq<T>, j: nat)
    requires multiset(s) == multiset(t) && |s| > 0 && j < |t| && t[j] == s[|s| - 1]
    ensures multiset(t[..j] + t[j + 1..]) == multiset(s[..|s| - 1])
  {
    var init, x := s[..|s| - 1], s[|s| - 1];
    var rest := t[..j] + t[j + 1..];
    assert s == init + [x];
    assert t == t[..j] + [x] + t[j + 1..];
    calc {
      multiset(rest) + multiset{x};
      multiset(t[..j]) + multiset(t[j + 1..]) + multiset{x};
      multiset(t[..j] + [x] + t[j + 1..]);
      multiset(t);
      multiset(s);
      multiset(init + [x]);
      multiset(init) + multiset{x};
    }
    var a, b := multiset(rest), multiset(init);
    forall y
      ensures a[y] == b[y]
    {
      assert (a + multiset{x})[y] == (b + multiset{x})[y];
      assert (a + multiset{x})[y] == a[y] + multiset{x}[y];
      assert (b + multiset{x})[y] == b[y] + multiset{x}[y];
    }
  }

  /** Summing with one element left out, then adding it, is the full sum. */
  lemma SumOfRemove<T>(t: seq<T>, j: nat, f: T -> real)
    requires j < |t|
    ensures SumOf(t, f) == SumOf(t[..j] + t[j + 1..], f) + f(t[j])
  {
    var a, x, b := t[..j], t[j], t[j + 1..];
    SplitAt(t, j);
    SumOfAppend(a + [x], b, f);
    SumOfAppend(a, [x], f);
    SumOfAppend(a, b, f);
    SumOfSingleton(x, f);
  }

  lemma SplitAt<T>(t: seq<T>, j: nat)
    requires j < |t|
    ensures t == (t[..j] + [t[j]]) + t[j + 1..]
  {
  }

  /** Largest element, as Python's `max` and `numpy.max` return it. */
  function Max(s: seq<real>): (m: real)
    requires |s| > 0
    ensures m in s
    ensures forall i :: 0 <= i < |s| ==> s[i] <= m
    decreases |s|
  {
    if |s| == 1 then s[0]
    else
      var init := s[..|s| - 1];
      var m' := Max(init);
      assert forall i :: 0 <= i < |init| ==> init[i] == s[i];
      if s[|s| - 1] > m' then s[|s| - 1] else m'
  }

  /** Smallest element, as Python's `min` and `numpy.min` return it. */
  function Min(s: seq<real>): (m: real)
    requires |s| > 0
    ensures m in s
    ensures forall i :: 0 <= i < |s| ==> m <= s[i]
    decreases |s|
  {
    if |s| == 1 then s[0]
    else
      var init := s[..|s| - 1];
      var m' := Min(init);
      assert forall i :: 0 <= i < |init| ==> init[i] == s[i];
      if s[|s| - 1] < m' then s[|s| - 1] else m'
  }

  /** The largest of `s[lo..hi]`, found by walking the indices rather than
      by slicing. */
  function RangeMax(s: seq<real>, lo: nat, hi: nat): (m: real)
    requires lo < hi <= |s|
    ensures forall j :: lo <= j < hi ==> s[j] <= m
    ensures exists j :: lo <= j < hi && s[j] == m
    decreases hi - lo
  {
    if hi == lo + 1 then s[lo]
    else
      var m' := RangeMax(s, lo, hi - 1);
      if s[hi - 1] > m' then s[hi - 1] else m'
  }

  /** Walking the indices finds the same largest element as `Max` of the
      slice. */
  lemma RangeMaxIsMax(s: seq<real>, lo: nat, hi: nat)
    requires lo < hi <= |s|
    ensures RangeMax(s, lo, hi) == Max(s[lo..hi])
  {
    var window := s[lo..hi];
    var j :| lo <= j < hi && s[j] == RangeMax(s, lo, hi);
    assert window[j - lo] == s[j];
    var i :| 0 <= i < |window| && window[i] == Max(window);
    assert s[lo + i] == window[i];
  }

  /** Largest element of a list of whole numbers. */
  function MaxInt(s: seq<int>): (m: int)
    requires |s| > 0
    ensures m in s
    ensures forall i :: 0 <= i < |s| ==> s[i] <= m
    decreases |s|
  {
    if |s| == 1 then s[0]
    else
      var init := s[..|s| - 1];
      var m' := MaxInt(init);
      assert forall i :: 0 <= i < |init| ==> init[i] == s[i];
      if s[|s| - 1] > m' then s[|s| - 1] else m'
  }

  /** Python's `list.index`: the position of the first occurrence. */
  function FirstIndex<T(==)>(s: seq<T>, x: T): (i: nat)
    requires x in s
    ensures i < |s| && s[i] == x
    ensures forall j :: 0 <= j < i ==> s[j] != x
    decreases |s|
  {
    if s[0] == x then 0
    else
      assert x in s[1..];
      var i := FirstIndex(s[1..], x);
      assert forall j :: 1 <= j < i + 1 ==> s[j] == s[1..][j - 1];
      i + 1
  }

  /** The sum of `s` lies between |s| times its least and |s| times its
      greatest element. */
  lemma {:induction false} SumBounds(s: seq<real>, lo: real, hi: real)
    requires forall i :: 0 <= i < |s| ==> lo <= s[i] <= hi
    ensures (|s| as real) * lo <= Sum(s) <= (|s| as real) * hi
    decreases |s|
  {
    if |s| > 0 {
      var init := s[..|s| - 1];
      assert forall i :: 0 <= i < |init| ==> init[i] == s[i];
      SumBounds(init, lo, hi);
      assert (|s| as real) * lo == (|init| as real) * lo + lo;
      assert (|s| as real) * hi == (|init| as real) * hi + hi;
    }
  }

  lemma DivideBounds(total: real, n: real, lo: real, hi: real)
    requires n > 0.0
    requires n * lo <= total <= n * hi
    ensures lo <= total / n <= hi
  {
    var q := total / n;
    assert total == n * q;
  }

  /** `numpy.mean`: `None` for an empty list (NaN in the source), otherwise
      the value that, taken once per element, adds up to the sum; it lies
      between the least and the greatest element. */
  function Mean(s: seq<real>): (r: Option<real>)
    ensures r.Some? <==> |s| > 0
    ensures r.Some? ==> r.value * (|s| as real) == Sum(s)
    ensures r.Some? ==> Min(s) <= r.value <= Max(s)
  {
    if |s| == 0 then None
    else
      MeanWithin(s, Min(s), Max(s));
      Some(Sum(s) / (|s| as real))
  }

  /** The quotient of the sum by the length, times the length, is the sum
      again, and it stays within any bounds every element keeps. */
  lemma MeanWithin(s: seq<real>, lo: real, hi: real)
    requires |s| > 0
    requires forall i :: 0 <= i < |s| ==> lo <= s[i] <= hi
    ensures lo <= Sum(s) / (|s| as real) <= hi
    ensures (Sum(s) / (|s| as real)) * (|s| as real) == Sum(s)
  {
    SumBounds(s, lo, hi);
    DivideBounds(Sum(s), |s| as real, lo, hi);
    DivideBack(Sum(s), |s| as real);
  }

  lemma DivideBack(total: real, n: real)
    requires n > 0.0
    ensures (total / n) * n == total
  {
  }

  /** The elements of `s` that `keep` accepts, in order. */
  function Filter(s: seq<real>, keep: real -> bool): (r: seq<real>)
    ensures |r| <= |s|
    ensures forall x :: x in r <==> x in s && keep(x)
    decreases |s|
  {
    if |s| == 0 then []
    else
      var init := s[..|s| - 1];
      var last := s[|s| - 1];
      assert s == init + [last];
      if keep(last) then Filter(init, keep) + [last] else Filter(init, keep)
  }

  /** Filtering by a test and by its negation splits the list: the two parts
      together hold every element exactly as often as `s` does. */
  lemma {:induction false} FilterPartition(s: seq<real>, keep: real -> bool, drop: real -> bool)
    requires forall x :: drop(x) <==> !keep(x)
    ensures multiset(Filter(s, keep)) + multiset(Filter(s, drop)) == multiset(s)
    ensures |Filter(s, keep)| + |Filter(s, drop)| == |s|
    decreases |s|
  {
    if |s| > 0 {
      var init := s[..|s| - 1];
      assert s == init + [s[|s| - 1]];
      FilterPartition(init, keep, drop);
    }
  }

  // ---------------------------------------------------------------------
  // Rounding

  /** `10 ** n` as a real. */
  function Pow10(n: nat): (p: real)
    ensures p >= 1.0
  {
    if n == 0 then 1.0 else 10.0 * Pow10(n - 1)
  }

  /** The whole number nearest to `y`, a tie going to the even neighbour, as
      `numpy.round` and Python's `round` do. */
  function RoundToInt(y: real): (n: int)
    ensures y - 0.5 <= n as real <= y + 0.5
    ensures (n as real - y == 0.5 || y - n as real == 0.5) ==> n % 2 == 0
  {
    var f := y.Floor;
    var frac := y - f as real;
    if frac < 0.5 then f
    else if frac > 0.5 then f + 1
    else if f % 2 == 0 then f
    else f + 1
  }

  /** Rounding to a whole number never reverses an ordering. */
  lemma RoundToIntMonotone(a: real, b: real)
    requires a <= b
    ensures RoundToInt(a) <= RoundToInt(b)
  {
    if a < b {
      var na, nb := RoundToInt(a), RoundToInt(b);
      assert na as real <= a + 0.5 && b - 0.5 <= nb as real;
      assert na as real < nb as real + 1.0;
    }
  }

  /** `x` in units of its `places`-th decimal place. */
  function Scaled(x: real, places: nat): real {
    x * Pow10(places)
  }

  /** `round(x, places)` on an exact real: scale by `10 ** places`, round to
      the nearest whole number with ties to even, and scale back. The result
      is a whole number of units of the last place, at most half a unit
      away from `x`. */
  function RoundHalfEven(x: real, places: nat): (r: real)
    ensures Scaled(r, places) == RoundToInt(Scaled(x, places)) as real
    ensures Scaled(r, places).Floor as real == Scaled(r, places)
    ensures Scaled(x, places) - 0.5 <= Scaled(r, places) <= Scaled(x, places) + 0.5
  {
    var n := RoundToInt(Scaled(x, places));
    DivideBack(n as real, Pow10(places));
    assert (n as real).Floor == n;
    n as real / Pow10(places)
  }

  /** Scaling by a positive factor keeps an ordering, both ways. */
  lemma ScaleOrder(a: real, b: real, p: real)
    requires p > 0.0
    ensures a <= b <==> a * p <= b * p
  {
    assert b * p - a * p == (b - a) * p;
    if a <= b {
      assert (b - a) * p >= 0.0;
    } else {
      assert (a - b) * p > 0.0;
    }
  }

  /** Rounding to a fixed number of places never reverses an ordering. */
  lemma RoundHalfEvenMonotone(a: real, b: real, places: nat)
    requires a <= b
    ensures RoundHalfEven(a, places) <= RoundHalfEven(b, places)
  {
    var p := Pow10(places);
    ScaleOrder(a, b, p);
    RoundToIntMonotone(Scaled(a, places), Scaled(b, places));
    ScaleOrder(RoundHalfEven(a, places), RoundHalfEven(b, places), p);
  }
}
