/** The backtest engine run when the button in app.py is pressed: slice the
    loaded series to a date range, compute a trailing moving average, derive
    an edge-triggered long/flat position from price/average crossovers,
    compound the gated and the ungated returns into two equity curves, scale
    them by the initial capital and measure the elapsed years for the CAGR. */
module Backtest {
  import opened Series

  /** A bar that survives the moving-average warm-up: the loaded columns plus `MA`. */
  datatype MaBar = MaBar(date: int, price: real, ret: real, ma: real)

  datatype BacktestError =
    | InsufficientData  // fewer bars in the date range than the window
    | DegenerateRange   // first and last bar on the same day: years == 0

  /** Everything one run produces, column by column, plus the headline numbers.
      The CAGR itself is `equity ^ (1 / years) - 1`; `years` is never zero here. */
  datatype Report = Report(
    bars: seq<MaBar>,
    positions: seq<int>,
    strategyReturns: seq<real>,
    equitySma: seq<real>,
    equityBh: seq<real>,
    capitalSma: seq<real>,
    capitalBh: seq<real>,
    finalSma: real,
    finalBh: real,
    days: int,
    years: real)

  // ---------------------------------------------------------------------------
  // Range slice: `df.loc[start:end]` on the ascending date index
  // ---------------------------------------------------------------------------

  /** Position of the first bar dated on or after `d` (left-sided search). */
  function LowerBound(s: seq<Bar>, d: int): (k: nat)
    ensures k <= |s|
    ensures forall i :: 0 <= i < k ==> s[i].date < d
    ensures k < |s| ==> s[k].date >= d
  {
    if s == [] || s[0].date >= d then 0 else 1 + LowerBound(s[1..], d)
  }

  /** Position just past the last leading bar dated on or before `d` (right-sided search). */
  function UpperBound(s: seq<Bar>, d: int): (k: nat)
    ensures k <= |s|
    ensures forall i :: 0 <= i < k ==> s[i].date <= d
    ensures k < |s| ==> s[k].date > d
  {
    if s == [] || s[0].date > d then 0 else 1 + UpperBound(s[1..], d)
  }

  /** The positional slice between the two searches; empty when they cross. */
  function SliceRange(s: seq<Bar>, start: int, end: int): seq<Bar>
  {
    var lo := LowerBound(s, start);
    var hi := UpperBound(s, end);
    if lo <= hi then s[lo..hi] else []
  }

  /** On an ascending index a bar lies between the two search positions
      exactly when its date is in [start, end]. */
  lemma SliceBounds(s: seq<Bar>, start: int, end: int)
    requires Ascending(s)
    ensures forall i :: 0 <= i < |s| ==>
      (start <= s[i].date <= end <==> LowerBound(s, start) <= i < UpperBound(s, end))
  {
    var lo, hi := LowerBound(s, start), UpperBound(s, end);
    forall i | 0 <= i < |s|
      ensures start <= s[i].date <= end <==> lo <= i < hi
    {
      if lo < i { assert s[lo].date < s[i].date; }
      if hi < i { assert s[hi].date < s[i].date; }
    }
  }

  /** On an ascending index the slice is exactly the bars dated in
      [start, end], both ends included, in their original order. */
  lemma SliceIsRangeFilter(s: seq<Bar>, start: int, end: int)
    requires Ascending(s)
    ensures Ascending(SliceRange(s, start, end))
    ensures forall b :: b in SliceRange(s, start, end) <==> b in s && start <= b.date <= end
  {
    SliceBounds(s, start, end);
    SliceMembersInRange(s, start, end);
    SliceHoldsRange(s, start, end);
  }

  lemma SliceMembersInRange(s: seq<Bar>, start: int, end: int)
    requires forall i :: 0 <= i < |s| ==>
      (start <= s[i].date <= end <==> LowerBound(s, start) <= i < UpperBound(s, end))
    ensures forall b :: b in SliceRange(s, start, end) ==> b in s && start <= b.date <= end
  {
    var lo := LowerBound(s, start);
    var r := SliceRange(s, start, end);
    forall b | b in r ensures b in s && start <= b.date <= end {
      var k :| 0 <= k < |r| && r[k] == b;
      assert r[k] == s[lo + k];
    }
  }

  lemma SliceHoldsRange(s: seq<Bar>, start: int, end: int)
    requires forall i :: 0 <= i < |s| ==>
      (start <= s[i].date <= end <==> LowerBound(s, start) <= i < UpperBound(s, end))
    ensures forall b :: b in s && start <= b.date <= end ==> b in SliceRange(s, start, end)
  {
    var lo := LowerBound(s, start);
    var r := SliceRange(s, start, end);
    forall b | b in s && start <= b.date <= end
      ensures b in r
    {
      var i :| 0 <= i < |s| && s[i] == b;
      assert r[i - lo] == b;
    }
  }

  // ---------------------------------------------------------------------------
  // Moving average: `rolling(window).mean()` followed by `dropna()`
  // ---------------------------------------------------------------------------

  function Sum(s: seq<real>): real
  {
    if s == [] then 0.0 else Sum(s[..|s| - 1]) + s[|s| - 1]
  }

  function Mean(s: seq<real>): real
    requires s != []
  {
    Sum(s) / (|s| as real)
  }

  /** The rolling column: undefined (NaN) until a full window is available,
      then the mean of the trailing `w` prices. */
  function RollingMean(p: seq<real>, w: nat): seq<Option<real>>
    requires w >= 1
  {
    seq(|p|, i requires 0 <= i < |p| =>
      if i + 1 < w then None else Some(Mean(p[i + 1 - w..i + 1])))
  }

  /** Keep the bars whose moving average is defined, attaching it. */
  function DropUndefined(s: seq<Bar>, m: seq<Option<real>>): seq<MaBar>
    requires |m| == |s|
  {
    if s == [] then []
    else
      var rest := DropUndefined(s[..|s| - 1], m[..|m| - 1]);
      match m[|m| - 1]
      case None => rest
      case Some(a) =>
        var b := s[|s| - 1];
        rest + [MaBar(b.date, b.price, b.ret, a)]
  }

  /** The working set of the run: the slice with its warm-up bars dropped. */
  function Trim(slice: seq<Bar>, w: nat): seq<MaBar>
    requires w >= 1
  {
    DropUndefined(slice, RollingMean(Prices(slice), w))
  }

  function MaPrices(t: seq<MaBar>): seq<real>
  {
    seq(|t|, i requires 0 <= i < |t| => t[i].price)
  }

  function MaRets(t: seq<MaBar>): seq<real>
  {
    seq(|t|, i requires 0 <= i < |t| => t[i].ret)
  }

  lemma {:induction false} DropAllUndefined(s: seq<Bar>, m: seq<Option<real>>)
    requires |m| == |s|
    requires forall i :: 0 <= i < |m| ==> m[i].None?
    ensures DropUndefined(s, m) == []
  {
    if s != [] {
      DropAllUndefined(s[..|s| - 1], m[..|m| - 1]);
    }
  }

  /** Dropping a leading run of `k` undefined entries shifts every index by `k`. */
  lemma {:induction false} DropWarmup(s: seq<Bar>, m: seq<Option<real>>, k: nat)
    requires |m| == |s| && k <= |s|
    requires forall i :: 0 <= i < |m| ==> (m[i].None? <==> i < k)
    ensures |DropUndefined(s, m)| == |s| - k
    ensures forall j :: 0 <= j < |s| - k ==>
      DropUndefined(s, m)[j] == MaBar(s[j + k].date, s[j + k].price, s[j + k].ret, m[j + k].value)
  {
    if |s| == k {
      DropAllUndefined(s, m);
    } else {
      var s', m' := s[..|s| - 1], m[..|m| - 1];
      DropWarmup(s', m', k);
      assert m[|m| - 1].Some?;
    }
  }

  /** Trimming leaves `|slice| - w + 1` bars. */
  lemma TrimmedLength(slice: seq<Bar>, w: nat)
    requires 1 <= w <= |slice|
    ensures |Trim(slice, w)| == |slice| - w + 1
  {
    DropWarmup(slice, RollingMean(Prices(slice), w), w - 1);
  }

  /** After trimming, bar `j` is slice bar `j + w - 1`, its moving average is
      the mean of slice prices `j .. j + w - 1`, and `|slice| - w + 1` bars remain. */
  lemma TrimmedBars(slice: seq<Bar>, w: nat)
    requires 1 <= w <= |slice|
    ensures |Trim(slice, w)| == |slice| - w + 1
    ensures forall j :: 0 <= j < |slice| - w + 1 ==>
      Trim(slice, w)[j] == MaBar(slice[j + w - 1].date, slice[j + w - 1].price,
                                 slice[j + w - 1].ret, Mean(Prices(slice)[j..j + w]))
    ensures MaPrices(Trim(slice, w)) == Prices(slice)[w - 1..]
    ensures MaRets(Trim(slice, w)) == Rets(slice)[w - 1..]
  {
    var m := RollingMean(Prices(slice), w);
    var t := Trim(slice, w);
    DropWarmup(slice, m, w - 1);
    forall j | 0 <= j < |slice| - w + 1
      ensures t[j] == MaBar(slice[j + w - 1].date, slice[j + w - 1].price,
                            slice[j + w - 1].ret, Mean(Prices(slice)[j..j + w]))
    {
      var k := j + w - 1;
      assert k + 1 - w == j && k + 1 == j + w;
      assert m[k] == Some(Mean(Prices(slice)[j..j + w]));
    }
    ShiftedColumns(slice, t, w - 1);
  }

  /** Bars copied from `s` shifted by `k` carry `s`'s price and return columns from `k` on. */
  lemma ShiftedColumns(s: seq<Bar>, t: seq<MaBar>, k: nat)
    requires k <= |s| && |t| == |s| - k
    requires forall j :: 0 <= j < |t| ==> t[j].price == s[j + k].price && t[j].ret == s[j + k].ret
    ensures MaPrices(t) == Prices(s)[k..]
    ensures MaRets(t) == Rets(s)[k..]
  {
  }

  // ---------------------------------------------------------------------------
  // Signal: the edge-triggered crossover state machine
  // ---------------------------------------------------------------------------

  /** Price crosses above its average between two consecutive bars. */
  predicate GoldenCross(prev: MaBar, cur: MaBar)
  {
    cur.price > cur.ma && prev.price <= prev.ma
  }

  /** Price crosses below its average between two consecutive bars. */
  predicate DeathCross(prev: MaBar, cur: MaBar)
  {
    cur.price < cur.ma && prev.price >= prev.ma
  }

  /** One transition: go long on a golden cross, flat on a death cross, else hold. */
  function Next(current: int, prev: MaBar, cur: MaBar): int
  {
    if GoldenCross(prev, cur) then 1
    else if DeathCross(prev, cur) then 0
    else current
  }

  /** The position column, bar by bar; the first bar is long whatever its prices. */
  function Positions(t: seq<MaBar>): (p: seq<int>)
    ensures |p| == |t|
    ensures forall i :: 0 <= i < |p| ==> p[i] == 0 || p[i] == 1
    ensures |t| > 0 ==> p[0] == 1
  {
    if t == [] then []
    else if |t| == 1 then [1]
    else
      var q := Positions(t[..|t| - 1]);
      q + [Next(q[|q| - 1], t[|t| - 2], t[|t| - 1])]
  }

  lemma {:induction false} PositionsPrefix(t: seq<MaBar>, k: nat)
    requires k <= |t|
    ensures Positions(t[..k]) == Positions(t)[..k]
  {
    if k < |t| {
      if |t| == 1 {
        assert t[..k] == [];
      } else {
        var t' := t[..|t| - 1];
        PositionsPrefix(t', k);
        assert t'[..k] == t[..k];
      }
    } else {
      assert t[..k] == t;
    }
  }

  /** Every bar after the first follows the transition from the bar before it. */
  lemma PositionStep(t: seq<MaBar>, i: nat)
    requires 1 <= i < |t|
    ensures Positions(t)[i] == Next(Positions(t)[i - 1], t[i - 1], t[i])
  {
    var u := t[..i + 1];
    PositionsPrefix(t, i + 1);
    PositionsPrefix(u, i);
    assert u[..i] == t[..i];
    PositionsPrefix(t, i);
  }

  /** The three crossover rules, and their consequence: the position changes
      only on a golden cross (to long) or a death cross (to flat). */
  lemma PositionTransitions(t: seq<MaBar>, i: nat)
    requires 1 <= i < |t|
    ensures GoldenCross(t[i - 1], t[i]) ==> Positions(t)[i] == 1
    ensures !GoldenCross(t[i - 1], t[i]) && DeathCross(t[i - 1], t[i]) ==> Positions(t)[i] == 0
    ensures !GoldenCross(t[i - 1], t[i]) && !DeathCross(t[i - 1], t[i]) ==>
      Positions(t)[i] == Positions(t)[i - 1]
    ensures Positions(t)[i] != Positions(t)[i - 1] ==>
      (Positions(t)[i] == 1 && GoldenCross(t[i - 1], t[i])) ||
      (Positions(t)[i] == 0 && DeathCross(t[i - 1], t[i]))
  {
    PositionStep(t, i);
  }

  /** Without a bar below its average there is no death cross, so the forced
      initial long position is held throughout. */
  lemma {:induction false} NeverBelowStaysLong(t: seq<MaBar>)
    requires forall i :: 0 <= i < |t| ==> t[i].price >= t[i].ma
    ensures forall i :: 0 <= i < |t| ==> Positions(t)[i] == 1
  {
    forall i | 0 <= i < |t| ensures Positions(t)[i] == 1 {
      NeverBelowStaysLongAt(t, i);
    }
  }

  lemma {:induction false} NeverBelowStaysLongAt(t: seq<MaBar>, i: nat)
    requires forall i :: 0 <= i < |t| ==> t[i].price >= t[i].ma
    requires i < |t|
    ensures Positions(t)[i] == 1
  {
    if i > 0 {
      NeverBelowStaysLongAt(t, i - 1);
      PositionStep(t, i);
    }
  }

  /** The signal loop: `current` starts long, bar 0 is appended as 1, and
      every later bar appends the state after the crossover tests. */
  method DeriveSignals(t: seq<MaBar>) returns (signal: seq<int>)
    ensures signal == Positions(t)
  {
    signal := [];
    var current := 1;
    for i := 0 to |t|
      invariant signal == Positions(t[..i])
      invariant current == if i == 0 then 1 else signal[i - 1]
    {
      if i == 0 {
        signal := signal + [1];
        continue;
      }
      var prev, bar := t[i - 1], t[i];
      if bar.price > bar.ma && prev.price <= prev.ma {
        current := 1;
      } else if bar.price < bar.ma && prev.price >= prev.ma {
        current := 0;
      }
      assert t[..i + 1][..i] == t[..i];
      signal := signal + [current];
    }
    assert t[..|t|] == t;
  }

  // ---------------------------------------------------------------------------
  // Returns, equity and capital curves
  // ---------------------------------------------------------------------------

  /** `Return * Position`, the same bar's return gated by the same bar's position. */
  function StrategyReturns(r: seq<real>, pos: seq<int>): seq<real>
    requires |pos| == |r|
  {
    seq(|r|, i requires 0 <= i < |r| => r[i] * pos[i] as real)
  }

  /** The product of `1 + r[k]` over all of `r`. */
  function Compound(r: seq<real>): real
  {
    if r == [] then 1.0 else (1.0 + r[0]) * Compound(r[1..])
  }

  /** `(1 + r).cumprod()`, as a running product started from `acc`. */
  function CumProdFrom(acc: real, r: seq<real>): (c: seq<real>)
    ensures |c| == |r|
    decreases r
  {
    if r == [] then []
    else
      var a := acc * (1.0 + r[0]);
      [a] + CumProdFrom(a, r[1..])
  }

  function CumProd(r: seq<real>): seq<real>
  {
    CumProdFrom(1.0, r)
  }

  /** A curve multiplied by the initial capital. */
  function Scale(e: seq<real>, c: real): seq<real>
  {
    seq(|e|, i requires 0 <= i < |e| => e[i] * c)
  }

  lemma {:induction false} CompoundSnoc(r: seq<real>, x: real)
    ensures Compound(r + [x]) == Compound(r) * (1.0 + x)
  {
    if r != [] {
      assert (r + [x])[1..] == r[1..] + [x];
      CompoundSnoc(r[1..], x);
      calc {
        Compound(r + [x]);
        (1.0 + r[0]) * Compound(r[1..] + [x]);
        (1.0 + r[0]) * (Compound(r[1..]) * (1.0 + x));
        ((1.0 + r[0]) * Compound(r[1..])) * (1.0 + x);
      }
    }
  }

  lemma {:induction false} CumProdFromAt(acc: real, r: seq<real>, i: nat)
    requires i < |r|
    ensures CumProdFrom(acc, r)[i] == acc * Compound(r[..i + 1])
    decreases r
  {
    var a := acc * (1.0 + r[0]);
    if i == 0 {
      assert r[..1][1..] == [];
    } else {
      CumProdFromAt(a, r[1..], i - 1);
      assert r[..i + 1][1..] == r[1..][..i];
      calc {
        CumProdFrom(acc, r)[i];
        CumProdFrom(a, r[1..])[i - 1];
        a * Compound(r[1..][..i]);
        acc * ((1.0 + r[0]) * Compound(r[..i + 1][1..]));
      }
    }
  }

  /** Entry `i` of the cumulative product is the compounded growth of bars `0 .. i`. */
  lemma CumProdIsCompound(r: seq<real>, i: nat)
    requires i < |r|
    ensures |CumProd(r)| == |r|
    ensures CumProd(r)[i] == Compound(r[..i + 1])
  {
    CumProdFromAt(1.0, r, i);
  }

  /** Each bar multiplies the previous entry by `1 + r[i]`, the first one starting from 1. */
  lemma CumProdStep(r: seq<real>, i: nat)
    requires i < |r|
    ensures i == 0 ==> CumProd(r)[0] == 1.0 + r[0]
    ensures i > 0 ==> CumProd(r)[i] == CumProd(r)[i - 1] * (1.0 + r[i])
  {
    if i > 0 {
      CumProdIsCompound(r, i);
      CumProdIsCompound(r, i - 1);
      assert r[..i + 1] == r[..i] + [r[i]];
      CompoundSnoc(r[..i], r[i]);
    }
  }

  lemma {:induction false} CumProdFromNonNegative(acc: real, r: seq<real>)
    requires acc >= 0.0
    requires forall k :: 0 <= k < |r| ==> r[k] >= -1.0
    ensures forall i :: 0 <= i < |r| ==> CumProdFrom(acc, r)[i] >= 0.0
    decreases r
  {
    if r != [] {
      var a := acc * (1.0 + r[0]);
      assert 1.0 + r[0] >= 0.0;
      assert a >= 0.0;
      CumProdFromNonNegative(a, r[1..]);
    }
  }

  /** No return below -100% keeps the compounded curve from going negative. */
  lemma CumProdNonNegative(r: seq<real>)
    requires forall k :: 0 <= k < |r| ==> r[k] >= -1.0
    ensures forall i :: 0 <= i < |CumProd(r)| ==> CumProd(r)[i] >= 0.0
  {
    CumProdFromNonNegative(1.0, r);
  }

  /** A sum of values that never decrease is at most their count times the last one. */
  lemma {:induction false} SumAtMostLast(s: seq<real>)
    requires s != []
    requires forall i, j :: 0 <= i <= j < |s| ==> s[i] <= s[j]
    ensures Sum(s) <= (|s| as real) * s[|s| - 1]
  {
    var last := s[|s| - 1];
    if |s| == 1 {
      assert s[..0] == [];
    } else {
      var s' := s[..|s| - 1];
      SumAtMostLast(s');
      var n := |s'| as real;
      assert s'[|s'| - 1] <= last;
      MulMonotone(n, s'[|s'| - 1], last);
      assert (|s| as real) * last == n * last + last;
    }
  }

  lemma MulMonotone(n: real, x: real, y: real)
    requires n >= 0.0 && x <= y
    ensures n * x <= n * y
  {
  }

  lemma CompoundSingle(x: real)
    ensures Compound([x]) == 1.0 + x
  {
    assert [x][1..] == [];
  }

  /** The compounded growth of the first `n` returns is that of the first
      `n - 1` returns times the growth factor of return `n - 1`. */
  lemma CompoundSnocAt(r: seq<real>, n: nat)
    requires 1 <= n <= |r|
    ensures Compound(r[..n]) == Compound(r[..n - 1]) * (1.0 + r[n - 1])
  {
    assert r[..n] == r[..n - 1] + [r[n - 1]];
    CompoundSnoc(r[..n - 1], r[n - 1]);
  }

  /** `c * p0 == k * q`, kept behind a name so that the telescoping induction
      below matches its hypothesis as one term. */
  predicate Telescoped(c: real, p0: real, k: real, q: real)
  {
    c * p0 == k * q
  }

  /** One telescoping step: growing by the return from `q` to `pi` turns
      `c * p0 == k * q` into `now * p0 == k * pi`. */
  lemma GrowthStep(now: real, c: real, rt: real, p0: real, k: real, q: real, pi: real)
    requires now == c * (1.0 + rt) && q != 0.0 && rt == pi / q - 1.0
    requires Telescoped(c, p0, k, q)
    ensures Telescoped(now, p0, k, pi)
  {
    assert (1.0 + rt) * q == pi;
    calc {
      now * p0;
      (c * (1.0 + rt)) * p0;
      (1.0 + rt) * (c * p0);
      (1.0 + rt) * (k * q);
      k * ((1.0 + rt) * q);
    }
  }

  lemma CompoundTelescopesBase(p: seq<real>, r: seq<real>)
    requires 1 <= |p| && 1 <= |r|
    ensures Telescoped(Compound(r[..1]), p[0], 1.0 + r[0], p[0])
  {
    assert r[..1] == [r[0]];
    CompoundSingle(r[0]);
  }

  lemma CompoundTelescopesStep(p: seq<real>, r: seq<real>, n: nat)
    requires 2 <= n <= |p| && n <= |r|
    requires p[n - 2] != 0.0 && r[n - 1] == p[n - 1] / p[n - 2] - 1.0
    requires Telescoped(Compound(r[..n - 1]), p[0], 1.0 + r[0], p[n - 2])
    ensures Telescoped(Compound(r[..n]), p[0], 1.0 + r[0], p[n - 1])
  {
    CompoundSnocAt(r, n);
    GrowthStep(Compound(r[..n]), Compound(r[..n - 1]), r[n - 1], p[0], 1.0 + r[0], p[n - 2], p[n - 1]);
  }

  /** Compounding the first `n` returns that are the price changes telescopes
      into the price ratio `p[n - 1] / p[0]`, times the first growth factor. */
  lemma {:induction false} CompoundTelescopes(p: seq<real>, r: seq<real>, n: nat)
    requires ReturnsMatch(p, r)
    requires 1 <= n <= |p|
    ensures Telescoped(Compound(r[..n]), p[0], 1.0 + r[0], p[n - 1])
  {
    if n == 1 {
      CompoundTelescopesBase(p, r);
    } else {
      CompoundTelescopes(p, r, n - 1);
      CompoundTelescopesStep(p, r, n);
    }
  }

  // ---------------------------------------------------------------------------
  // The whole run
  // ---------------------------------------------------------------------------

  /** `Equity_SMA`: the compounded position-gated returns. */
  function StrategyCurve(bars: seq<MaBar>): seq<real>
  {
    CumProd(StrategyReturns(MaRets(bars), Positions(bars)))
  }

  /** `Equity_BH`: the compounded returns, always long. */
  function BenchmarkCurve(bars: seq<MaBar>): seq<real>
  {
    CumProd(MaRets(bars))
  }

  function ElapsedDays(t: seq<MaBar>): int
    requires t != []
  {
    t[|t| - 1].date - t[0].date
  }

  /** Every column computed from the trimmed bars, and the headline numbers. */
  function Evaluate(bars: seq<MaBar>, capital: real): Report
    requires bars != []
  {
    var n := |bars|;
    var capSma := Scale(StrategyCurve(bars), capital);
    var capBh := Scale(BenchmarkCurve(bars), capital);
    Report(bars, Positions(bars), StrategyReturns(MaRets(bars), Positions(bars)),
           StrategyCurve(bars), BenchmarkCurve(bars), capSma, capBh,
           capSma[n - 1], capBh[n - 1],
           ElapsedDays(bars), ElapsedDays(bars) as real / 365.0)
  }

  /** One backtest run. It fails when the range holds fewer bars than the
      window, and when no time elapses between its first and last bar, where
      the annualisation `1 / years` is undefined. */
  function Backtest(series: seq<Bar>, start: int, end: int, window: nat, capital: real)
    : Result<Report, BacktestError>
    requires window >= 1 && Ascending(series)
  {
    var slice := SliceRange(series, start, end);
    if |slice| < window then Failure(InsufficientData)
    else
      TrimmedLength(slice, window);
      var bars := Trim(slice, window);
      if ElapsedDays(bars) == 0 then Failure(DegenerateRange)
      else Success(Evaluate(bars, capital))
  }

  /** The run as the page executes it, step by step, with the signal loop;
      it computes exactly `Backtest`. */
  method RunBacktest(series: seq<Bar>, start: int, end: int, window: nat, capital: real)
    returns (r: Result<Report, BacktestError>)
    requires window >= 1 && Ascending(series)
    ensures r == Backtest(series, start, end, window, capital)
  {
    var slice := SliceRange(series, start, end);
    if |slice| < window {
      return Failure(InsufficientData);
    }
    TrimmedLength(slice, window);
    var bars := Trim(slice, window);
    var signal := DeriveSignals(bars);
    var sret := StrategyReturns(MaRets(bars), signal);
    var eqSma := CumProd(sret);
    var eqBh := CumProd(MaRets(bars));
    var capSma := Scale(eqSma, capital);
    var capBh := Scale(eqBh, capital);
    var finalSma := capSma[|capSma| - 1];
    var finalBh := capBh[|capBh| - 1];
    var days := bars[|bars| - 1].date - bars[0].date;
    if days == 0 {
      return Failure(DegenerateRange);
    }
    var years := days as real / 365.0;
    r := Success(Report(bars, signal, sret, eqSma, eqBh, capSma, capBh,
                        finalSma, finalBh, days, years));
  }

  // ---------------------------------------------------------------------------
  // Properties of the evaluation of the trimmed bars
  // ---------------------------------------------------------------------------

  /** One entry per bar in every column; the strategy return of a bar is the
      bar's own return when its own position is long and zero when flat. */
  lemma EvaluateColumns(bars: seq<MaBar>, capital: real)
    requires bars != []
    ensures var rep := Evaluate(bars, capital);
      var n := |bars|;
      rep.bars == bars && rep.positions == Positions(bars) &&
      |rep.strategyReturns| == n && |rep.equitySma| == n && |rep.equityBh| == n &&
      |rep.capitalSma| == n && |rep.capitalBh| == n &&
      forall i :: 0 <= i < n ==>
        rep.strategyReturns[i] == (if rep.positions[i] == 1 then bars[i].ret else 0.0)
  {
    EvaluateCurves(bars, capital);
    GatedReturns(MaRets(bars), Positions(bars));
  }

  /** Capital is equity times the initial capital, and the final capital is
      the last entry of each capital curve. */
  lemma CapitalCurves(bars: seq<MaBar>, capital: real)
    requires bars != []
    ensures var rep := Evaluate(bars, capital);
      var n := |bars|;
      (forall i :: 0 <= i < n ==> rep.capitalSma[i] == rep.equitySma[i] * capital) &&
      (forall i :: 0 <= i < n ==> rep.capitalBh[i] == rep.equityBh[i] * capital) &&
      rep.finalSma == rep.capitalSma[n - 1] && rep.finalBh == rep.capitalBh[n - 1]
  {
  }

  /** Days elapse from the first to the last trimmed bar, and years are days / 365. */
  lemma ElapsedYears(bars: seq<MaBar>, capital: real)
    requires bars != []
    ensures var rep := Evaluate(bars, capital);
      rep.days == bars[|bars| - 1].date - bars[0].date && rep.years * 365.0 == rep.days as real
  {
  }

  /** Gating by a flat position zeroes the return; by a long position keeps it. */
  lemma GatedReturns(r: seq<real>, pos: seq<int>)
    requires |pos| == |r|
    ensures forall i :: 0 <= i < |r| && pos[i] == 0 ==> StrategyReturns(r, pos)[i] == 0.0
    ensures forall i :: 0 <= i < |r| && pos[i] == 1 ==> StrategyReturns(r, pos)[i] == r[i]
  {
  }

  /** A flat bar leaves the strategy equity exactly where the previous bar left it. */
  lemma FlatBarsPreserveEquity(bars: seq<MaBar>)
    ensures forall i :: 1 <= i < |bars| && Positions(bars)[i] == 0 ==>
      StrategyCurve(bars)[i] == StrategyCurve(bars)[i - 1]
  {
    var pos := Positions(bars);
    var sret := StrategyReturns(MaRets(bars), pos);
    GatedReturns(MaRets(bars), pos);
    forall i | 1 <= i < |bars| && pos[i] == 0
      ensures CumProd(sret)[i] == CumProd(sret)[i - 1]
    {
      CumProdStep(sret, i);
    }
  }

  /** Long on every bar means the strategy curve is the benchmark curve. */
  lemma AlwaysLongMatchesBenchmark(bars: seq<MaBar>)
    requires forall i :: 0 <= i < |bars| ==> Positions(bars)[i] == 1
    ensures StrategyCurve(bars) == BenchmarkCurve(bars)
  {
    var r := MaRets(bars);
    GatedReturns(r, Positions(bars));
    assert StrategyReturns(r, Positions(bars)) == r;
  }

  /** With no return below -100%, neither equity curve goes negative. */
  lemma EquityNonNegative(bars: seq<MaBar>)
    requires forall k :: 0 <= k < |bars| ==> bars[k].ret >= -1.0
    ensures forall i :: 0 <= i < |bars| ==> StrategyCurve(bars)[i] >= 0.0 && BenchmarkCurve(bars)[i] >= 0.0
  {
    var r := MaRets(bars);
    var pos := Positions(bars);
    GatedReturns(r, pos);
    var sret := StrategyReturns(r, pos);
    assert forall k :: 0 <= k < |sret| ==> sret[k] >= -1.0;
    CumProdNonNegative(sret);
    CumProdNonNegative(r);
  }

  /** The benchmark curve is the compounded return of the bars and nothing
      else: prices, averages and positions do not enter it. */
  lemma BenchmarkIgnoresSignals(bars: seq<MaBar>, other: seq<MaBar>)
    requires MaRets(other) == MaRets(bars)
    ensures BenchmarkCurve(other) == BenchmarkCurve(bars)
    ensures |BenchmarkCurve(bars)| == |bars|
    ensures forall i :: 0 <= i < |bars| ==> BenchmarkCurve(bars)[i] == Compound(MaRets(bars)[..i + 1])
  {
    forall i | 0 <= i < |bars|
      ensures BenchmarkCurve(bars)[i] == Compound(MaRets(bars)[..i + 1])
    {
      CumProdIsCompound(MaRets(bars), i);
    }
  }

  /** If returns are the price changes, buy-and-hold growth up to bar `i` is
      the price ratio to the first bar, times the first bar's own growth factor. */
  lemma BuyAndHoldIsPriceRatio(bars: seq<MaBar>)
    requires ReturnsMatch(MaPrices(bars), MaRets(bars))
    ensures forall i :: 0 <= i < |bars| ==>
      BenchmarkCurve(bars)[i] * bars[0].price == (1.0 + bars[0].ret) * bars[i].price
  {
    forall i | 0 <= i < |bars|
      ensures BenchmarkCurve(bars)[i] * bars[0].price == (1.0 + bars[0].ret) * bars[i].price
    {
      BuyAndHoldAt(bars, i);
    }
  }

  lemma BuyAndHoldAt(bars: seq<MaBar>, i: nat)
    requires ReturnsMatch(MaPrices(bars), MaRets(bars))
    requires i < |bars|
    ensures Telescoped(BenchmarkCurve(bars)[i], bars[0].price, 1.0 + bars[0].ret, bars[i].price)
  {
    var p, r := MaPrices(bars), MaRets(bars);
    CumProdIsCompound(r, i);
    CompoundTelescopes(p, r, i + 1);
  }

  // ---------------------------------------------------------------------------
  // Properties of a run
  // ---------------------------------------------------------------------------

  /** The run aborts for insufficient data exactly when the range holds fewer
      bars than the window. */
  lemma InsufficientDataBoundary(series: seq<Bar>, start: int, end: int, window: nat, capital: real)
    requires window >= 1 && Ascending(series)
    ensures Backtest(series, start, end, window, capital) == Failure(InsufficientData)
      <==> |SliceRange(series, start, end)| < window
  {
  }

  /** With exactly `window` bars in range only one bar survives the warm-up,
      so the first and last bar coincide and no time elapses. */
  lemma ExactWindowLeavesNoTime(series: seq<Bar>, start: int, end: int, window: nat)
    requires window >= 1 && Ascending(series)
    requires |SliceRange(series, start, end)| == window
    ensures |Trim(SliceRange(series, start, end), window)| == 1
    ensures ElapsedDays(Trim(SliceRange(series, start, end), window)) == 0
  {
    TrimmedBars(SliceRange(series, start, end), window);
  }

  /** More bars in range than the window leave bars on distinct days: time elapses. */
  lemma TimeElapsesPastWindow(series: seq<Bar>, start: int, end: int, window: nat)
    requires window >= 1 && Ascending(series)
    requires |SliceRange(series, start, end)| > window
    ensures ElapsedDays(Trim(SliceRange(series, start, end), window)) > 0
  {
    var slice := SliceRange(series, start, end);
    SliceIsRangeFilter(series, start, end);
    TrimmedBars(slice, window);
    var bars := Trim(slice, window);
    assert bars[0].date == slice[window - 1].date;
    assert bars[|bars| - 1].date == slice[|slice| - 1].date;
  }

  /** The run fails for a degenerate range exactly when the range holds
      exactly `window` bars. */
  lemma DegenerateExactlyAtWindow(series: seq<Bar>, start: int, end: int, window: nat, capital: real)
    requires window >= 1 && Ascending(series)
    ensures Backtest(series, start, end, window, capital) == Failure(DegenerateRange)
      <==> |SliceRange(series, start, end)| == window
  {
    var n := |SliceRange(series, start, end)|;
    if n == window {
      ExactWindowLeavesNoTime(series, start, end, window);
    } else if n > window {
      TimeElapsesPastWindow(series, start, end, window);
    }
  }

  /** A successful run evaluates the slice with its warm-up dropped: more than
      `window` bars were in range and the elapsed time is positive. */
  lemma BacktestEvaluatesTrimmedSlice(series: seq<Bar>, start: int, end: int, window: nat, capital: real)
    requires window >= 1 && Ascending(series)
    requires Backtest(series, start, end, window, capital).Success?
    ensures |SliceRange(series, start, end)| > window
    ensures Backtest(series, start, end, window, capital).value
      == Evaluate(Trim(SliceRange(series, start, end), window), capital)
    ensures Backtest(series, start, end, window, capital).value.days > 0
  {
    DegenerateExactlyAtWindow(series, start, end, window, capital);
    TimeElapsesPastWindow(series, start, end, window);
  }

  /** The buy-and-hold curve of a successful run is the compounded returns of
      the range from bar `window - 1` on: the signals, the averages and the
      capital do not enter it. */
  lemma RunBenchmarkIsSliceReturns(series: seq<Bar>, start: int, end: int, window: nat, capital: real)
    requires window >= 1 && Ascending(series)
    ensures Backtest(series, start, end, window, capital).Success? ==>
      |SliceRange(series, start, end)| > window &&
      Backtest(series, start, end, window, capital).value.equityBh
        == CumProd(Rets(SliceRange(series, start, end))[window - 1..])
  {
    if Backtest(series, start, end, window, capital).Success? {
      BacktestEvaluatesTrimmedSlice(series, start, end, window, capital);
      TrimmedBars(SliceRange(series, start, end), window);
    }
  }

  /** On a series whose returns are its price changes (as loaded), the trimmed
      bars of any run keep that relation. */
  lemma TrimmedReturnsMatch(series: seq<Bar>, start: int, end: int, window: nat)
    requires window >= 1 && Ascending(series)
    requires ReturnsMatch(Prices(series), Rets(series))
    requires |SliceRange(series, start, end)| >= window
    ensures ReturnsMatch(MaPrices(Trim(SliceRange(series, start, end), window)),
                         MaRets(Trim(SliceRange(series, start, end), window)))
  {
    var lo, hi := LowerBound(series, start), UpperBound(series, end);
    var slice := SliceRange(series, start, end);
    assert slice == series[lo..hi];
    ColumnsOfSlice(series, lo, hi);
    ReturnsMatchSlice(Prices(series), Rets(series), lo, hi);
    ReturnsMatchSlice(Prices(slice), Rets(slice), window - 1, |slice|);
    assert Prices(slice)[window - 1..|slice|] == Prices(slice)[window - 1..];
    assert Rets(slice)[window - 1..|slice|] == Rets(slice)[window - 1..];
    TrimmedBars(slice, window);
  }

  /** The columns of a contiguous piece are the pieces of the columns. */
  lemma ColumnsOfSlice(s: seq<Bar>, a: nat, b: nat)
    requires a <= b <= |s|
    ensures Prices(s[a..b]) == Prices(s)[a..b]
    ensures Rets(s[a..b]) == Rets(s)[a..b]
  {
  }

  /** A contiguous piece of a series whose returns are its price changes keeps
      that relation: the piece's first return is left unconstrained. */
  lemma ReturnsMatchSlice(p: seq<real>, r: seq<real>, a: nat, b: nat)
    requires ReturnsMatch(p, r)
    requires a <= b <= |p|
    ensures ReturnsMatch(p[a..b], r[a..b])
  {
    forall t | 1 <= t < b - a
      ensures r[a..b][t] == p[a..b][t] / p[a..b][t - 1] - 1.0
    {
      assert r[a + t] == p[a + t] / p[a + t - 1] - 1.0;
    }
  }

  /** When prices never fall within the range, every bar closes at or above its
      trailing mean, so a run stays long throughout and ends exactly where
      buy-and-hold does. */
  lemma UptrendMatchesBenchmark(series: seq<Bar>, start: int, end: int, window: nat, capital: real)
    requires window >= 1 && Ascending(series)
    requires var slice := SliceRange(series, start, end);
      forall i, j :: 0 <= i <= j < |slice| ==> slice[i].price <= slice[j].price
    requires Backtest(series, start, end, window, capital).Success?
    ensures var rep := Backtest(series, start, end, window, capital).value;
      (forall i :: 0 <= i < |rep.positions| ==> rep.positions[i] == 1) &&
      rep.equitySma == rep.equityBh && rep.finalSma == rep.finalBh
  {
    BacktestEvaluatesTrimmedSlice(series, start, end, window, capital);
    var slice := SliceRange(series, start, end);
    var bars := Trim(slice, window);
    UptrendNeverBelowAverage(slice, window);
    NeverBelowStaysLong(bars);
    AlwaysLongMatchesBenchmark(bars);
    EvaluateCurves(bars, capital);
  }

  /** The report's positions and curves are those of the trimmed bars. */
  lemma EvaluateCurves(bars: seq<MaBar>, capital: real)
    requires bars != []
    ensures var rep := Evaluate(bars, capital);
      rep.positions == Positions(bars) &&
      rep.equitySma == StrategyCurve(bars) && rep.equityBh == BenchmarkCurve(bars) &&
      (rep.equitySma == rep.equityBh ==> rep.finalSma == rep.finalBh)
  {
  }

  /** On prices that never fall, no bar closes below its trailing mean. */
  lemma UptrendNeverBelowAverage(slice: seq<Bar>, w: nat)
    requires 1 <= w <= |slice|
    requires forall i, j :: 0 <= i <= j < |slice| ==> slice[i].price <= slice[j].price
    ensures forall j :: 0 <= j < |Trim(slice, w)| ==> Trim(slice, w)[j].price >= Trim(slice, w)[j].ma
  {
    TrimmedBars(slice, w);
    forall j | 0 <= j < |Trim(slice, w)|
      ensures Trim(slice, w)[j].price >= Trim(slice, w)[j].ma
    {
      var win := Prices(slice)[j..j + w];
      assert forall a :: 0 <= a < |win| ==> win[a] == slice[j + a].price;
      MeanAtMostLast(win);
    }
  }

  /** The mean of values that never decrease is at most the last one. */
  lemma MeanAtMostLast(s: seq<real>)
    requires s != []
    requires forall i, j :: 0 <= i <= j < |s| ==> s[i] <= s[j]
    ensures Mean(s) <= s[|s| - 1]
  {
    SumAtMostLast(s);
    DivAtMost(Sum(s), |s| as real, s[|s| - 1]);
  }

  lemma DivAtMost(x: real, n: real, y: real)
    requires n > 0.0 && x <= n * y
    ensures x / n <= y
  {
  }
}
