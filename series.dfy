/** Values shared by the loader and the backtest engine: the failure-aware
    wrappers, one bar of a loaded price series, and the facts both sides
    rely on (dates strictly ascending, returns derived from prices). */
module Series {

  datatype Option<T> = None | Some(value: T)

  datatype Result<T, E> = Success(value: T) | Failure(error: E)

  /** One row of the loaded frame as the engine sees it: the date index (a day
      number), the `Price` column and the `Return` column. */
  datatype Bar = Bar(date: int, price: real, ret: real)

  /** The date index is strictly ascending, hence free of duplicates. */
  predicate Ascending(s: seq<Bar>)
  {
    forall i, j :: 0 <= i < j < |s| ==> s[i].date < s[j].date
  }

  /** The `Price` column. */
  function Prices(s: seq<Bar>): seq<real>
  {
    seq(|s|, i requires 0 <= i < |s| => s[i].price)
  }

  /** The `Return` column. */
  function Rets(s: seq<Bar>): seq<real>
  {
    seq(|s|, i requires 0 <= i < |s| => s[i].ret)
  }

  /** No entry is zero, so each can divide. */
  predicate NonZero(p: seq<real>)
  {
    forall t :: 0 <= t < |p| ==> p[t] != 0.0
  }

  /** Every price is non-zero and every return after the first is the
      fractional change from the previous price; the first return is not
      constrained, so any contiguous piece of a matching series matches too. */
  predicate ReturnsMatch(p: seq<real>, r: seq<real>)
  {
    |p| == |r| &&
    NonZero(p) &&
    (forall t :: 1 <= t < |p| ==> r[t] == p[t] / p[t - 1] - 1.0)
  }
}
