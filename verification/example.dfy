/** The moving average of a time series of data points (src/example.py).

    Values are exact reals, so `statistics.mean` is the exact arithmetic mean;
    the float rounding of the original is not modelled. */
module Example {
  import opened Wrappers

  /** One sample of a time series. The timestamp is an abstract instant and
      `tag` is the optional label (`label` is a keyword of Dafny); only `value`
      takes part in the moving average. */
  datatype DataPoint = DataPoint(timestamp: int, value: real, tag: Option<string>)

  /** `statistics.StatisticsError`, raised by `statistics.mean` on no data. */
  datatype StatisticsError = EmptyData

  /** The window size used when the caller gives none. */
  const DefaultWindowSize: int := 3

  function Max(a: int, b: int): int { if a < b then b else a }

  function Min(a: int, b: int): int { if a < b then a else b }

  /** The `value` field of every data point, in order. */
  function Values(data: seq<DataPoint>): (vs: seq<real>)
    ensures |vs| == |data|
    ensures forall i :: 0 <= i < |data| ==> vs[i] == data[i].value
  {
    seq(|data|, i requires 0 <= i < |data| => data[i].value)
  }

  function Sum(xs: seq<real>): real
  {
    if |xs| == 0 then 0.0 else Sum(xs[..|xs| - 1]) + xs[|xs| - 1]
  }

  /** The arithmetic mean, defined only for a non-empty sequence. */
  function Mean(xs: seq<real>): real
    requires |xs| > 0
  {
    Sum(xs) / (|xs| as real)
  }

  /** Python's `values[max(0, i - w + 1) : i + 1]`; a slice whose start lies at
      or past its end is empty. */
  function Window(values: seq<real>, i: nat, w: int): (win: seq<real>)
    requires i < |values|
    ensures w >= 1 ==> |win| == Min(i + 1, w)
    ensures w >= 1 ==> win == values[i + 1 - |win| .. i + 1]
    ensures w <= 0 ==> win == []
  {
    var start := Max(0, i - w + 1);
    if start <= i then values[start .. i + 1] else []
  }

  /** Reference definition: one mean per index, or the error `statistics.mean`
      raises on the first (empty) window. */
  function MovingAverage(data: seq<DataPoint>, w: int): (r: Result<seq<real>, StatisticsError>)
    ensures r.Failure? <==> |data| > 0 && w <= 0
    ensures r.Success? ==> |r.value| == |data|
  {
    var values := Values(data);
    if |data| > 0 && w <= 0 then Failure(EmptyData)
    else Success(seq(|values|, i requires 0 <= i < |values| => Mean(Window(values, i, w))))
  }

  /** `calculate_moving_average`: the loop over the indices of the values,
      appending the mean of each trailing window. */
  method CalculateMovingAverage(data: seq<DataPoint>, windowSize: int)
    returns (r: Result<seq<real>, StatisticsError>)
    ensures r.Failure? <==> |data| > 0 && windowSize <= 0
    ensures r.Success? ==> |r.value| == |data|
    ensures r.Success? ==> forall i :: 0 <= i < |data| ==>
      && windowSize >= 1
      && r.value[i] == Mean(Values(data)[Max(0, i - windowSize + 1) .. i + 1])
    ensures r == MovingAverage(data, windowSize)
  {
    var values := Values(data);
    var result: seq<real> := [];
    var i := 0;
    while i < |values|
      invariant 0 <= i <= |values|
      invariant i > 0 ==> windowSize >= 1
      invariant |result| == i
      invariant forall k :: 0 <= k < i ==> result[k] == Mean(Window(values, k, windowSize))
    {
      var window := Window(values, i, windowSize);
      if |window| == 0 {
        return Failure(EmptyData);
      }
      result := result + [Mean(window)];
      i := i + 1;
    }
    assert result == MovingAverage(data, windowSize).value;
    r := Success(result);
    forall k | 0 <= k < |data|
      ensures windowSize >= 1
      ensures r.value[k] == Mean(Values(data)[Max(0, k - windowSize + 1) .. k + 1])
    {
      AverageOfTrailingWindow(data, windowSize, k);
    }
  }

  /** Element `i` of the moving average is the mean of the values at indices
      `max(0, i - w + 1)` through `i` inclusive. */
  lemma AverageOfTrailingWindow(data: seq<DataPoint>, w: int, i: int)
    requires MovingAverage(data, w).Success?
    requires 0 <= i < |data|
    ensures w >= 1
    ensures MovingAverage(data, w).value[i] == Mean(Values(data)[Max(0, i - w + 1) .. i + 1])
  {
  }

  /** Each partial sum lies between `n * lo` and `n * hi` when every term does. */
  lemma {:induction false} SumBounds(xs: seq<real>, lo: real, hi: real)
    requires forall k :: 0 <= k < |xs| ==> lo <= xs[k] <= hi
    ensures (|xs| as real) * lo <= Sum(xs) <= (|xs| as real) * hi
  {
    if |xs| > 0 {
      SumBounds(xs[..|xs| - 1], lo, hi);
    }
  }

  /** A mean lies between any lower and upper bound of its terms. */
  lemma MeanBounds(xs: seq<real>, lo: real, hi: real)
    requires |xs| > 0
    requires forall k :: 0 <= k < |xs| ==> lo <= xs[k] <= hi
    ensures lo <= Mean(xs) <= hi
  {
    SumBounds(xs, lo, hi);
    var n := |xs| as real;
    assert n * lo <= Sum(xs) <= n * hi;
    assert Mean(xs) * n == Sum(xs);
  }

  /** The mean of a sequence of equal terms is that term. */
  lemma MeanOfConstant(xs: seq<real>, c: real)
    requires |xs| > 0
    requires forall k :: 0 <= k < |xs| ==> xs[k] == c
    ensures Mean(xs) == c
  {
    MeanBounds(xs, c, c);
  }

  /** For a positive window size every window is non-empty, holds at most
      `w` values, and holds exactly `w` from index `w - 1` on. */
  lemma WindowSize(values: seq<real>, i: nat, w: int)
    requires i < |values|
    requires w >= 1
    ensures 1 <= |Window(values, i, w)| <= w
    ensures |Window(values, i, w)| == w <==> i >= w - 1
  {
  }

  /** With a window of one the moving average is the series itself. */
  lemma {:induction false} WindowOfOneIsIdentity(data: seq<DataPoint>)
    ensures MovingAverage(data, 1) == Success(Values(data))
  {
    var values := Values(data);
    var r := MovingAverage(data, 1);
    forall i | 0 <= i < |data|
      ensures r.value[i] == values[i]
    {
      var win := Window(values, i, 1);
      assert win == [values[i]];
      MeanOfConstant(win, values[i]);
    }
    assert r.value == values;
  }

  /** The first average is always the first value. */
  lemma FirstAverageIsFirstValue(data: seq<DataPoint>, w: int)
    requires |data| > 0
    requires w >= 1
    ensures MovingAverage(data, w).Success?
    ensures MovingAverage(data, w).value[0] == data[0].value
  {
    var win := Window(Values(data), 0, w);
    assert win == [data[0].value];
    MeanOfConstant(win, data[0].value);
  }

  /** Every average lies within the range of the values it is taken over. */
  lemma AverageWithinRange(data: seq<DataPoint>, w: int, lo: real, hi: real)
    requires w >= 1
    requires forall k :: 0 <= k < |data| ==> lo <= data[k].value <= hi
    ensures MovingAverage(data, w).Success?
    ensures forall i :: 0 <= i < |data| ==> lo <= MovingAverage(data, w).value[i] <= hi
  {
    var values := Values(data);
    forall i | 0 <= i < |data|
      ensures lo <= MovingAverage(data, w).value[i] <= hi
    {
      var win := Window(values, i, w);
      assert forall k :: 0 <= k < |win| ==> win[k] == values[i + 1 - |win| + k];
      MeanBounds(win, lo, hi);
    }
  }

  /** Timestamps and tags do not affect the result: two series with the same
      values have the same moving average. */
  lemma OnlyValuesMatter(d1: seq<DataPoint>, d2: seq<DataPoint>, w: int)
    requires |d1| == |d2|
    requires forall i :: 0 <= i < |d1| ==> d1[i].value == d2[i].value
    ensures MovingAverage(d1, w) == MovingAverage(d2, w)
  {
    assert Values(d1) == Values(d2);
  }

  /** With the default window size the average never fails, and each element
      averages at most three values, exactly three from index 2 on. */
  lemma DefaultWindowAverages(data: seq<DataPoint>, i: int)
    requires 0 <= i < |data|
    ensures MovingAverage(data, DefaultWindowSize).Success?
    ensures |Window(Values(data), i, DefaultWindowSize)| == Min(i + 1, 3)
  {
  }

  /** Values 1, 2, 3, 4 with a window of two average to 1, 1.5, 2.5, 3.5. */
  lemma ExampleSeries()
    ensures MovingAverage([DataPoint(1, 1.0, Some("A")), DataPoint(2, 2.0, Some("B")),
                           DataPoint(3, 3.0, Some("C")), DataPoint(4, 4.0, Some("D"))], 2)
         == Success([1.0, 1.5, 2.5, 3.5])
  {
    var data := [DataPoint(1, 1.0, Some("A")), DataPoint(2, 2.0, Some("B")),
                 DataPoint(3, 3.0, Some("C")), DataPoint(4, 4.0, Some("D"))];
    var values := Values(data);
    assert values == [1.0, 2.0, 3.0, 4.0];
    var r := MovingAverage(data, 2).value;
    assert Window(values, 0, 2) == [1.0];
    MeanOfPair(1.0, 2.0);
    MeanOfPair(2.0, 3.0);
    MeanOfPair(3.0, 4.0);
    MeanOfConstant([1.0], 1.0);
    assert Window(values, 1, 2) == [1.0, 2.0];
    assert Window(values, 2, 2) == [2.0, 3.0];
    assert Window(values, 3, 2) == [3.0, 4.0];
    assert r == [1.0, 1.5, 2.5, 3.5];
  }

  lemma MeanOfPair(a: real, b: real)
    ensures Mean([a, b]) == (a + b) / 2.0
  {
    assert [a, b][..1] == [a];
    assert [a][..0] == [];
    assert Sum([a]) == a;
    assert Sum([a, b]) == Sum([a]) + b;
  }
}
