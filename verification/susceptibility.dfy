/**
 * The wildfire-susceptibility distribution per province: the raster is masked
 * with each province polygon, the pixels that are neither nodata (0 where the
 * raster declares none) nor NaN are counted in five classes of the [0, 1]
 * susceptibility scale, and the counts and their percentages are stored in the
 * province's row. A polygon whose masking raises is passed over and keeps its
 * row as it was.
 */
module Susceptibility {
  import opened Outcome

  datatype Class = VeryLow | Low | Moderate | High | VeryHigh

  /** The classes in the order of the attribute table. */
  const Classes: seq<Class> := [VeryLow, Low, Moderate, High, VeryHigh]

  /** The five intervals: half-open, the last one closed at 1.0. */
  predicate InClass(v: real, c: Class)
  {
    match c
    case VeryLow => 0.0 <= v < 0.32
    case Low => 0.32 <= v < 0.42
    case Moderate => 0.42 <= v < 0.46
    case High => 0.46 <= v < 0.52
    case VeryHigh => 0.52 <= v <= 1.0
  }

  /** The class of a value read off the scale from the bottom up; None outside [0, 1]. */
  function ClassOf(v: real): (r: Option<Class>)
    ensures r.Some? <==> 0.0 <= v <= 1.0
    ensures r.Some? ==> InClass(v, r.value)
  {
    if v < 0.0 || v > 1.0 then None
    else if v < 0.32 then Some(VeryLow)
    else if v < 0.42 then Some(Low)
    else if v < 0.46 then Some(Moderate)
    else if v < 0.52 then Some(High)
    else Some(VeryHigh)
  }

  /** The intervals are disjoint and cover [0, 1]: a value lies in a class exactly when it is that value's class. */
  lemma ClassesPartition(v: real, c: Class)
    ensures InClass(v, c) <==> ClassOf(v) == Some(c)
    ensures ClassOf(v).Some? <==> 0.0 <= v <= 1.0
  {
  }

  /** `np.count_nonzero((valid_data >= lo) & (valid_data < hi))` for one class. */
  function CountIn(values: seq<real>, c: Class): (n: nat)
    ensures n <= |values|
  {
    if values == [] then 0
    else CountIn(values[..|values| - 1], c) + if InClass(values[|values| - 1], c) then 1 else 0
  }

  /** The number of values on the scale, [0, 1]. */
  function CountOnScale(values: seq<real>): (n: nat)
    ensures n <= |values|
  {
    if values == [] then 0
    else CountOnScale(values[..|values| - 1]) + if 0.0 <= values[|values| - 1] <= 1.0 then 1 else 0
  }

  /** The five counts of a province. */
  datatype Tally = Tally(veryLow: nat, low: nat, moderate: nat, high: nat, veryHigh: nat)

  function Count(t: Tally, c: Class): nat
  {
    match c
    case VeryLow => t.veryLow
    case Low => t.low
    case Moderate => t.moderate
    case High => t.high
    case VeryHigh => t.veryHigh
  }

  /** `total_pixels`. */
  function Total(t: Tally): nat
  {
    t.veryLow + t.low + t.moderate + t.high + t.veryHigh
  }

  /** The counts: all 0 for no valid value, else one count per class. */
  function TallyOf(values: seq<real>): (t: Tally)
    ensures forall c :: Count(t, c) == CountIn(values, c)
  {
    if values == [] then Tally(0, 0, 0, 0, 0)
    else Tally(CountIn(values, VeryLow), CountIn(values, Low), CountIn(values, Moderate), CountIn(values, High), CountIn(values, VeryHigh))
  }

  /** The total is the number of valid values on the scale: values outside [0, 1] are in no class. */
  lemma {:induction false} TotalOnScale(values: seq<real>)
    ensures Total(TallyOf(values)) == CountOnScale(values)
  {
    if values != [] {
      var init := values[..|values| - 1];
      var v := values[|values| - 1];
      TotalOnScale(init);
      ClassesPartition(v, VeryLow);
      ClassesPartition(v, Low);
      ClassesPartition(v, Moderate);
      ClassesPartition(v, High);
      ClassesPartition(v, VeryHigh);
    }
  }

  /** `(count / total_pixels) * 100`, or 0 when there is no pixel. */
  function Percent(t: Tally, c: Class): (r: real)
    ensures Total(t) == 0 ==> r == 0.0
    ensures Count(t, c) == 0 ==> r == 0.0
  {
    if Total(t) > 0 then Count(t, c) as real / Total(t) as real * 100.0 else 0.0
  }

  /** Each percentage lies in [0, 100]. */
  lemma PercentBounds(t: Tally, c: Class)
    ensures 0.0 <= Percent(t, c) <= 100.0
  {
    if Total(t) > 0 {
      assert Count(t, c) <= Total(t);
      FractionBounds(Count(t, c) as real, Total(t) as real);
    }
  }

  lemma FractionBounds(k: real, n: real)
    requires 0.0 <= k <= n && n > 0.0
    ensures 0.0 <= k / n <= 1.0
  {
    assert k / n * n == k;
  }

  lemma DivAdd(x: real, y: real, n: real)
    requires n > 0.0
    ensures x / n + y / n == (x + y) / n
  {
    assert (x / n) * n == x && (y / n) * n == y;
    assert (x / n + y / n) * n == x + y;
  }

  lemma FractionsSum(a: real, b: real, c: real, d: real, e: real, n: real)
    requires n > 0.0 && a + b + c + d + e == n
    ensures a / n + b / n + c / n + d / n + e / n == 1.0
  {
    DivAdd(a, b, n);
    DivAdd(a + b, c, n);
    DivAdd(a + b + c, d, n);
    DivAdd(a + b + c + d, e, n);
    assert n / n == 1.0;
  }

  /** With some pixel, the five percentages sum to 100; with none they are all 0. */
  lemma PercentagesSum(t: Tally)
    ensures Total(t) > 0 ==>
      Percent(t, VeryLow) + Percent(t, Low) + Percent(t, Moderate) + Percent(t, High) + Percent(t, VeryHigh) == 100.0
    ensures Total(t) == 0 ==> forall c :: Percent(t, c) == 0.0
  {
    if Total(t) > 0 {
      var n := Total(t) as real;
      var a, b, c, d, e := t.veryLow as real, t.low as real, t.moderate as real, t.high as real, t.veryHigh as real;
      FractionsSum(a, b, c, d, e, n);
      assert Percent(t, VeryLow) == a / n * 100.0 && Percent(t, Low) == b / n * 100.0;
      assert Percent(t, Moderate) == c / n * 100.0 && Percent(t, High) == d / n * 100.0;
      assert Percent(t, VeryHigh) == e / n * 100.0;
    }
  }

  /** The pixels kept: `data[data != nodata]`, then without NaN (`None`). */
  function Valid(data: seq<Option<real>>, nodata: real): (r: seq<real>)
    ensures |r| <= |data|
  {
    if data == [] then []
    else
      var cell := data[|data| - 1];
      Valid(data[..|data| - 1], nodata) + if cell.Some? && cell.value != nodata then [cell.value] else []
  }

  /** A value is kept exactly when some pixel holds it and it is not the nodata value. */
  lemma {:induction false} ValidMembers(data: seq<Option<real>>, nodata: real, v: real)
    ensures v in Valid(data, nodata) <==> Some(v) in data && v != nodata
  {
    if data != [] {
      var init := data[..|data| - 1];
      ValidMembers(init, nodata, v);
      assert data == init + [data[|data| - 1]];
    }
  }

  /** `src.nodata`, or 0 where the raster declares none. */
  function Nodata(declared: Option<real>): (r: real)
    ensures declared.Some? ==> r == declared.value
    ensures declared.None? ==> r == 0.0
  {
    if declared.None? then 0.0 else declared.value
  }

  /** A raster without a declared nodata never counts a 0 pixel, even though 0 lies in the lowest class. */
  lemma ZeroNeverCounted(data: seq<Option<real>>)
    ensures 0.0 !in Valid(data, Nodata(None))
  {
    ValidMembers(data, Nodata(None), 0.0);
  }

  /** A province's ten fields: the five counts and the five percentages, in the order of `Classes`. */
  datatype Stats = Stats(counts: Tally, percents: seq<real>)

  function StatsOf(values: seq<real>): (s: Stats)
    ensures |s.percents| == |Classes|
  {
    var t := TallyOf(values);
    Stats(t, seq(|Classes|, k requires 0 <= k < |Classes| => Percent(t, Classes[k])))
  }

  /** A province polygon; masking the raster with it is a parameter of the loop. */
  datatype Polygon = Polygon(ring: seq<(real, real)>)

  /**
   * The loop over the provinces: `rows[i]` gets the statistics of the pixels
   * under polygon `i`, except where masking raises; those rows are left as they were.
   */
  method Summarise(polygons: seq<Polygon>, rows: array<Stats>, mask: Polygon -> Option<seq<Option<real>>>, declared: Option<real>)
    requires rows.Length == |polygons|
    modifies rows
    ensures forall i :: 0 <= i < rows.Length ==>
      rows[i] == match mask(polygons[i]) case None => old(rows[i]) case Some(data) => StatsOf(Valid(data, Nodata(declared)))
  {
    var nodata := if declared.None? then 0.0 else declared.value;
    for i := 0 to |polygons|
      invariant forall j :: 0 <= j < i ==>
        rows[j] == match mask(polygons[j]) case None => old(rows[j]) case Some(data) => StatsOf(Valid(data, Nodata(declared)))
      invariant forall j :: i <= j < rows.Length ==> rows[j] == old(rows[j])
    {
      var masked := mask(polygons[i]);
      if masked.None? {
        continue;
      }
      var valid := Valid(masked.value, nodata);
      rows[i] := StatsOf(valid);
    }
  }
}
