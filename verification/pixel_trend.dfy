/**
 * The per-pixel trend loop shared by the Daymet Mann-Kendall scripts: the yearly
 * bands are stacked with nodata turned into NaN, a pixel whose series is all NaN
 * keeps NaN in the three result rasters, and every other pixel gets the test run
 * on its non-NaN values in stack order. The test itself is a parameter.
 */
module PixelTrend {
  import opened Outcome

  /** One band as read: its cells and the file's nodata value, which a file may not declare. */
  datatype Band = Band(cells: seq<real>, nodata: Option<real>)

  /** What the trend test reports for one series: Sen's slope, the p-value and Kendall's tau. */
  datatype Trend = Trend(slope: real, p: real, tau: real)

  /** `data[data == src.nodata] = np.nan`; NaN is `None`. A band without nodata keeps every cell. */
  function ToNaN(v: real, nodata: Option<real>): (r: Option<real>)
    ensures r.None? <==> nodata == Some(v)
    ensures r.Some? ==> r.value == v
  {
    if nodata == Some(v) then None else Some(v)
  }

  /** `np.stack` needs at least one band, all of one shape. */
  predicate Stackable(bands: seq<Band>)
  {
    bands != [] && forall k :: 0 <= k < |bands| ==> |bands[k].cells| == |bands[0].cells|
  }

  function Width(bands: seq<Band>): nat
    requires bands != []
  {
    |bands[0].cells|
  }

  /** `data_stack[i, j, :]`: pixel `p` of every band, in stack order. */
  function Series(bands: seq<Band>, p: nat): (s: seq<Option<real>>)
    requires Stackable(bands) && p < Width(bands)
    ensures |s| == |bands|
  {
    seq(|bands|, k requires 0 <= k < |bands| && Stackable(bands) && p < Width(bands) => ToNaN(bands[k].cells[p], bands[k].nodata))
  }

  /** `pixel_values[~np.isnan(pixel_values)]`: the non-NaN values, in order. */
  function Present(s: seq<Option<real>>): (r: seq<real>)
    ensures |r| <= |s|
  {
    if s == [] then []
    else Present(s[..|s| - 1]) + if s[|s| - 1].Some? then [s[|s| - 1].value] else []
  }

  /** The test sees nothing exactly when the whole series is NaN. */
  lemma {:induction false} PresentEmpty(s: seq<Option<real>>)
    ensures Present(s) == [] <==> forall k :: 0 <= k < |s| ==> s[k].None?
  {
    if s != [] {
      var init := s[..|s| - 1];
      PresentEmpty(init);
      assert forall k :: 0 <= k < |init| ==> init[k] == s[k];
    }
  }

  /** It sees the values of a longer series in the same order: dropping NaNs maps a concatenation to a concatenation. */
  lemma {:induction false} PresentAppend(a: seq<Option<real>>, b: seq<Option<real>>)
    ensures Present(a + b) == Present(a) + Present(b)
  {
    if b == [] {
      assert a + b == a;
    } else {
      var binit := b[..|b| - 1];
      assert (a + b)[..|a + b| - 1] == a + binit;
      PresentAppend(a, binit);
    }
  }

  /** And exactly the values present in the series. */
  lemma {:induction false} PresentMembers(s: seq<Option<real>>, v: real)
    ensures v in Present(s) <==> Some(v) in s
  {
    if s != [] {
      var init := s[..|s| - 1];
      PresentMembers(init, v);
      assert s == init + [s[|s| - 1]];
    }
  }

  /** A series without NaN is handed to the test whole. */
  lemma {:induction false} PresentComplete(s: seq<Option<real>>)
    requires forall k :: 0 <= k < |s| ==> s[k].Some?
    ensures |Present(s)| == |s|
    ensures forall k :: 0 <= k < |s| ==> Present(s)[k] == s[k].value
  {
    if s != [] {
      var init := s[..|s| - 1];
      PresentComplete(init);
    }
  }

  /** The outcome at one pixel: no test (NaN stays) for an all-NaN series, else the test on the present values. */
  function PixelResult(bands: seq<Band>, p: nat, test: seq<real> -> Trend): Option<Trend>
    requires Stackable(bands) && p < Width(bands)
  {
    var present := Present(Series(bands, p));
    if present == [] then None else Some(test(present))
  }

  /** The three result rasters; NaN is `None`. */
  datatype TrendRasters = TrendRasters(slope: seq<Option<real>>, pValue: seq<Option<real>>, tau: seq<Option<real>>)

  function Slope(t: Option<Trend>): Option<real>
  {
    if t.None? then None else Some(t.value.slope)
  }

  function PValue(t: Option<Trend>): Option<real>
  {
    if t.None? then None else Some(t.value.p)
  }

  function Tau(t: Option<Trend>): Option<real>
  {
    if t.None? then None else Some(t.value.tau)
  }

  /** What the pixel loop leaves in the result rasters, pixel by pixel. */
  function Trends(bands: seq<Band>, test: seq<real> -> Trend): (r: TrendRasters)
    requires Stackable(bands)
    ensures |r.slope| == |r.pValue| == |r.tau| == Width(bands)
  {
    var n := Width(bands);
    TrendRasters(
      seq(n, p requires 0 <= p < n && n == Width(bands) && Stackable(bands) => Slope(PixelResult(bands, p, test))),
      seq(n, p requires 0 <= p < n && n == Width(bands) && Stackable(bands) => PValue(PixelResult(bands, p, test))),
      seq(n, p requires 0 <= p < n && n == Width(bands) && Stackable(bands) => Tau(PixelResult(bands, p, test))))
  }

  /** The result arrays start as NaN; the loop skips all-NaN pixels and stores the test's three numbers elsewhere. */
  method PixelTrends(bands: seq<Band>, test: seq<real> -> Trend) returns (r: TrendRasters)
    requires Stackable(bands)
    ensures r == Trends(bands, test)
  {
    var n := Width(bands);
    var slope := new Option<real>[n](_ => None);
    var pValue := new Option<real>[n](_ => None);
    var tau := new Option<real>[n](_ => None);
    for p := 0 to n
      invariant forall q :: 0 <= q < p ==>
        (slope[q] == Slope(PixelResult(bands, q, test)) && pValue[q] == PValue(PixelResult(bands, q, test))
          && tau[q] == Tau(PixelResult(bands, q, test)))
      invariant forall q :: p <= q < n ==> slope[q].None? && pValue[q].None? && tau[q].None?
    {
      var present := Present(Series(bands, p));
      ghost var outcome := PixelResult(bands, p, test);
      if present == [] {
        assert outcome.None?;
        continue;
      }
      var result := test(present);
      assert outcome == Some(result);
      slope[p] := Some(result.slope);
      pValue[p] := Some(result.p);
      tau[p] := Some(result.tau);
    }
    r := TrendRasters(slope[..], pValue[..], tau[..]);
    ghost var expected := Trends(bands, test);
    assert r.slope == expected.slope by {
      assert forall q :: 0 <= q < n ==> r.slope[q] == expected.slope[q];
    }
    assert r.pValue == expected.pValue by {
      assert forall q :: 0 <= q < n ==> r.pValue[q] == expected.pValue[q];
    }
    assert r.tau == expected.tau by {
      assert forall q :: 0 <= q < n ==> r.tau[q] == expected.tau[q];
    }
  }

  /** A pixel that is NaN in every band stays NaN in all three rasters. */
  lemma AllNaNStaysNaN(bands: seq<Band>, test: seq<real> -> Trend, p: nat)
    requires Stackable(bands) && p < Width(bands)
    requires forall k :: 0 <= k < |bands| ==> bands[k].nodata == Some(bands[k].cells[p])
    ensures Trends(bands, test).slope[p].None? && Trends(bands, test).pValue[p].None? && Trends(bands, test).tau[p].None?
  {
    PresentEmpty(Series(bands, p));
  }

  /** Any other pixel holds the test's results on its non-NaN values, in stack order. */
  lemma MannKendallPixel(bands: seq<Band>, test: seq<real> -> Trend, p: nat, k: nat)
    requires Stackable(bands) && p < Width(bands)
    requires k < |bands| && bands[k].nodata != Some(bands[k].cells[p])
    ensures Trends(bands, test).slope[p] == Some(test(Present(Series(bands, p))).slope)
    ensures Trends(bands, test).pValue[p] == Some(test(Present(Series(bands, p))).p)
    ensures Trends(bands, test).tau[p] == Some(test(Present(Series(bands, p))).tau)
  {
    PresentEmpty(Series(bands, p));
    assert Series(bands, p)[k].Some?;
  }

  /** The stack of bands read for `names`, in order. */
  function Bands(names: seq<string>, read: string -> Band): (r: seq<Band>)
    ensures |r| == |names| && forall k :: 0 <= k < |names| ==> r[k] == read(names[k])
  {
    seq(|names|, k requires 0 <= k < |names| => read(names[k]))
  }

  /** The reading loop: one band per name, appended in order. */
  method ReadStack(names: seq<string>, read: string -> Band) returns (bands: seq<Band>)
    ensures bands == Bands(names, read)
  {
    bands := [];
    for k := 0 to |names|
      invariant bands == Bands(names[..k], read)
    {
      bands := bands + [read(names[k])];
    }
    assert names[..|names|] == names;
  }

  /** Why `np.stack` raises: no band at all, or bands of different shapes. */
  datatype StackError = NothingToStack | ShapesDiffer

  /** Stacking, then the pixel loop. */
  method StackAndTest(bands: seq<Band>, test: seq<real> -> Trend) returns (r: Result<TrendRasters, StackError>)
    ensures r == Failure(NothingToStack) <==> bands == []
    ensures r == Failure(ShapesDiffer) <==> bands != [] && !Stackable(bands)
    ensures r.Success? ==> Stackable(bands) && r.value == Trends(bands, test)
  {
    if bands == [] {
      return Failure(NothingToStack);
    }
    if !Stackable(bands) {
      return Failure(ShapesDiffer);
    }
    var t := PixelTrends(bands, test);
    return Success(t);
  }

  /** A written result raster: its file name, its cells and the file its georeferencing is copied from. */
  datatype TrendOutput = TrendOutput(name: string, cells: seq<Option<real>>, template: string)

  /** The three files `sen_slope_<tag>.tif`, `p_value_<tag>.tif` and `kendall_tau_<tag>.tif`. */
  function TrendOutputs(t: TrendRasters, tag: string, template: string): (r: seq<TrendOutput>)
    ensures |r| == 3
    ensures forall i :: 0 <= i < 3 ==> r[i].template == template
  {
    [ TrendOutput("sen_slope_" + tag + ".tif", t.slope, template),
      TrendOutput("p_value_" + tag + ".tif", t.pValue, template),
      TrendOutput("kendall_tau_" + tag + ".tif", t.tau, template) ]
  }
}
