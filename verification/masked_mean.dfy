/**
 * The per-pixel masked mean shared by the CERES scripts: each file adds its valid
 * cells (those unequal to the file's nodata value) to a running sum and count, and
 * the output is `sum / count` where the count is positive, nodata elsewhere.
 */
module MaskedMean {

  /** One band as read: the cells in row-major order and the nodata value in force for it. */
  datatype Raster = Raster(cells: seq<real>, nodata: real)

  /** The rasters of one output, all of the first one's size (numpy cannot broadcast other shapes). */
  predicate Aligned(rasters: seq<Raster>)
  {
    rasters != [] && forall i :: 0 <= i < |rasters| ==> |rasters[i].cells| == |rasters[0].cells|
  }

  predicate Covers(rasters: seq<Raster>, p: nat)
  {
    forall i :: 0 <= i < |rasters| ==> p < |rasters[i].cells|
  }

  predicate ValidAt(r: Raster, p: nat)
    requires p < |r.cells|
  {
    r.cells[p] != r.nodata
  }

  /** How many of the rasters hold a valid value at pixel `p`. */
  function ValidCount(rasters: seq<Raster>, p: nat): (c: nat)
    requires Covers(rasters, p)
    ensures c <= |rasters|
  {
    if rasters == [] then 0
    else
      var last := rasters[|rasters| - 1];
      ValidCount(rasters[..|rasters| - 1], p) + (if ValidAt(last, p) then 1 else 0)
  }

  /** The sum of the valid values at pixel `p`. */
  function ValidSum(rasters: seq<Raster>, p: nat): real
    requires Covers(rasters, p)
  {
    if rasters == [] then 0.0
    else
      var last := rasters[|rasters| - 1];
      ValidSum(rasters[..|rasters| - 1], p) + (if ValidAt(last, p) then last.cells[p] else 0.0)
  }

  /** The output cell: the mean of the valid values, or the last file's nodata value where there is none. */
  function PixelMean(rasters: seq<Raster>, p: nat): (r: real)
    requires rasters != [] && Covers(rasters, p)
    ensures ValidCount(rasters, p) > 0 ==> r * ValidCount(rasters, p) as real == ValidSum(rasters, p)
    ensures ValidCount(rasters, p) == 0 ==> r == rasters[|rasters| - 1].nodata
  {
    var c := ValidCount(rasters, p);
    if c > 0 then ValidSum(rasters, p) / c as real else rasters[|rasters| - 1].nodata
  }

  function Width(rasters: seq<Raster>): nat
    requires rasters != []
  {
    |rasters[0].cells|
  }

  lemma AlignedCovers(rasters: seq<Raster>, p: nat)
    requires Aligned(rasters) && p < Width(rasters)
    ensures Covers(rasters, p)
  {
  }

  lemma CountSumSnoc(done: seq<Raster>, r: Raster, p: nat)
    requires Covers(done, p) && p < |r.cells|
    ensures Covers(done + [r], p)
    ensures ValidCount(done + [r], p) == ValidCount(done, p) + (if ValidAt(r, p) then 1 else 0)
    ensures ValidSum(done + [r], p) == ValidSum(done, p) + (if ValidAt(r, p) then r.cells[p] else 0.0)
  {
    assert (done + [r])[..|done + [r]| - 1] == done;
  }

  /** Running totals over the rasters `done`, for every pixel. */
  ghost predicate Totals(sum: seq<real>, count: seq<nat>, done: seq<Raster>)
  {
    |sum| == |count| && forall p :: 0 <= p < |sum| ==>
      (Covers(done, p) && sum[p] == ValidSum(done, p) && count[p] == ValidCount(done, p))
  }

  /** `data_sum[valid_mask] += data[valid_mask]; data_count[valid_mask] += 1` for one file. */
  method Accumulate(sum: array<real>, count: array<nat>, r: Raster, ghost done: seq<Raster>)
    requires sum.Length == count.Length == |r.cells|
    requires Totals(sum[..], count[..], done)
    modifies sum, count
    ensures Totals(sum[..], count[..], done + [r])
  {
    for p := 0 to sum.Length
      invariant forall q :: 0 <= q < p ==>
        (Covers(done + [r], q) && sum[q] == ValidSum(done + [r], q) && count[q] == ValidCount(done + [r], q))
      invariant forall q :: p <= q < sum.Length ==>
        (Covers(done, q) && sum[q] == ValidSum(done, q) && count[q] == ValidCount(done, q))
    {
      CountSumSnoc(done, r, p);
      if ValidAt(r, p) {
        sum[p] := sum[p] + r.cells[p];
        count[p] := count[p] + 1;
      }
    }
  }

  /** The output raster: `PixelMean` at every pixel. */
  function MeanRaster(rasters: seq<Raster>): (r: seq<real>)
    requires Aligned(rasters)
    ensures |r| == Width(rasters)
    ensures forall p :: 0 <= p < |r| ==> Covers(rasters, p) && r[p] == PixelMean(rasters, p)
  {
    seq(Width(rasters), p requires 0 <= p < Width(rasters) && Aligned(rasters) => PixelMean(rasters, p))
  }

  /** An output file: its name and its cells. */
  datatype Written = Written(name: string, cells: seq<real>)

  /** The rasters read for `files`, in order. */
  function Readings(files: seq<string>, read: string -> Raster): (r: seq<Raster>)
    ensures |r| == |files| && forall i :: 0 <= i < |files| ==> r[i] == read(files[i])
  {
    seq(|files|, i requires 0 <= i < |files| => read(files[i]))
  }

  /** Every file of `files` reads as a raster of one common size. */
  predicate SameWidth(files: seq<string>, read: string -> Raster)
  {
    forall i, j :: 0 <= i < |files| && 0 <= j < |files| ==> |read(files[i]).cells| == |read(files[j]).cells|
  }

  lemma SameWidthWithin(files: seq<string>, sub: seq<string>, read: string -> Raster)
    requires SameWidth(files, read) && forall f :: f in sub ==> f in files
    ensures SameWidth(sub, read)
  {
    forall i, j | 0 <= i < |sub| && 0 <= j < |sub| ensures |read(sub[i]).cells| == |read(sub[j]).cells| {
      assert sub[i] in files && sub[j] in files;
    }
  }

  /** The rasters of a non-empty sub-list of such files are aligned. */
  lemma ReadingsAligned(files: seq<string>, group: seq<string>, read: string -> Raster)
    requires SameWidth(files, read) && group != [] && forall f :: f in group ==> f in files
    ensures Aligned(Readings(group, read))
  {
    var rs := Readings(group, read);
    forall i | 0 <= i < |rs| ensures |rs[i].cells| == |rs[0].cells| {
      assert group[i] in files && group[0] in files;
    }
  }

  /** The whole accumulation and the final division, proved against `PixelMean` cell by cell. */
  method Mean(rasters: seq<Raster>) returns (mean: seq<real>)
    requires Aligned(rasters)
    ensures mean == MeanRaster(rasters)
  {
    var n := Width(rasters);
    var sum := new real[n](_ => 0.0);
    var count := new nat[n](_ => 0);
    for i := 0 to |rasters|
      invariant Totals(sum[..], count[..], rasters[..i])
    {
      assert rasters[..i + 1] == rasters[..i] + [rasters[i]];
      Accumulate(sum, count, rasters[i], rasters[..i]);
    }
    assert rasters[..|rasters|] == rasters;
    var out := new real[n];
    for p := 0 to n
      invariant forall q :: 0 <= q < p ==> Covers(rasters, q) && out[q] == PixelMean(rasters, q)
      invariant Totals(sum[..], count[..], rasters)
    {
      out[p] := if count[p] > 0 then sum[p] / count[p] as real else rasters[|rasters| - 1].nodata;
    }
    mean := out[..];
    assert forall p :: 0 <= p < n ==> mean[p] == MeanRaster(rasters)[p];
  }

  /** `x` added once for each raster valid at `p`: the count scaled by `x`, built the way the sum is. */
  function Scaled(rasters: seq<Raster>, p: nat, x: real): real
    requires Covers(rasters, p)
  {
    if rasters == [] then 0.0
    else Scaled(rasters[..|rasters| - 1], p, x) + (if ValidAt(rasters[|rasters| - 1], p) then x else 0.0)
  }

  lemma {:induction false} ScaledIsProduct(rasters: seq<Raster>, p: nat, x: real)
    requires Covers(rasters, p)
    ensures Scaled(rasters, p, x) == ValidCount(rasters, p) as real * x
  {
    if rasters != [] {
      var init := rasters[..|rasters| - 1];
      assert Covers(init, p);
      ScaledIsProduct(init, p, x);
      var c := ValidCount(init, p) as real;
      assert (c + 1.0) * x == c * x + x;
    }
  }

  /** Where all valid values at `p` lie in `[lo, hi]`, the sum lies between the count scaled by each. */
  lemma {:induction false} SumBounds(rasters: seq<Raster>, p: nat, lo: real, hi: real)
    requires Covers(rasters, p)
    requires forall i :: 0 <= i < |rasters| && ValidAt(rasters[i], p) ==> lo <= rasters[i].cells[p] <= hi
    ensures Scaled(rasters, p, lo) <= ValidSum(rasters, p) <= Scaled(rasters, p, hi)
  {
    if rasters != [] {
      var init := rasters[..|rasters| - 1];
      assert Covers(init, p);
      assert forall i :: 0 <= i < |init| ==> init[i] == rasters[i];
      SumBounds(init, p, lo, hi);
    }
  }

  lemma DivisionBounds(s: real, c: real, slo: real, shi: real, lo: real, hi: real)
    requires c > 0.0 && slo == c * lo && shi == c * hi && slo <= s <= shi
    ensures lo <= s / c <= hi
  {
  }

  /** A mean lies between the smallest and the largest valid value it averages. */
  lemma MeanBounds(rasters: seq<Raster>, p: nat, lo: real, hi: real)
    requires rasters != [] && Covers(rasters, p) && ValidCount(rasters, p) > 0
    requires forall i :: 0 <= i < |rasters| && ValidAt(rasters[i], p) ==> lo <= rasters[i].cells[p] <= hi
    ensures lo <= PixelMean(rasters, p) <= hi
  {
    SumBounds(rasters, p, lo, hi);
    ScaledIsProduct(rasters, p, lo);
    ScaledIsProduct(rasters, p, hi);
    DivisionBounds(ValidSum(rasters, p), ValidCount(rasters, p) as real, Scaled(rasters, p, lo), Scaled(rasters, p, hi), lo, hi);
  }

  /** Nodata comes out exactly where no file is valid (when the last nodata is no mean value). */
  lemma {:induction false} NoValidMeansZeroCount(rasters: seq<Raster>, p: nat)
    requires Covers(rasters, p)
    ensures ValidCount(rasters, p) == 0 <==> forall i :: 0 <= i < |rasters| ==> !ValidAt(rasters[i], p)
  {
    if rasters != [] {
      var init := rasters[..|rasters| - 1];
      assert Covers(init, p);
      NoValidMeansZeroCount(init, p);
      assert forall i :: 0 <= i < |init| ==> init[i] == rasters[i];
    }
  }

  /** A pixel valid in every file is counted once per file. */
  lemma {:induction false} AllValidCount(rasters: seq<Raster>, p: nat)
    requires Covers(rasters, p)
    requires forall i :: 0 <= i < |rasters| ==> ValidAt(rasters[i], p)
    ensures ValidCount(rasters, p) == |rasters|
  {
    if rasters != [] {
      var init := rasters[..|rasters| - 1];
      assert Covers(init, p);
      AllValidCount(init, p);
    }
  }
}
