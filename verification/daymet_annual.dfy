/**
 * Annual means of the daily Daymet radiation rasters: files are grouped by the
 * year in their name, and each year's raster is the sum of the valid values
 * divided by the number of files of the year, with nodata wherever the last file
 * read is invalid.
 */
module DaymetAnnual {
  import opened Outcome
  import opened Text
  import opened Sequences
  import opened Grouping
  import opened MaskedMean

  /** `basename.split('_')[2].split('-')[0]`: a name without a third field raises. */
  function YearKey(basename: string): (r: Keyed<string>)
    ensures !r.Skip?
    ensures r.Abort? <==> Field(basename, '_', 2).None?
    ensures r.Key? ==> '-' !in r.key
  {
    match Field(basename, '_', 2)
    case None => Abort
    case Some(date) => Key(Split(date, '-')[0])
  }

  /** The output cell: the valid values' sum over the file count, or nodata where the last file is invalid. */
  function AnnualCell(rasters: seq<Raster>, p: nat): (r: real)
    requires rasters != [] && Covers(rasters, p)
    ensures ValidAt(rasters[|rasters| - 1], p) ==> r * |rasters| as real == ValidSum(rasters, p)
    ensures !ValidAt(rasters[|rasters| - 1], p) ==> r == rasters[|rasters| - 1].nodata
  {
    var last := rasters[|rasters| - 1];
    if ValidAt(last, p) then ValidSum(rasters, p) / |rasters| as real else last.nodata
  }

  function AnnualRaster(rasters: seq<Raster>): seq<real>
    requires Aligned(rasters)
  {
    seq(Width(rasters), p requires 0 <= p < Width(rasters) && Aligned(rasters) => AnnualCell(rasters, p))
  }

  /** Where the last file is valid, the cell times the number of files gives back the valid sum. */
  lemma AnnualCellDivisor(rasters: seq<Raster>, p: nat)
    requires rasters != [] && Covers(rasters, p) && ValidAt(rasters[|rasters| - 1], p)
    ensures AnnualCell(rasters, p) * |rasters| as real == ValidSum(rasters, p)
  {
  }

  /** Where every file is valid, the cell is the masked mean of the other scripts. */
  lemma AnnualCellAllValid(rasters: seq<Raster>, p: nat)
    requires rasters != [] && Covers(rasters, p)
    requires forall i :: 0 <= i < |rasters| ==> ValidAt(rasters[i], p)
    ensures AnnualCell(rasters, p) == PixelMean(rasters, p)
  {
    AllValidCount(rasters, p);
  }

  /** Where some file is invalid but the last is valid, the cell lies below the masked mean when values are positive. */
  lemma AnnualCellBelowMean(rasters: seq<Raster>, p: nat)
    requires rasters != [] && Covers(rasters, p) && ValidAt(rasters[|rasters| - 1], p)
    requires ValidCount(rasters, p) < |rasters| && ValidSum(rasters, p) > 0.0
    ensures AnnualCell(rasters, p) < PixelMean(rasters, p)
  {
    var c := ValidCount(rasters, p) as real;
    var n := |rasters| as real;
    var s := ValidSum(rasters, p);
    NoValidMeansZeroCount(rasters, p);
    assert c > 0.0;
    FractionsOrdered(s, c, n);
  }

  lemma FractionsOrdered(s: real, c: real, n: real)
    requires s > 0.0 && 0.0 < c < n
    ensures s / n < s / c
  {
    assert s / n * n == s;
    assert s / c * c == s;
    assert s / c * n > s / c * c;
  }

  /** The sums over the rasters `done`, for every pixel. */
  ghost predicate SumTotals(sum: seq<real>, done: seq<Raster>)
  {
    forall p :: 0 <= p < |sum| ==> (Covers(done, p) && sum[p] == ValidSum(done, p))
  }

  /** `data_sum[valid_mask] += data[valid_mask]` for one file. */
  method AddValid(sum: array<real>, r: Raster, ghost done: seq<Raster>)
    requires sum.Length == |r.cells|
    requires SumTotals(sum[..], done)
    modifies sum
    ensures SumTotals(sum[..], done + [r])
  {
    for p := 0 to sum.Length
      invariant forall q :: 0 <= q < p ==> (Covers(done + [r], q) && sum[q] == ValidSum(done + [r], q))
      invariant forall q :: p <= q < sum.Length ==> (Covers(done, q) && sum[q] == ValidSum(done, q))
    {
      CountSumSnoc(done, r, p);
      if ValidAt(r, p) {
        sum[p] := sum[p] + r.cells[p];
      }
    }
  }

  /** One year's files: the sum loop with its file counter, then the division and the last-mask nodata. */
  method AnnualMean(rasters: seq<Raster>) returns (mean: seq<real>)
    requires Aligned(rasters)
    ensures mean == AnnualRaster(rasters)
  {
    var n := Width(rasters);
    var sum := new real[n](_ => 0.0);
    var count := 0;
    for i := 0 to |rasters|
      invariant count == i
      invariant SumTotals(sum[..], rasters[..i])
    {
      assert rasters[..i + 1] == rasters[..i] + [rasters[i]];
      AddValid(sum, rasters[i], rasters[..i]);
      count := count + 1;
    }
    assert rasters[..|rasters|] == rasters;
    var last := rasters[|rasters| - 1];
    var out := new real[n];
    for p := 0 to n
      invariant forall q :: 0 <= q < p ==> Covers(rasters, q) && out[q] == AnnualCell(rasters, q)
      invariant SumTotals(sum[..], rasters)
    {
      out[p] := if ValidAt(last, p) then sum[p] / count as real else last.nodata;
    }
    mean := out[..];
    assert forall p :: 0 <= p < n ==> mean[p] == AnnualRaster(rasters)[p];
  }

  /** `f"daymet_srad_{year}.tif"`. */
  function FileName(year: string): string
  {
    "daymet_srad_" + year + ".tif"
  }

  /** Different years are written to different files. */
  lemma FileNamesDistinct(y1: string, y2: string)
    ensures FileName(y1) == FileName(y2) <==> y1 == y2
  {
    if FileName(y1) == FileName(y2) {
      assert y1 == FileName(y1)[12..|FileName(y1)| - 4];
      assert y2 == FileName(y2)[12..|FileName(y2)| - 4];
    }
  }

  /** The file written for the year `key`. */
  ghost function YearOutput(files: seq<string>, read: string -> Raster, key: string): Written
    requires SameWidth(files, read)
    requires key in Uniques(GroupedKeys(files, YearKey))
  {
    UniquesSameElements(GroupedKeys(files, YearKey));
    MembersNonEmpty(files, YearKey, key);
    MembersBelong(files, YearKey, key);
    ReadingsAligned(files, Members(files, YearKey, key), read);
    Written(FileName(key), AnnualRaster(Readings(Members(files, YearKey, key), read)))
  }

  ghost predicate WritesYears(out: seq<Written>, keys: seq<string>, files: seq<string>, read: string -> Raster)
    requires SameWidth(files, read)
    requires forall k :: k in keys ==> k in Uniques(GroupedKeys(files, YearKey))
  {
    |out| == |keys| && forall i :: 0 <= i < |keys| ==> out[i] == YearOutput(files, read, keys[i])
  }

  lemma WritesYearsSnoc(out: seq<Written>, keys: seq<string>, key: string, files: seq<string>, read: string -> Raster)
    requires SameWidth(files, read)
    requires forall k :: k in keys ==> k in Uniques(GroupedKeys(files, YearKey))
    requires key in Uniques(GroupedKeys(files, YearKey))
    requires WritesYears(out, keys, files, read)
    ensures WritesYears(out + [YearOutput(files, read, key)], keys + [key], files, read)
  {
  }

  method WriteYear(files: seq<string>, read: string -> Raster, key: string, members: seq<string>) returns (w: Written)
    requires SameWidth(files, read)
    requires key in Uniques(GroupedKeys(files, YearKey)) && members == Members(files, YearKey, key)
    ensures w == YearOutput(files, read, key)
  {
    UniquesSameElements(GroupedKeys(files, YearKey));
    MembersNonEmpty(files, YearKey, key);
    MembersBelong(files, YearKey, key);
    ReadingsAligned(files, members, read);
    var mean := AnnualMean(Readings(members, read));
    w := Written(FileName(key), mean);
  }

  /**
   * The script over the listed files: None where a name has no year field;
   * otherwise one raster per year, in the order the years are first met.
   */
  method AnnualMeans(files: seq<string>, read: string -> Raster) returns (r: Option<seq<Written>>)
    requires SameWidth(files, read)
    ensures r.None? <==> Aborts(files, YearKey)
    ensures r.Some? ==> WritesYears(r.value, Uniques(GroupedKeys(files, YearKey)), files, read)
  {
    var groups := GroupBy(files, YearKey);
    if groups.None? {
      return None;
    }
    var g := groups.value;
    var out: seq<Written> := [];
    for i := 0 to |g.order|
      invariant WritesYears(out, g.order[..i], files, read)
    {
      var key := g.order[i];
      var w := WriteYear(files, read, key, g.members[key]);
      WritesYearsSnoc(out, g.order[..i], key, files, read);
      out := out + [w];
      assert g.order[..i + 1] == g.order[..i] + [key];
    }
    assert g.order[..|g.order|] == g.order;
    return Some(out);
  }
}
