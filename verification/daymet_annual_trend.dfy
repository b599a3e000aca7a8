/**
 * The Mann-Kendall trend over the Daymet annual means: the `.tif` files of the
 * directory are filtered to the years `[start, end]`, the kept years are sorted,
 * the band of each year is read from `daymet_srad_<year>.tif`, and the pixel loop
 * writes Sen's slope, the p-value and Kendall's tau, georeferenced like the first
 * kept file.
 */
module DaymetAnnualTrend {
  import opened Outcome
  import opened Text
  import opened Sequences
  import opened Grouping
  import opened YearFilter
  import opened PixelTrend

  /** `int(f.split('_')[2].split('.')[0])`: a missing field or a non-integer raises. */
  function FileYear(name: string): (r: Keyed<int>)
    ensures !r.Skip?
    ensures Field(name, '_', 2).None? ==> r.Abort?
  {
    match Field(name, '_', 2)
    case None => Abort
    case Some(field) =>
      match ParseInt(Split(field, '.')[0])
      case None => Abort
      case Some(y) => Key(y)
  }

  /** A name `<a>_<b>_<year>.<ext>`, such as `daymet_srad_2010.tif`, carries that year. */
  lemma FileYearOfName(a: string, b: string, y: int, ext: string)
    requires '_' !in a && '_' !in b && '_' !in ext
    ensures FileYear(a + "_" + b + "_" + IntToString(y) + "." + ext) == Key(y)
  {
    var year := IntToString(y);
    var rest := year + ['.'] + ext;
    var name := a + "_" + b + "_" + year + "." + ext;
    assert name == a + ['_'] + (b + ['_'] + rest);
    IntToStringAvoids(y, '_');
    IntToStringAvoids(y, '.');
    assert '_' !in rest;
    SplitAtSeparator(a, '_', b + ['_'] + rest);
    SplitAtSeparator(b, '_', rest);
    SplitSingle(rest, '_');
    assert Split(name, '_') == [a, b, rest];
    SplitAtSeparator(year, '.', ext);
    assert Split(rest, '.')[0] == year;
    IntToStringRoundTrip(y);
  }

  predicate IsTif(name: string)
  {
    EndsWith(name, ".tif")
  }

  /** The years of files whose year reads, in their order. */
  function YearsOf(files: seq<string>): (r: seq<int>)
    requires forall f :: f in files ==> FileYear(f).Key?
    ensures |r| == |files| && forall k :: 0 <= k < |files| ==> r[k] == FileYear(files[k]).key
  {
    seq(|files|, k requires 0 <= k < |files| && forall f :: f in files ==> FileYear(f).Key? => FileYear(files[k]).key)
  }

  /** `filter_files_by_year` over the `.tif` files, then `sorted` of their years. */
  function Selection(listing: seq<string>, start: int, end: int): (r: Option<(seq<string>, seq<int>)>)
    ensures r.None? <==> Aborts(Filter(listing, IsTif), FileYear)
    ensures r.Some? ==> SortedBy(r.value.1, IntLe) && |r.value.1| == |r.value.0|
  {
    var tifs := Filter(listing, IsTif);
    KeptFails(tifs, FileYear, start, end);
    match Kept(tifs, FileYear, start, end)
    case None => None
    case Some(kept) =>
      KeptMembers(tifs, FileYear, start, end);
      IntLeTotal();
      var years := SortBy(YearsOf(kept), IntLe);
      assert |years| == |kept| by {
        assert |multiset(years)| == |multiset(YearsOf(kept))|;
      }
      Some((kept, years))
  }

  /** The kept files are the `.tif` files whose year lies in the range, and the years are theirs, sorted. */
  lemma SelectionSpec(listing: seq<string>, start: int, end: int, f: string)
    requires Selection(listing, start, end).Some?
    ensures var (kept, years) := Selection(listing, start, end).value;
      && (f in kept <==> f in listing && IsTif(f) && FileYear(f).Key? && start <= FileYear(f).key <= end)
      && (forall f :: f in kept ==> FileYear(f).Key?)
      && multiset(years) == multiset(YearsOf(kept))
  {
    var tifs := Filter(listing, IsTif);
    KeptFails(tifs, FileYear, start, end);
    KeptMembers(tifs, FileYear, start, end);
    IntLeTotal();
  }

  /** `f"daymet_srad_{year}.tif"`: the band read for a year. */
  function BandName(year: int): string
  {
    "daymet_srad_" + IntToString(year) + ".tif"
  }

  function BandNames(years: seq<int>): (r: seq<string>)
    ensures |r| == |years| && forall k :: 0 <= k < |years| ==> r[k] == BandName(years[k])
  {
    seq(|years|, k requires 0 <= k < |years| => BandName(years[k]))
  }

  /** The tag of the three output names, `{start_year}-{end_year}`. */
  function Tag(start: int, end: int): string
  {
    IntToString(start) + "-" + IntToString(end)
  }

  /** Why the script stops: a year that raises, or the stack that cannot be built. */
  datatype TrendError = YearUnreadable | Stack(error: StackError)

  /**
   * The script: None of the three rasters where a year raises or the stack fails
   * (no file in range, or bands of different shapes); otherwise the trend rasters
   * over the bands of the sorted years, with the first kept file as template.
   */
  method AnnualTrend(listing: seq<string>, read: string -> Band, test: seq<real> -> Trend, start: int, end: int)
    returns (r: Result<seq<TrendOutput>, TrendError>)
    ensures r == Failure(YearUnreadable) <==> Selection(listing, start, end).None?
    ensures Selection(listing, start, end).Some? ==>
      var (kept, years) := Selection(listing, start, end).value;
      var bands := Bands(BandNames(years), read);
      && (r == Failure(Stack(NothingToStack)) <==> kept == [])
      && (r == Failure(Stack(ShapesDiffer)) <==> kept != [] && !Stackable(bands))
      && (r.Success? ==> Stackable(bands) && r.value == TrendOutputs(Trends(bands, test), Tag(start, end), kept[0]))
  {
    var selection := Selection(listing, start, end);
    if selection.None? {
      return Failure(YearUnreadable);
    }
    var (kept, years) := selection.value;
    var bands := ReadStack(BandNames(years), read);
    var stacked := StackAndTest(bands, test);
    if stacked.Failure? {
      return Failure(Stack(stacked.error));
    }
    return Success(TrendOutputs(stacked.value, Tag(start, end), kept[0]));
  }
}
