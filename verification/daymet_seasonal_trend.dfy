/**
 * The Mann-Kendall trend over the Daymet seasonal means, one season after the
 * other (autumn, summer, spring, winter): the season's files are those ending in
 * `_<season>.tif`, a file whose third `_` field is not an integer is passed over,
 * the kept years are sorted while the kept files keep their listing order, and
 * the bands `daymet_srad_<year>_<season>.tif` go through the pixel loop. An
 * exception in one season ends the script, so the later seasons are not written.
 */
module DaymetSeasonalTrend {
  import opened Outcome
  import opened Text
  import opened Sequences
  import opened Grouping
  import opened Seasons
  import opened YearFilter
  import opened PixelTrend

  /** The order of the `seasons` list. */
  const TrendSeasons: seq<Season> := [Autumn, Summer, Spring, Winter]

  function Suffix(s: Season): string
  {
    "_" + Name(s) + ".tif"
  }

  /** The files of the listing that belong to a season. */
  function SeasonFiles(listing: seq<string>, s: Season): (r: seq<string>)
    ensures forall f :: f in r <==> f in listing && EndsWith(f, Suffix(s))
  {
    Filter(listing, f => EndsWith(f, Suffix(s)))
  }

  /** `int(f.split('_')[2])` inside `try ... except ValueError`: a missing field raises, a non-integer is passed over. */
  function SeasonFileYear(name: string): (r: Keyed<int>)
    ensures r.Abort? <==> Field(name, '_', 2).None?
    ensures r.Skip? ==> ParseInt(Field(name, '_', 2).value).None?
  {
    match Field(name, '_', 2)
    case None => Abort
    case Some(field) =>
      match ParseInt(field)
      case None => Skip
      case Some(y) => Key(y)
  }

  /** `daymet_srad_2010_winter.tif` carries the year 2010. */
  lemma SeasonFileYearOfName(a: string, b: string, y: int, rest: string)
    requires '_' !in a && '_' !in b
    ensures SeasonFileYear(a + "_" + b + "_" + IntToString(y) + "_" + rest) == Key(y)
  {
    var year := IntToString(y);
    var name := a + "_" + b + "_" + year + "_" + rest;
    assert name == a + ['_'] + (b + ['_'] + (year + ['_'] + rest));
    IntToStringAvoids(y, '_');
    SplitAtSeparator(a, '_', b + ['_'] + (year + ['_'] + rest));
    SplitAtSeparator(b, '_', year + ['_'] + rest);
    SplitAtSeparator(year, '_', rest);
    assert Split(name, '_')[2] == year;
    IntToStringRoundTrip(y);
  }

  /** The years of the kept files, in their order: the `years` list the loop appends beside `valid_tif_files`. */
  function YearsOf(files: seq<string>): (r: seq<int>)
    requires forall f :: f in files ==> SeasonFileYear(f).Key?
    ensures |r| == |files| && forall k :: 0 <= k < |files| ==> r[k] == SeasonFileYear(files[k]).key
  {
    seq(|files|, k requires 0 <= k < |files| && forall f :: f in files ==> SeasonFileYear(f).Key? => SeasonFileYear(files[k]).key)
  }

  lemma YearsOfSnoc(files: seq<string>, f: string)
    requires forall g :: g in files + [f] ==> SeasonFileYear(g).Key?
    ensures YearsOf(files + [f]) == YearsOf(files) + [SeasonFileYear(f).key]
  {
  }

  /** The kept files and their years, in listing order; None where a name raises. */
  function Selection(listing: seq<string>, s: Season, start: int, end: int): (r: Option<(seq<string>, seq<int>)>)
    ensures r.None? <==> Kept(SeasonFiles(listing, s), SeasonFileYear, start, end).None?
    ensures r.Some? ==> r.value.0 == Kept(SeasonFiles(listing, s), SeasonFileYear, start, end).value
    ensures r.Some? ==> |r.value.1| == |r.value.0|
  {
    var files := SeasonFiles(listing, s);
    match Kept(files, SeasonFileYear, start, end)
    case None => None
    case Some(valid) =>
      KeptMembers(files, SeasonFileYear, start, end);
      Some((valid, YearsOf(valid)))
  }

  /** The selection loop: the kept files and their years, in listing order; None where a name raises. */
  method SelectSeason(listing: seq<string>, s: Season, start: int, end: int) returns (r: Option<(seq<string>, seq<int>)>)
    ensures r == Selection(listing, s, start, end)
  {
    var files := SeasonFiles(listing, s);
    r := SelectFiles(files, start, end);
  }

  method SelectFiles(files: seq<string>, start: int, end: int) returns (r: Option<(seq<string>, seq<int>)>)
    ensures r.None? <==> Kept(files, SeasonFileYear, start, end).None?
    ensures r.Some? ==> forall f :: f in r.value.0 ==> SeasonFileYear(f).Key?
    ensures r.Some? ==> r.value == (Kept(files, SeasonFileYear, start, end).value, YearsOf(r.value.0))
  {
    var valid: seq<string> := [];
    var years: seq<int> := [];
    for i := 0 to |files|
      invariant Kept(files[..i], SeasonFileYear, start, end) == Some(valid)
      invariant forall f :: f in valid ==> SeasonFileYear(f).Key?
      invariant years == YearsOf(valid)
    {
      KeptSnoc(files, i, SeasonFileYear, start, end);
      match SeasonFileYear(files[i]) {
        case Abort =>
          KeptFails(files, SeasonFileYear, start, end);
          return None;
        case Skip =>
        case Key(y) =>
          if InRange(y, start, end) {
            YearsOfSnoc(valid, files[i]);
            valid := valid + [files[i]];
            years := years + [y];
          } else {
            assert valid + [] == valid;
          }
      }
    }
    assert files[..|files|] == files;
    return Some((valid, years));
  }

  /** A season's file is kept exactly when its third field is an integer in the range. */
  lemma KeptSeasonFiles(listing: seq<string>, s: Season, start: int, end: int, f: string)
    requires Kept(SeasonFiles(listing, s), SeasonFileYear, start, end).Some?
    ensures f in Kept(SeasonFiles(listing, s), SeasonFileYear, start, end).value <==>
      && f in listing && EndsWith(f, Suffix(s))
      && Field(f, '_', 2).Some? && ParseInt(Field(f, '_', 2).value).Some?
      && start <= ParseInt(Field(f, '_', 2).value).value <= end
  {
    KeptMembers(SeasonFiles(listing, s), SeasonFileYear, start, end);
  }

  /** `f"daymet_srad_{year}_{season}.tif"`: the band read for a year of a season. */
  function BandName(year: int, s: Season): string
  {
    "daymet_srad_" + IntToString(year) + "_" + Name(s) + ".tif"
  }

  function BandNames(years: seq<int>, s: Season): (r: seq<string>)
    ensures |r| == |years| && forall k :: 0 <= k < |years| ==> r[k] == BandName(years[k], s)
  {
    seq(|years|, k requires 0 <= k < |years| => BandName(years[k], s))
  }

  /** The tag of a season's three output names, `{season}_{start_year}-{end_year}`. */
  function Tag(s: Season, start: int, end: int): string
  {
    Name(s) + "_" + IntToString(start) + "-" + IntToString(end)
  }

  /** Why a season ends the script: a name without a third field, or the stack that cannot be built. */
  datatype TrendError = FieldMissing | Stack(error: StackError)

  /** What a season with these kept files and years writes: the bands of the sorted years, the first file as template. */
  function StackOutcome(valid: seq<string>, years: seq<int>, read: string -> Band, test: seq<real> -> Trend, s: Season, start: int, end: int)
    : (r: Result<seq<TrendOutput>, TrendError>)
    requires |valid| == |years|
    ensures r.Success? ==> valid != [] && |r.value| == 3 && forall i :: 0 <= i < 3 ==> r.value[i].template == valid[0]
  {
    IntLeTotal();
    var sorted := SortBy(years, IntLe);
    var bands := Bands(BandNames(sorted, s), read);
    if bands == [] then Failure(Stack(NothingToStack))
    else if !Stackable(bands) then Failure(Stack(ShapesDiffer))
    else
      assert |valid| == |bands| by {
        assert |multiset(sorted)| == |multiset(years)|;
      }
      Success(TrendOutputs(Trends(bands, test), Tag(s, start, end), valid[0]))
  }

  /** What one season writes, or the exception it ends the script with. */
  function SeasonOutcome(listing: seq<string>, read: string -> Band, test: seq<real> -> Trend, s: Season, start: int, end: int)
    : Result<seq<TrendOutput>, TrendError>
  {
    match Selection(listing, s, start, end)
    case None => Failure(FieldMissing)
    case Some(selected) => StackOutcome(selected.0, selected.1, read, test, s, start, end)
  }

  /** The bands are read in ascending year order, whatever the listing order of the files. */
  lemma OutcomeBands(valid: seq<string>, years: seq<int>, read: string -> Band, test: seq<real> -> Trend, s: Season, start: int, end: int)
    requires |valid| == |years| && StackOutcome(valid, years, read, test, s, start, end).Success?
    ensures exists sorted ::
      && SortedBy(sorted, IntLe) && multiset(sorted) == multiset(years)
      && var bands := Bands(BandNames(sorted, s), read);
        Stackable(bands) && StackOutcome(valid, years, read, test, s, start, end).value == TrendOutputs(Trends(bands, test), Tag(s, start, end), valid[0])
  {
    IntLeTotal();
    var sorted := SortBy(years, IntLe);
    assert SortedBy(sorted, IntLe) && multiset(sorted) == multiset(years);
  }

  /** A season raises on a name without a third field, and finds nothing to stack exactly when no file is kept. */
  lemma SeasonErrors(listing: seq<string>, read: string -> Band, test: seq<real> -> Trend, s: Season, start: int, end: int)
    ensures SeasonOutcome(listing, read, test, s, start, end) == Failure(FieldMissing) <==> Aborts(SeasonFiles(listing, s), SeasonFileYear)
    ensures SeasonOutcome(listing, read, test, s, start, end) == Failure(Stack(NothingToStack)) <==>
      Kept(SeasonFiles(listing, s), SeasonFileYear, start, end) == Some([])
  {
    KeptFails(SeasonFiles(listing, s), SeasonFileYear, start, end);
  }

  /** The script over the seasons `seasons`: what is written, in order, and the exception that ended it, if any. */
  function Run(listing: seq<string>, read: string -> Band, test: seq<real> -> Trend, seasons: seq<Season>, start: int, end: int)
    : (seq<TrendOutput>, Option<TrendError>)
  {
    if seasons == [] then ([], None)
    else
      var (written, error) := Run(listing, read, test, seasons[..|seasons| - 1], start, end);
      if error.Some? then (written, error)
      else
        match SeasonOutcome(listing, read, test, seasons[|seasons| - 1], start, end)
        case Success(out) => (written + out, None)
        case Failure(e) => (written, Some(e))
  }

  /** The exception that ends the script is the one some season raised. */
  lemma {:induction false} RunErrorFrom(listing: seq<string>, read: string -> Band, test: seq<real> -> Trend, seasons: seq<Season>, start: int, end: int)
    ensures var error := Run(listing, read, test, seasons, start, end).1;
      error.Some? ==> exists k :: 0 <= k < |seasons| && SeasonOutcome(listing, read, test, seasons[k], start, end) == Failure(error.value)
  {
    if seasons != [] {
      var init := seasons[..|seasons| - 1];
      RunErrorFrom(listing, read, test, init, start, end);
      var error := Run(listing, read, test, init, start, end).1;
      if error.Some? {
        var k :| 0 <= k < |init| && SeasonOutcome(listing, read, test, init[k], start, end) == Failure(error.value);
        assert seasons[k] == init[k];
      }
    }
  }

  /** Once a season fails, the later seasons change nothing. */
  lemma {:induction false} RunStops(listing: seq<string>, read: string -> Band, test: seq<real> -> Trend, seasons: seq<Season>, j: nat, start: int, end: int)
    requires j <= |seasons| && Run(listing, read, test, seasons[..j], start, end).1.Some?
    ensures Run(listing, read, test, seasons, start, end) == Run(listing, read, test, seasons[..j], start, end)
  {
    if j < |seasons| {
      var init := seasons[..|seasons| - 1];
      assert init[..j] == seasons[..j];
      RunStops(listing, read, test, init, j, start, end);
    } else {
      assert seasons[..j] == seasons;
    }
  }

  /** When every season writes, each writes its three rasters. */
  lemma {:induction false} RunAllWritten(listing: seq<string>, read: string -> Band, test: seq<real> -> Trend, seasons: seq<Season>, start: int, end: int)
    requires forall k :: 0 <= k < |seasons| ==> SeasonOutcome(listing, read, test, seasons[k], start, end).Success?
    ensures Run(listing, read, test, seasons, start, end).1.None?
    ensures |Run(listing, read, test, seasons, start, end).0| == 3 * |seasons|
  {
    if seasons != [] {
      var init := seasons[..|seasons| - 1];
      RunAllWritten(listing, read, test, init, start, end);
    }
  }

  /** Sorting the years, reading the bands, stacking and the pixel loop. */
  method StackSeason(valid: seq<string>, years: seq<int>, read: string -> Band, test: seq<real> -> Trend, s: Season, start: int, end: int)
    returns (r: Result<seq<TrendOutput>, TrendError>)
    requires |valid| == |years|
    ensures r == StackOutcome(valid, years, read, test, s, start, end)
  {
    IntLeTotal();
    var sorted := SortBy(years, IntLe);
    var bands := ReadStack(BandNames(sorted, s), read);
    var stacked := StackAndTest(bands, test);
    if stacked.Failure? {
      if stacked.error == NothingToStack {
        assert bands == [];
      } else {
        assert bands != [] && !Stackable(bands);
      }
      return Failure(Stack(stacked.error));
    }
    assert |valid| == |bands| by {
      assert |multiset(sorted)| == |multiset(years)|;
    }
    return Success(TrendOutputs(stacked.value, Tag(s, start, end), valid[0]));
  }

  /** One season of the script. */
  method SeasonTrend(listing: seq<string>, read: string -> Band, test: seq<real> -> Trend, s: Season, start: int, end: int)
    returns (r: Result<seq<TrendOutput>, TrendError>)
    ensures r == SeasonOutcome(listing, read, test, s, start, end)
  {
    var selection := SelectSeason(listing, s, start, end);
    if selection.None? {
      return Failure(FieldMissing);
    }
    r := StackSeason(selection.value.0, selection.value.1, read, test, s, start, end);
  }

  /** The script: the seasons in order until one raises. */
  method SeasonalTrends(listing: seq<string>, read: string -> Band, test: seq<real> -> Trend, start: int, end: int)
    returns (written: seq<TrendOutput>, error: Option<TrendError>)
    ensures (written, error) == Run(listing, read, test, TrendSeasons, start, end)
  {
    written := [];
    error := None;
    for i := 0 to |TrendSeasons|
      invariant (written, None) == Run(listing, read, test, TrendSeasons[..i], start, end)
    {
      assert TrendSeasons[..i + 1][..i] == TrendSeasons[..i];
      var r := SeasonTrend(listing, read, test, TrendSeasons[i], start, end);
      if r.Failure? {
        error := Some(r.error);
        RunStops(listing, read, test, TrendSeasons, i + 1, start, end);
        return;
      }
      written := written + r.value;
    }
    assert TrendSeasons[..|TrendSeasons|] == TrendSeasons;
  }
}
