/**
 * The period mean per season of the seasonal CERES rasters: the listing is filtered
 * to the years `[start, end]`, the kept files are filed under the season of their
 * month (no year shift, all four seasons present from the start), and every season
 * with files becomes one masked-mean raster named after the season and the period.
 */
module CeresPeriodSeason {
  import opened Outcome
  import opened Text
  import opened Sequences
  import opened Grouping
  import opened Seasons
  import opened MaskedMean
  import opened YearFilter

  /** The season a file is filed under: a date field without a month raises, an unknown month is passed over. */
  function MonthSeason(basename: string): (r: Keyed<Season>)
    ensures r.Abort? <==> DateFields(basename).None?
    ensures r.Key? ==> DateFields(basename).value.1 in Months(r.key)
  {
    match DateFields(basename)
    case None => Abort
    case Some(fields) =>
      match SeasonOfMonth(fields.1)
      case None => Skip
      case Some(s) => Key(s)
  }

  /** A file is filed under `s` exactly when its month is one that `s` lists. */
  lemma MonthSeasonSpec(basename: string, s: Season)
    ensures MonthSeason(basename) == Key(s) <==>
      DateFields(basename).Some? && DateFields(basename).value.1 in Months(s)
  {
    if DateFields(basename).Some? {
      SeasonOfMonthSpec(DateFields(basename).value.1, s);
    }
  }

  /** Only the month counts: two files with the same month go to the same season, whatever their years. */
  lemma NoYearShift(b1: string, b2: string)
    requires DateFields(b1).Some? && DateFields(b2).Some?
    requires DateFields(b1).value.1 == DateFields(b2).value.1
    ensures MonthSeason(b1) == MonthSeason(b2)
  {
  }

  /** No file is filed under two seasons. */
  lemma OneSeasonPerFile(files: seq<string>, f: string, s: Season, t: Season)
    requires f in Members(files, MonthSeason, s) && f in Members(files, MonthSeason, t)
    ensures s == t
  {
    MembersBelong(files, MonthSeason, s);
    MembersBelong(files, MonthSeason, t);
  }

  /** `f"ceres_solar_insolation_{season}_{start_year}-{end_year}.tif"`. */
  function FileName(s: Season, start: int, end: int): string
  {
    Prefix + Name(s) + PeriodSuffix(start, end)
  }

  const Prefix := "ceres_solar_insolation_"

  function PeriodSuffix(start: int, end: int): string
  {
    "_" + IntToString(start) + "-" + IntToString(end) + ".tif"
  }

  lemma NameLength(s: Season)
    ensures |Name(s)| == 6
  {
  }

  lemma SameInfix(p: string, a: string, b: string, q1: string, q2: string)
    requires |a| == |b| && p + a + q1 == p + b + q2
    ensures a == b
  {
    assert a == (p + a + q1)[|p|..|p| + |a|];
    assert b == (p + b + q2)[|p|..|p| + |b|];
  }

  /** Different seasons of one period are written to different files. */
  lemma FileNamesDistinct(s: Season, t: Season, start: int, end: int)
    ensures FileName(s, start, end) == FileName(t, start, end) <==> s == t
  {
    if FileName(s, start, end) == FileName(t, start, end) {
      NameLength(s);
      NameLength(t);
      SameInfix(Prefix, Name(s), Name(t), PeriodSuffix(start, end), PeriodSuffix(start, end));
      NamesDistinct(s, t);
    }
  }

  /** The file written for a season with files: its name and the masked mean of its files' rasters. */
  ghost function SeasonWritten(files: seq<string>, read: string -> Raster, s: Season, start: int, end: int): Written
    requires SameWidth(files, read) && Members(files, MonthSeason, s) != []
  {
    MembersBelong(files, MonthSeason, s);
    ReadingsAligned(files, Members(files, MonthSeason, s), read);
    Written(FileName(s, start, end), MeanRaster(Readings(Members(files, MonthSeason, s), read)))
  }

  /** What is written for the seasons `seasons`, in their order; a season without files writes nothing. */
  ghost function SeasonOutputs(seasons: seq<Season>, files: seq<string>, read: string -> Raster, start: int, end: int): seq<Written>
    requires SameWidth(files, read)
  {
    if seasons == [] then []
    else
      var s := seasons[|seasons| - 1];
      SeasonOutputs(seasons[..|seasons| - 1], files, read, start, end) +
        if Members(files, MonthSeason, s) == [] then [] else [SeasonWritten(files, read, s, start, end)]
  }

  /** Every listed season with files is written. */
  lemma {:induction false} SeasonWrittenIn(seasons: seq<Season>, files: seq<string>, read: string -> Raster, start: int, end: int, s: Season)
    requires SameWidth(files, read)
    requires s in seasons && Members(files, MonthSeason, s) != []
    ensures SeasonWritten(files, read, s, start, end) in SeasonOutputs(seasons, files, read, start, end)
  {
    var init := seasons[..|seasons| - 1];
    if s != seasons[|seasons| - 1] {
      assert seasons == init + [seasons[|seasons| - 1]];
      assert s in init;
      SeasonWrittenIn(init, files, read, start, end, s);
    }
  }

  /** And nothing else is: every file written is that of a listed season with files. */
  lemma {:induction false} SeasonOutputsFrom(seasons: seq<Season>, files: seq<string>, read: string -> Raster, start: int, end: int, w: Written)
    requires SameWidth(files, read)
    requires w in SeasonOutputs(seasons, files, read, start, end)
    ensures exists s :: s in seasons && Members(files, MonthSeason, s) != [] && w == SeasonWritten(files, read, s, start, end)
  {
    var init := seasons[..|seasons| - 1];
    var last := seasons[|seasons| - 1];
    if w in SeasonOutputs(init, files, read, start, end) {
      SeasonOutputsFrom(init, files, read, start, end, w);
      var s :| s in init && Members(files, MonthSeason, s) != [] && w == SeasonWritten(files, read, s, start, end);
      assert s in seasons;
    } else {
      assert last in seasons && Members(files, MonthSeason, last) != [] && w == SeasonWritten(files, read, last, start, end);
    }
  }

  /** At most one file per listed season. */
  lemma {:induction false} SeasonOutputsLength(seasons: seq<Season>, files: seq<string>, read: string -> Raster, start: int, end: int)
    requires SameWidth(files, read)
    ensures |SeasonOutputs(seasons, files, read, start, end)| <= |seasons|
  {
    if seasons != [] {
      SeasonOutputsLength(seasons[..|seasons| - 1], files, read, start, end);
    }
  }

  lemma SeasonOutputsSnoc(seasons: seq<Season>, j: nat, files: seq<string>, read: string -> Raster, start: int, end: int)
    requires SameWidth(files, read) && j < |seasons|
    ensures SeasonOutputs(seasons[..j + 1], files, read, start, end) ==
      SeasonOutputs(seasons[..j], files, read, start, end) +
        if Members(files, MonthSeason, seasons[j]) == [] then [] else [SeasonWritten(files, read, seasons[j], start, end)]
  {
    assert seasons[..j + 1][..j] == seasons[..j];
  }

  /** One season: read its files, take the masked mean, name the output after the season and the period. */
  method WriteSeason(files: seq<string>, read: string -> Raster, s: Season, members: seq<string>, start: int, end: int) returns (w: Written)
    requires SameWidth(files, read)
    requires members == Members(files, MonthSeason, s) && members != []
    ensures w == SeasonWritten(files, read, s, start, end)
  {
    MembersBelong(files, MonthSeason, s);
    ReadingsAligned(files, members, read);
    var mean := Mean(Readings(members, read));
    w := Written(FileName(s, start, end), mean);
  }

  /** The season lists: every season present from the start, each file appended to its month's season. */
  method GroupBySeason(files: seq<string>) returns (r: Option<map<Season, seq<string>>>)
    ensures r.None? <==> Aborts(files, MonthSeason)
    ensures r.Some? ==> forall s :: s in r.value && r.value[s] == Members(files, MonthSeason, s)
  {
    var bySeason := map[Spring := [], Summer := [], Autumn := [], Winter := []];
    forall s ensures s in bySeason && bySeason[s] == Members(files[..0], MonthSeason, s) {
      assert files[..0] == [];
      match s {
        case Spring =>
        case Summer =>
        case Autumn =>
        case Winter =>
      }
    }
    for i := 0 to |files|
      invariant !Aborts(files[..i], MonthSeason)
      invariant forall s :: s in bySeason && bySeason[s] == Members(files[..i], MonthSeason, s)
    {
      PrefixStep(files, i);
      forall s ensures Members(files[..i + 1], MonthSeason, s) ==
        Members(files[..i], MonthSeason, s) + if MonthSeason(files[i]) == Key(s) then [files[i]] else [] {
        MembersSnoc(files[..i], files[i], MonthSeason, s);
      }
      match MonthSeason(files[i]) {
        case Abort =>
          assert MonthSeason(files[i]).Abort?;
          return None;
        case Skip =>
          NoAbortStep(files, i, MonthSeason);
        case Key(s) =>
          NoAbortStep(files, i, MonthSeason);
          bySeason := bySeason[s := bySeason[s] + [files[i]]];
      }
    }
    assert files[..|files|] == files;
    return Some(bySeason);
  }

  /**
   * The script over the listed files: None where a year or a month field raises;
   * otherwise one mean raster per season with files, in the dictionary's season order.
   */
  method PeriodSeasonMeans(files: seq<string>, read: string -> Raster, start: int, end: int) returns (r: Option<seq<Written>>)
    requires SameWidth(files, read)
    ensures r.None? <==> Kept(files, CeresYear, start, end).None? || Aborts(Kept(files, CeresYear, start, end).value, MonthSeason)
    ensures r.Some? ==> (SameWidth(Kept(files, CeresYear, start, end).value, read) &&
      r.value == SeasonOutputs(SeasonOrder, Kept(files, CeresYear, start, end).value, read, start, end))
  {
    var filtered := FilterByYear(files, CeresYear, start, end);
    if filtered.None? {
      return None;
    }
    var kept := filtered.value;
    KeptMembers(files, CeresYear, start, end);
    SameWidthWithin(files, kept, read);
    var groups := GroupBySeason(kept);
    if groups.None? {
      return None;
    }
    var bySeason := groups.value;
    var out: seq<Written> := [];
    for j := 0 to |SeasonOrder|
      invariant out == SeasonOutputs(SeasonOrder[..j], kept, read, start, end)
    {
      SeasonOutputsSnoc(SeasonOrder, j, kept, read, start, end);
      var s := SeasonOrder[j];
      var members := bySeason[s];
      if members != [] {
        var w := WriteSeason(kept, read, s, members, start, end);
        out := out + [w];
      } else {
        assert out + [] == out;
      }
    }
    assert SeasonOrder[..|SeasonOrder|] == SeasonOrder;
    return Some(out);
  }
}
