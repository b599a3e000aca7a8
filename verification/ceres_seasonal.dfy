/**
 * Seasonal means of daily CERES rasters: each file is filed under `<year>_<season>`,
 * where January and February count towards the winter that began in the previous
 * December, and every group becomes one masked-mean raster.
 */
module CeresSeasonal {
  import opened Outcome
  import opened Text
  import opened Sequences
  import opened Grouping
  import opened Seasons
  import opened MaskedMean

  /** The key a file with these date fields is filed under, or `Skip` for an unknown month. */
  function SeasonKey(year: string, month: string): (r: Keyed<string>)
    ensures r.Skip? <==> SeasonOfMonth(month).None?
    ensures r.Abort? ==> ParseInt(year).None?
  {
    match SeasonOfMonth(month)
    case None => Skip
    case Some(s) =>
      if month == "12" then
        // `season_year = str(int(year) + 1)` is computed and never used, but it can raise
        if ParseInt(year).None? then Abort else Key(year + "_" + Name(s))
      else if month == "01" || month == "02" then
        match ParseInt(year)
        case None => Abort
        case Some(y) => Key(IntToString(y - 1) + "_" + Name(s))
      else Key(year + "_" + Name(s))
  }

  /** A file name missing the date field or its month raises before any grouping. */
  function FileKey(basename: string): (r: Keyed<string>)
    ensures DateFields(basename).None? ==> r.Abort?
    ensures r.Skip? <==> DateFields(basename).Some? && SeasonOfMonth(DateFields(basename).value.1).None?
  {
    match DateFields(basename)
    case None => Abort
    case Some(fields) => SeasonKey(fields.0, fields.1)
  }

  /** December of year Y is filed under `Y_winter`. */
  lemma DecemberKey(y: int)
    ensures SeasonKey(IntToString(y), "12") == Key(IntToString(y) + "_winter")
  {
    IntToStringRoundTrip(y);
    WinterMonths("12");
    WinterKey(IntToString(y));
  }

  lemma WinterKey(year: string)
    ensures year + "_" + Name(Winter) == year + "_winter"
  {
    assert year + "_" + Name(Winter) == year + "_winter";
  }

  lemma ShiftedKey(year: string, month: string, y: int)
    requires month == "01" || month == "02"
    requires ParseInt(year) == Some(y)
    ensures SeasonKey(year, month) == Key(IntToString(y - 1) + "_" + Name(Winter))
  {
    WinterMonths(month);
    assert month != "12" by { assert month[0] == '0'; }
  }

  /** January and February of year Y are filed under `(Y-1)_winter`. */
  lemma JanuaryFebruaryKey(y: int, month: string)
    requires month == "01" || month == "02"
    ensures SeasonKey(IntToString(y), month) == Key(IntToString(y - 1) + "_winter")
  {
    IntToStringRoundTrip(y);
    ShiftedKey(IntToString(y), month, y);
    WinterKey(IntToString(y - 1));
  }

  /** So a December and the following January and February share one winter group. */
  lemma OneWinter(y: int)
    ensures SeasonKey(IntToString(y), "12") == SeasonKey(IntToString(y + 1), "01") == SeasonKey(IntToString(y + 1), "02")
  {
    DecemberKey(y);
    JanuaryFebruaryKey(y + 1, "01");
    JanuaryFebruaryKey(y + 1, "02");
  }

  /** Spring, summer and autumn months keep the year exactly as written in the name. */
  lemma OtherSeasonsKeepYear(year: string, month: string, s: Season)
    requires s != Winter && month in Months(s)
    ensures SeasonKey(year, month) == Key(year + "_" + Name(s))
  {
    SeasonOfMonthSpec(month, s);
    assert month != "12" && month != "01" && month != "02";
  }

  /** A month string no season lists leaves the file out of every group. */
  lemma UnknownMonthSkipped(year: string, month: string)
    requires SeasonOfMonth(month).None?
    ensures SeasonKey(year, month) == Skip
  {
  }

  /** `f"ceres_solar_insolation_{year}_{season}.tif"` after `year, season = key.split('_')`. */
  function OutputFileName(key: string): Option<string>
  {
    var parts := Split(key, '_');
    if |parts| == 2 then Some("ceres_solar_insolation_" + parts[0] + "_" + parts[1] + ".tif") else None
  }

  /** Every key a file can be filed under is a year without `_`, then `_` and a season name. */
  lemma KeyShape(basename: string, key: string)
    requires FileKey(basename) == Key(key)
    ensures exists year, s :: '_' !in year && key == year + "_" + Name(s)
  {
    var fields := DateFields(basename).value;
    var s := SeasonOfMonth(fields.1).value;
    if fields.1 == "01" || fields.1 == "02" {
      var year := IntToString(ParseInt(fields.0).value - 1);
      IntToStringAvoids(ParseInt(fields.0).value - 1, '_');
      assert key == year + "_" + Name(s);
    } else {
      assert key == fields.0 + "_" + Name(s);
    }
  }

  /** Such a key unpacks into its two parts, which name the output file. */
  lemma KeyUnpacks(year: string, s: Season)
    requires '_' !in year
    ensures OutputFileName(year + "_" + Name(s)) == Some("ceres_solar_insolation_" + year + "_" + Name(s) + ".tif")
  {
    assert '_' !in Name(s);
    SplitAtSeparator(year, '_', Name(s));
    SplitSingle(Name(s), '_');
    assert year + "_" + Name(s) == year + ['_'] + Name(s);
  }

  /** A key that was met is the key of some file. */
  lemma MetKey(files: seq<string>, key: string)
    requires key in Uniques(GroupedKeys(files, FileKey))
    ensures Members(files, FileKey, key) != []
    ensures exists f :: f in files && FileKey(f) == Key(key)
  {
    UniquesSameElements(GroupedKeys(files, FileKey));
    MembersNonEmpty(files, FileKey, key);
    MembersBelong(files, FileKey, key);
    var f := Members(files, FileKey, key)[0];
    assert f in Members(files, FileKey, key);
  }

  /** Every key met in a listing splits into a year and a season, so the script never fails on the split. */
  lemma MetKeysNamed(files: seq<string>, key: string)
    requires key in Uniques(GroupedKeys(files, FileKey))
    ensures exists year, s :: '_' !in year && key == year + "_" + Name(s)
    ensures OutputFileName(key).Some?
  {
    MetKey(files, key);
    var f :| f in files && FileKey(f) == Key(key);
    KeyShape(f, key);
    var year, season :| '_' !in year && key == year + "_" + Name(season);
    KeyUnpacks(year, season);
  }

  /** The file written for the group `key`: its name and the masked mean of its members' rasters. */
  ghost function GroupOutput(files: seq<string>, read: string -> Raster, key: string): Written
    requires SameWidth(files, read)
    requires key in Uniques(GroupedKeys(files, FileKey))
  {
    MetKeysNamed(files, key);
    MetKey(files, key);
    MembersBelong(files, FileKey, key);
    ReadingsAligned(files, Members(files, FileKey, key), read);
    Written(OutputFileName(key).value, MeanRaster(Readings(Members(files, FileKey, key), read)))
  }

  /** What the script writes for the groups `keys`, one file per group in key order. */
  ghost predicate WritesGroups(out: seq<Written>, keys: seq<string>, files: seq<string>, read: string -> Raster)
    requires SameWidth(files, read)
    requires forall k :: k in keys ==> k in Uniques(GroupedKeys(files, FileKey))
  {
    |out| == |keys| && forall i :: 0 <= i < |keys| ==> out[i] == GroupOutput(files, read, keys[i])
  }

  lemma WritesGroupsSnoc(out: seq<Written>, keys: seq<string>, key: string, files: seq<string>, read: string -> Raster)
    requires SameWidth(files, read)
    requires forall k :: k in keys ==> k in Uniques(GroupedKeys(files, FileKey))
    requires key in Uniques(GroupedKeys(files, FileKey))
    requires WritesGroups(out, keys, files, read)
    ensures WritesGroups(out + [GroupOutput(files, read, key)], keys + [key], files, read)
  {
  }

  /** One group: read its members, take the masked mean, name the output after the key. */
  method WriteGroup(files: seq<string>, read: string -> Raster, key: string, members: seq<string>) returns (w: Written)
    requires SameWidth(files, read)
    requires key in Uniques(GroupedKeys(files, FileKey)) && members == Members(files, FileKey, key)
    ensures w == GroupOutput(files, read, key)
  {
    MetKeysNamed(files, key);
    MetKey(files, key);
    MembersBelong(files, FileKey, key);
    ReadingsAligned(files, members, read);
    var mean := Mean(Readings(members, read));
    w := Written(OutputFileName(key).value, mean);
  }

  lemma WritesGroupsStep(out: seq<Written>, keys: seq<string>, i: nat, files: seq<string>, read: string -> Raster, w: Written)
    requires SameWidth(files, read) && keys == Uniques(GroupedKeys(files, FileKey)) && i < |keys|
    requires forall k :: k in keys[..i] ==> k in keys
    requires WritesGroups(out, keys[..i], files, read) && w == GroupOutput(files, read, keys[i])
    ensures forall k :: k in keys[..i + 1] ==> k in keys
    ensures WritesGroups(out + [w], keys[..i + 1], files, read)
  {
    assert keys[..i + 1] == keys[..i] + [keys[i]];
    WritesGroupsSnoc(out, keys[..i], keys[i], files, read);
  }

  /** The loop over the groups, in the order their keys were first met. */
  method WriteGroups(files: seq<string>, read: string -> Raster, g: Groups<string, string>) returns (out: seq<Written>)
    requires SameWidth(files, read) && IsGrouping(g, files, FileKey)
    ensures WritesGroups(out, Uniques(GroupedKeys(files, FileKey)), files, read)
  {
    ghost var keys := Uniques(GroupedKeys(files, FileKey));
    out := [];
    for i := 0 to |g.order|
      invariant forall k :: k in keys[..i] ==> k in keys
      invariant WritesGroups(out, keys[..i], files, read)
    {
      var key := g.order[i];
      assert key == keys[i] && key in g.members;
      var w := WriteGroup(files, read, key, g.members[key]);
      WritesGroupsStep(out, keys, i, files, read, w);
      out := out + [w];
    }
    assert keys[..|keys|] == keys;
  }

  /**
   * The script over the listed files: None where a file name raises during
   * grouping; otherwise one mean raster per `year_season` group.
   */
  method SeasonalMeans(files: seq<string>, read: string -> Raster) returns (r: Option<seq<Written>>)
    requires SameWidth(files, read)
    ensures r.None? <==> Aborts(files, FileKey)
    ensures r.Some? ==> WritesGroups(r.value, Uniques(GroupedKeys(files, FileKey)), files, read)
  {
    var groups := GroupBy(files, FileKey);
    if groups.None? {
      return None;
    }
    var out := WriteGroups(files, read, groups.value);
    return Some(out);
  }
}
