/**
 * The period mean of the annual CERES rasters: the listing is filtered to the
 * years `[start, end]` and all kept files go into one masked-mean raster.
 */
module CeresPeriodAnnual {
  import opened Outcome
  import opened Text
  import opened Grouping
  import opened Seasons
  import opened MaskedMean
  import opened YearFilter

  /** Why the script stops: a year that does not read, or no file in the period (the sums stay `None`). */
  datatype PeriodError = YearUnreadable | NoFileInPeriod

  /** `f"ceres_solar_insolation_{start_year}-{end_year}.tif"`. */
  function FileName(start: int, end: int): string
  {
    "ceres_solar_insolation_" + IntToString(start) + "-" + IntToString(end) + ".tif"
  }

  /**
   * The script over the listed files: it stops on an unreadable year or an empty
   * period; otherwise it writes the masked mean over every kept file.
   */
  method PeriodMean(files: seq<string>, read: string -> Raster, start: int, end: int) returns (r: Result<Written, PeriodError>)
    requires SameWidth(files, read)
    ensures r == Failure(YearUnreadable) <==> Aborts(files, CeresYear)
    ensures r == Failure(NoFileInPeriod) <==> Kept(files, CeresYear, start, end) == Some([])
    ensures r.Success? ==> (
      Kept(files, CeresYear, start, end).Some? && Aligned(Readings(Kept(files, CeresYear, start, end).value, read)) &&
      r.value == Written(FileName(start, end), MeanRaster(Readings(Kept(files, CeresYear, start, end).value, read))))
  {
    KeptFails(files, CeresYear, start, end);
    var filtered := FilterByYear(files, CeresYear, start, end);
    if filtered.None? {
      return Failure(YearUnreadable);
    }
    var kept := filtered.value;
    if kept == [] {
      return Failure(NoFileInPeriod);
    }
    KeptMembers(files, CeresYear, start, end);
    ReadingsAligned(files, kept, read);
    var mean := Mean(Readings(kept, read));
    return Success(Written(FileName(start, end), mean));
  }

  /** Every kept file is one whose year reads and lies in the period, and every such file is kept. */
  lemma PeriodFiles(files: seq<string>, start: int, end: int, f: string)
    requires !Aborts(files, CeresYear)
    ensures Kept(files, CeresYear, start, end).Some?
    ensures f in Kept(files, CeresYear, start, end).value <==>
      f in files && CeresYear(f).Key? && start <= CeresYear(f).key <= end
  {
    KeptFails(files, CeresYear, start, end);
    KeptMembers(files, CeresYear, start, end);
  }
}
