/**
 * Daily means of the hourly ERA5 total cloud cover: every yearly NetCDF file is
 * cut into 365 windows of 24 hours (the last ones clamped to the hours the file
 * has), each window's hours are averaged pixel by pixel, and day `d` is written
 * as `era5_cloud_cover_<year>-<d/30 + 1>-<d%30 + 1>.tif`, a 30-day calendar of
 * its own. The files are taken in sorted order and the year is the integer in
 * the first four characters of the name.
 */
module Era5Daily {
  import opened Outcome
  import opened Text
  import opened Sequences

  /** `range(n_days_in_year)`: every file gives 365 days, leap year or not. */
  const DaysInYear: nat := 365
  const HoursInDay: nat := 24

  /** One file's `tcc` variable: hour after hour, a grid of `width` pixels. */
  datatype Hourly = Hourly(hours: seq<seq<real>>, width: nat)

  /** A numpy array has one shape: every hour holds `width` pixels. */
  type Cube = c: Hourly | forall h :: 0 <= h < |c.hours| ==> |c.hours[h]| == c.width witness Hourly([], 0)

  /** The hours `[start, end)` of a day, `end` clamped to the hours the file has. */
  function Window(day: nat, total: nat): (r: (nat, nat))
    ensures r.0 == HoursInDay * day
    ensures r.1 <= total && r.1 <= r.0 + HoursInDay
    ensures r.1 == r.0 + HoursInDay || r.1 == total
  {
    var start := day * HoursInDay;
    var end := start + HoursInDay;
    (start, if end > total then total else end)
  }

  /** Python's `tcc[start:end]` has `end - start` hours, none when `end <= start`. */
  function WindowLength(w: (nat, nat)): nat
  {
    if w.1 <= w.0 then 0 else w.1 - w.0
  }

  /** A window of a file that has every hour of the day holds the whole day, and ends where the next day begins. */
  lemma WindowsContiguous(day: nat, total: nat)
    requires HoursInDay * (day + 1) <= total
    ensures WindowLength(Window(day, total)) == HoursInDay
    ensures Window(day, total).1 == Window(day + 1, total).0
  {
  }

  /** No hour lies in the windows of two different days. */
  lemma WindowsDisjoint(d1: nat, d2: nat, total: nat, h: nat)
    requires d1 != d2
    requires Window(d1, total).0 <= h < Window(d1, total).1
    ensures !(Window(d2, total).0 <= h < Window(d2, total).1)
  {
    var w1 := Window(d1, total);
    var w2 := Window(d2, total);
    if d1 < d2 {
      assert w1.1 <= HoursInDay * (d1 + 1) <= HoursInDay * d2 == w2.0;
    } else {
      assert w2.1 <= HoursInDay * (d2 + 1) <= HoursInDay * d1 == w1.0;
    }
  }

  /** Every hour of the first 365 days that the file has is averaged into the day `h / 24`. */
  lemma HourCovered(h: nat, total: nat)
    requires h < total && h < DaysInYear * HoursInDay
    ensures h / HoursInDay < DaysInYear
    ensures Window(h / HoursInDay, total).0 <= h < Window(h / HoursInDay, total).1
  {
  }

  /** The hours after the 365th day, the last day of a leap year, are averaged into no day. */
  lemma LeapDayDropped(h: nat, day: nat, total: nat)
    requires DaysInYear * HoursInDay <= h && day < DaysInYear
    ensures !(Window(day, total).0 <= h < Window(day, total).1)
  {
    assert Window(day, total).1 <= HoursInDay * (day + 1) <= DaysInYear * HoursInDay;
  }

  /** The sum of pixel `p` over the hours `[start, end)`. */
  function HourSum(c: Cube, start: nat, end: nat, p: nat): real
    requires start <= end <= |c.hours| && p < c.width
    decreases end - start
  {
    if start == end then 0.0 else HourSum(c, start, end - 1, p) + c.hours[end - 1][p]
  }

  /** Hourly values within `[lo, hi]` sum to between `n * lo` and `n * hi`. */
  lemma {:induction false} HourSumBounds(c: Cube, start: nat, end: nat, p: nat, lo: real, hi: real)
    requires start <= end <= |c.hours| && p < c.width
    requires forall h :: start <= h < end ==> lo <= c.hours[h][p] <= hi
    ensures (end - start) as real * lo <= HourSum(c, start, end, p) <= (end - start) as real * hi
    decreases end - start
  {
    if start < end {
      HourSumBounds(c, start, end - 1, p, lo, hi);
      var n := (end - 1 - start) as real;
      assert (end - start) as real == n + 1.0;
      AddBound(n, HourSum(c, start, end - 1, p), c.hours[end - 1][p], lo, hi);
    }
  }

  lemma AddBound(n: real, s: real, v: real, lo: real, hi: real)
    requires n * lo <= s <= n * hi && lo <= v <= hi
    ensures (n + 1.0) * lo <= s + v <= (n + 1.0) * hi
  {
  }

  /** `np.mean(tcc[start:end], axis=0)` at pixel `p`; the mean of no hours is NaN (`None`). */
  function DayCell(c: Cube, day: nat, p: nat): (r: Option<real>)
    requires p < c.width
    ensures r.None? <==> WindowLength(Window(day, |c.hours|)) == 0
  {
    var w := Window(day, |c.hours|);
    if w.1 <= w.0 then None else Some(HourSum(c, w.0, w.1, p) / (w.1 - w.0) as real)
  }

  /** A day the file has hours for is their mean: the mean times the hour count is the hours' sum. */
  lemma DayCellMean(c: Cube, day: nat, p: nat)
    requires p < c.width && WindowLength(Window(day, |c.hours|)) > 0
    ensures var w := Window(day, |c.hours|);
      DayCell(c, day, p).value * (w.1 - w.0) as real == HourSum(c, w.0, w.1, p)
  {
  }

  /** Cloud-cover fractions in `[0, 1]` give daily means in `[0, 1]`. */
  lemma DayCellFraction(c: Cube, day: nat, p: nat)
    requires p < c.width && WindowLength(Window(day, |c.hours|)) > 0
    requires forall h :: 0 <= h < |c.hours| ==> 0.0 <= c.hours[h][p] <= 1.0
    ensures 0.0 <= DayCell(c, day, p).value <= 1.0
  {
    var w := Window(day, |c.hours|);
    HourSumBounds(c, w.0, w.1, p, 0.0, 1.0);
    Fraction(HourSum(c, w.0, w.1, p), (w.1 - w.0) as real);
  }

  lemma Fraction(s: real, n: real)
    requires n > 0.0 && 0.0 <= s <= n * 1.0
    ensures 0.0 <= s / n <= 1.0
  {
    assert s / n * n == s;
  }

  /** A file that ends before a day begins leaves that day NaN everywhere. */
  lemma ShortFileNaN(c: Cube, day: nat, p: nat)
    requires p < c.width && |c.hours| <= HoursInDay * day
    ensures DayCell(c, day, p).None?
  {
  }

  /** `np.mean(tcc[start:end], axis=0)`: the grid of the hours' means, NaN everywhere for no hours. */
  function WindowMeans(c: Cube, start: nat, end: nat): (r: seq<Option<real>>)
    requires end <= |c.hours|
    ensures |r| == c.width
    ensures forall p :: 0 <= p < c.width ==> (r[p].None? <==> end <= start)
  {
    seq(c.width, p requires 0 <= p < c.width => if end <= start then None else Some(HourSum(c, start, end, p) / (end - start) as real))
  }

  /** One day's grid. */
  function DayCells(c: Cube, day: nat): (r: seq<Option<real>>)
    ensures |r| == c.width && forall p :: 0 <= p < c.width ==> r[p] == DayCell(c, day, p)
  {
    var w := Window(day, |c.hours|);
    WindowMeans(c, w.0, w.1)
  }

  /** `f"{year}-{(day // 30 + 1):02d}-{(day % 30 + 1):02d}"`. */
  function DateLabel(year: int, day: nat): (r: string)
    ensures StartsWith(r, IntToString(year) + "-")
    ensures day < 2970 ==> |r| == |IntToString(year)| + 6
  {
    IntToString(year) + "-" + Format02(day / 30 + 1) + "-" + Format02(day % 30 + 1)
  }

  /** `f"{n:02d}"` below 100 is the two digits of n. */
  lemma Format02Digits(n: nat)
    requires n < 100
    ensures Format02(n) == [DigitChar(n / 10), DigitChar(n % 10)]
  {
    if n >= 10 {
      assert NatToString(n / 10) == [DigitChar(n / 10)];
    }
  }

  lemma Format02Injective(m: nat, n: nat)
    requires m < 100 && n < 100 && Format02(m) == Format02(n)
    ensures m == n
  {
    Format02Digits(m);
    Format02Digits(n);
    assert DigitValue(DigitChar(m / 10)) == m / 10;
    assert DigitValue(DigitChar(n / 10)) == n / 10;
    assert DigitValue(DigitChar(m % 10)) == m % 10;
    assert DigitValue(DigitChar(n % 10)) == n % 10;
  }

  /** The month and day fields of a label: the five characters after the year. */
  lemma DateLabelParts(year: int, day: nat)
    requires day < DaysInYear
    ensures var l := DateLabel(year, day);
      && |l| == |IntToString(year)| + 6
      && l[..|l| - 6] == IntToString(year)
      && l[|l| - 5..|l| - 3] == Format02(day / 30 + 1)
      && l[|l| - 2..] == Format02(day % 30 + 1)
  {
  }

  /** Equal labels have equal years: the year is all but the last six characters. */
  lemma LabelYear(y1: int, d1: nat, y2: int, d2: nat)
    requires d1 < DaysInYear && d2 < DaysInYear && DateLabel(y1, d1) == DateLabel(y2, d2)
    ensures y1 == y2
  {
    var l := DateLabel(y1, d1);
    DateLabelParts(y1, d1);
    DateLabelParts(y2, d2);
    assert IntToString(y1) == l[..|l| - 6] == IntToString(y2);
    IntToStringRoundTrip(y1);
    IntToStringRoundTrip(y2);
  }

  /** Within a year, equal labels have equal month and day fields, hence equal days. */
  lemma LabelDay(y: int, d1: nat, d2: nat)
    requires d1 < DaysInYear && d2 < DaysInYear && DateLabel(y, d1) == DateLabel(y, d2)
    ensures d1 == d2
  {
    var l := DateLabel(y, d1);
    DateLabelParts(y, d1);
    DateLabelParts(y, d2);
    assert Format02(d1 / 30 + 1) == l[|l| - 5..|l| - 3] == Format02(d2 / 30 + 1);
    assert Format02(d1 % 30 + 1) == l[|l| - 2..] == Format02(d2 % 30 + 1);
    Format02Injective(d1 / 30 + 1, d2 / 30 + 1);
    Format02Injective(d1 % 30 + 1, d2 % 30 + 1);
  }

  /** No two days of the year, and no two years, share a label: no output file is written twice. */
  lemma DateLabelsDistinct(y1: int, d1: nat, y2: int, d2: nat)
    requires d1 < DaysInYear && d2 < DaysInYear
    ensures DateLabel(y1, d1) == DateLabel(y2, d2) <==> y1 == y2 && d1 == d2
  {
    if DateLabel(y1, d1) == DateLabel(y2, d2) {
      LabelYear(y1, d1, y2, d2);
      LabelDay(y1, d1, d2);
    }
  }

  /** The month field reads 13 exactly for the last five days, 360 to 364. */
  lemma MonthThirteen(year: int, day: nat)
    requires day < DaysInYear
    ensures var l := DateLabel(year, day);
      l[|l| - 5..|l| - 3] == "13" <==> 360 <= day
  {
    DateLabelParts(year, day);
    Format02Digits(day / 30 + 1);
    Format02Digits(13);
    if Format02(day / 30 + 1) == "13" {
      Format02Injective(day / 30 + 1, 13);
    }
  }

  /** `f"era5_cloud_cover_{date_str}.tif"`. */
  function OutputName(year: int, day: nat): string
  {
    "era5_cloud_cover_" + DateLabel(year, day) + ".tif"
  }

  /** A written daily raster. */
  datatype DailyRaster = DailyRaster(name: string, cells: seq<Option<real>>)

  /** What `process_nc_file` writes for one file: its 365 days, in order. */
  function FileOutputs(c: Cube, year: int): (r: seq<DailyRaster>)
    ensures |r| == DaysInYear
  {
    seq(DaysInYear, day requires 0 <= day < DaysInYear => DailyRaster(OutputName(year, day), DayCells(c, day)))
  }

  lemma FileOutputsAt(c: Cube, year: int, day: nat)
    requires day < DaysInYear
    ensures FileOutputs(c, year)[day] == DailyRaster(OutputName(year, day), DayCells(c, day))
  {
  }

  lemma SnocPrefix<T>(all: seq<T>, done: seq<T>, k: nat, x: T)
    requires k < |all| && done == all[..k] && x == all[k]
    ensures done + [x] == all[..k + 1]
  {
    assert all[..k + 1] == all[..k] + [all[k]];
  }

  /** The mean loop: `daily_means[day]` for each of the 365 days. */
  method DailyMeans(c: Cube) returns (daily: seq<seq<Option<real>>>)
    ensures |daily| == DaysInYear && forall d :: 0 <= d < DaysInYear ==> daily[d] == DayCells(c, d)
  {
    var means := new seq<Option<real>>[DaysInYear];
    for day := 0 to DaysInYear
      invariant forall d :: 0 <= d < day ==> means[d] == DayCells(c, d)
    {
      var start := day * HoursInDay;
      var end := start + HoursInDay;
      if end > |c.hours| {
        end := |c.hours|;
      }
      assert (start, end) == Window(day, |c.hours|);
      means[day] := WindowMeans(c, start, end);
    }
    daily := means[..];
  }

  /** The mean loop over the days, then the saving loop. */
  method ProcessFile(c: Cube, year: int) returns (out: seq<DailyRaster>)
    ensures out == FileOutputs(c, year)
  {
    var daily := DailyMeans(c);
    ghost var all := FileOutputs(c, year);
    out := [];
    for day := 0 to DaysInYear
      invariant out == all[..day]
    {
      var raster := DailyRaster(OutputName(year, day), daily[day]);
      FileOutputsAt(c, year, day);
      SnocPrefix(all, out, day, raster);
      out := out + [raster];
    }
    assert all[..DaysInYear] == all;
  }

  predicate IsNc(name: string)
  {
    EndsWith(name, ".nc")
  }

  /** `sorted(f for f in listdir if f.endswith('.nc'))`. */
  function NcFiles(listing: seq<string>): (r: seq<string>)
    ensures SortedBy(r, LexLe)
    ensures forall f :: f in r <==> f in listing && IsNc(f)
    ensures |r| == |Filter(listing, IsNc)|
  {
    LexLeTotal();
    var r := SortBy(Filter(listing, IsNc), LexLe);
    assert forall f :: f in r <==> f in multiset(Filter(listing, IsNc));
    assert |multiset(r)| == |multiset(Filter(listing, IsNc))|;
    r
  }

  /** `int(nc_file[:4])`; None where Python raises ValueError. */
  function FileYear(name: string): (r: Option<int>)
    ensures r.Some? ==> -1000 < r.value < 10000
  {
    var prefix := name[..if |name| < 4 then |name| else 4];
    var year := ParseInt(prefix);
    if year.Some? then
      ParseIntBound(prefix);
      Pow10Monotone(|prefix|, 4);
      Pow10Monotone(|prefix| - 1, 3);
      assert Pow10(3) == 1000 && Pow10(4) == 10000;
      year
    else year
  }

  /** `2019.nc` is the year 2019. */
  lemma FileYearOfName(year: nat, rest: string)
    requires 1000 <= year < 10000
    ensures FileYear(IntToString(year) + rest) == Some(year)
  {
    var y := IntToString(year);
    assert |NatToString(year / 10)| == 3 by {
      assert |NatToString(year / 100)| == 2;
    }
    assert (y + rest)[..4] == y;
    IntToStringRoundTrip(year);
  }

  /** The script over the files `files`: what is written, in order, and whether a year that does not read ended it. */
  function Run(files: seq<string>, read: string -> Cube): (r: (seq<DailyRaster>, bool))
    ensures r.1 ==> exists k :: 0 <= k < |files| && FileYear(files[k]).None?
  {
    if files == [] then ([], false)
    else
      var (written, failed) := Run(files[..|files| - 1], read);
      if failed then (written, true)
      else
        var f := files[|files| - 1];
        match FileYear(f)
        case None => (written, true)
        case Some(year) => (written + FileOutputs(read(f), year), false)
  }

  /** Once a year fails to read, the later files change nothing. */
  lemma {:induction false} RunStops(files: seq<string>, read: string -> Cube, j: nat)
    requires j <= |files| && Run(files[..j], read).1
    ensures Run(files, read) == Run(files[..j], read)
  {
    if j < |files| {
      var init := files[..|files| - 1];
      assert init[..j] == files[..j];
      RunStops(init, read, j);
    } else {
      assert files[..j] == files;
    }
  }

  /** When every year reads, each file writes its 365 days. */
  lemma {:induction false} RunAllWritten(files: seq<string>, read: string -> Cube)
    requires forall k :: 0 <= k < |files| ==> FileYear(files[k]).Some?
    ensures !Run(files, read).1
    ensures |Run(files, read).0| == DaysInYear * |files|
  {
    if files != [] {
      RunAllWritten(files[..|files| - 1], read);
    }
  }

  lemma RunSnoc(files: seq<string>, i: nat, read: string -> Cube)
    requires i < |files| && !Run(files[..i], read).1
    ensures Run(files[..i + 1], read) == match FileYear(files[i])
      case None => (Run(files[..i], read).0, true)
      case Some(year) => (Run(files[..i], read).0 + FileOutputs(read(files[i]), year), false)
  {
    assert files[..i + 1][..i] == files[..i];
  }

  /** The loop over the sorted `.nc` files: each year's file is converted until a year does not read. */
  method ConvertFiles(files: seq<string>, read: string -> Cube) returns (written: seq<DailyRaster>, failed: bool)
    ensures (written, failed) == Run(files, read)
  {
    written := [];
    failed := false;
    for i := 0 to |files|
      invariant (written, false) == Run(files[..i], read)
    {
      RunSnoc(files, i, read);
      var f := files[i];
      var year := FileYear(f);
      if year.None? {
        failed := true;
        RunStops(files, read, i + 1);
        return;
      }
      var out := ProcessFile(read(f), year.value);
      written := written + out;
    }
    assert files[..|files|] == files;
  }

  /** The script: the `.nc` files in sorted order, until a year does not read. */
  method ConvertAll(listing: seq<string>, read: string -> Cube) returns (written: seq<DailyRaster>, failed: bool)
    ensures (written, failed) == Run(NcFiles(listing), read)
  {
    var files := NcFiles(listing);
    written, failed := ConvertFiles(files, read);
  }
}
