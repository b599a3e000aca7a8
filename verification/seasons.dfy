/**
 * The meteorological seasons of the CERES scripts, the month strings each one
 * lists, and the date fields read out of a CERES file name
 * (`ceres_solar_insolation_YYYY-MM-DD.TIFF`).
 */
module Seasons {
  import opened Outcome
  import opened Text
  import opened Grouping

  datatype Season = Spring | Summer | Autumn | Winter

  /** The order of the `seasons` dictionary. */
  const SeasonOrder: seq<Season> := [Spring, Summer, Autumn, Winter]

  function Name(s: Season): string
  {
    match s
    case Spring => "spring"
    case Summer => "summer"
    case Autumn => "autumn"
    case Winter => "winter"
  }

  function Months(s: Season): seq<string>
  {
    match s
    case Spring => ["03", "04", "05"]
    case Summer => ["06", "07", "08"]
    case Autumn => ["09", "10", "11"]
    case Winter => ["12", "01", "02"]
  }

  /** The loop over the dictionary with `break`: the first season listing `month`. */
  function SeasonOfMonth(month: string): (r: Option<Season>)
    ensures r.Some? ==> month in Months(r.value)
    ensures r.None? <==> forall s :: month !in Months(s)
  {
    if month in Months(Spring) then Some(Spring)
    else if month in Months(Summer) then Some(Summer)
    else if month in Months(Autumn) then Some(Autumn)
    else if month in Months(Winter) then Some(Winter)
    else None
  }

  /** The lists are disjoint, so a month belongs to the season it is filed under and to no other. */
  lemma SeasonOfMonthSpec(month: string, s: Season)
    ensures SeasonOfMonth(month) == Some(s) <==> month in Months(s)
  {
  }

  /** December, January and February are winter months. */
  lemma WinterMonths(month: string)
    requires month == "12" || month == "01" || month == "02"
    ensures SeasonOfMonth(month) == Some(Winter)
  {
  }

  /** Exactly the twelve two-digit month strings are grouped; anything else (`"3"`, `"13"`) is not. */
  lemma SeasonOfMonthTotal(month: string)
    ensures SeasonOfMonth(month).Some? <==>
      month in ["01", "02", "03", "04", "05", "06", "07", "08", "09", "10", "11", "12"]
  {
  }

  /** `Name` is one-to-one. */
  lemma NamesDistinct(s: Season, t: Season)
    ensures Name(s) == Name(t) <==> s == t
  {
    if s != t {
      assert Name(s)[0..2] != Name(t)[0..2] || Name(s)[2] != Name(t)[2];
    }
  }

  /** `basename.split('_')[3]`, then its `-` fields 0 and 1: the year and month strings. */
  function DateFields(basename: string): (r: Option<(string, string)>)
    ensures r.Some? ==> '_' !in r.value.0 && '-' !in r.value.0
  {
    match Field(basename, '_', 3)
    case None => None
    case Some(date) =>
      var parts := Split(date, '-');
      if |parts| < 2 then None
      else
        SplitFieldsAvoid(basename, '_', 3);
        SplitFieldsAvoid(date, '-', 0);
        assert '_' !in date;
        assert forall c :: c in parts[0] ==> c in date by {
          JoinSplit(date, '-');
          JoinFirst(parts, '-');
        }
        Some((parts[0], parts[1]))
  }

  /** `int(basename.split('_')[3].split('-')[0])`: a missing field or a non-integer raises. */
  function CeresYear(basename: string): (r: Keyed<int>)
    ensures !r.Skip?
    ensures Field(basename, '_', 3).None? ==> r.Abort?
  {
    match Field(basename, '_', 3)
    case None => Abort
    case Some(date) =>
      match ParseInt(Split(date, '-')[0])
      case None => Abort
      case Some(y) => Key(y)
  }

  /** The year the filter reads is the year field `DateFields` returns, parsed. */
  lemma CeresYearOfDate(basename: string)
    requires DateFields(basename).Some?
    ensures CeresYear(basename) == match ParseInt(DateFields(basename).value.0) case None => Abort case Some(y) => Key(y)
  {
  }

  lemma SplitFieldsAvoid(s: string, sep: char, i: nat)
    requires i < |Split(s, sep)|
    ensures sep !in Split(s, sep)[i]
  {
  }

  lemma JoinFirst(parts: seq<string>, sep: char)
    requires |parts| >= 1
    ensures forall c :: c in parts[0] ==> c in Join(parts, sep)
  {
    if |parts| > 1 {
      assert Join(parts, sep) == parts[0] + ([sep] + Join(parts[1..], sep));
    }
  }
}
