/**
 * The year-range filter the raster scripts run over a file listing: each file's
 * year is read out of its name, and the file is kept when
 * `start_year <= year <= end_year`. Reading the year either succeeds, raises
 * (the script stops), or, in one script, makes the file be passed over.
 */
module YearFilter {
  import opened Outcome
  import opened Grouping

  predicate InRange(y: int, start: int, end: int)
  {
    start <= y <= end
  }

  /** The kept files in listing order, or None once reading some year raises. */
  function Kept(files: seq<string>, yearOf: string -> Keyed<int>, start: int, end: int): (r: Option<seq<string>>)
    ensures r.Some? ==> |r.value| <= |files| && forall f :: f in r.value ==> f in files
  {
    if files == [] then Some([])
    else
      match Kept(files[..|files| - 1], yearOf, start, end)
      case None => None
      case Some(k) =>
        var last := files[|files| - 1];
        match yearOf(last)
        case Abort => None
        case Skip => Some(k)
        case Key(y) => Some(k + if InRange(y, start, end) then [last] else [])
  }

  /** The filter fails exactly when some file's year raises. */
  lemma {:induction false} KeptFails(files: seq<string>, yearOf: string -> Keyed<int>, start: int, end: int)
    ensures Kept(files, yearOf, start, end).None? <==> Aborts(files, yearOf)
  {
    if files != [] {
      var init := files[..|files| - 1];
      KeptFails(init, yearOf, start, end);
      if Aborts(init, yearOf) {
        var i :| 0 <= i < |init| && yearOf(init[i]).Abort?;
        assert yearOf(files[i]).Abort?;
      }
      if Aborts(files, yearOf) && !yearOf(files[|files| - 1]).Abort? {
        var i :| 0 <= i < |files| && yearOf(files[i]).Abort?;
        assert yearOf(init[i]).Abort?;
      }
    }
  }

  /** A file is kept exactly when its year reads and lies in the range. */
  lemma {:induction false} KeptMembers(files: seq<string>, yearOf: string -> Keyed<int>, start: int, end: int)
    requires Kept(files, yearOf, start, end).Some?
    ensures forall f :: f in Kept(files, yearOf, start, end).value <==>
      f in files && yearOf(f).Key? && InRange(yearOf(f).key, start, end)
  {
    if files != [] {
      var init := files[..|files| - 1];
      KeptMembers(init, yearOf, start, end);
      assert files == init + [files[|files| - 1]];
    }
  }

  /** The filter keeps listing order: it maps a concatenation to the concatenation of its results. */
  lemma {:induction false} KeptAppend(a: seq<string>, b: seq<string>, yearOf: string -> Keyed<int>, start: int, end: int)
    requires Kept(a + b, yearOf, start, end).Some?
    ensures Kept(a, yearOf, start, end).Some? && Kept(b, yearOf, start, end).Some?
    ensures Kept(a + b, yearOf, start, end).value == Kept(a, yearOf, start, end).value + Kept(b, yearOf, start, end).value
  {
    if b == [] {
      assert a + b == a;
    } else {
      var binit := b[..|b| - 1];
      assert (a + b)[..|a + b| - 1] == a + binit;
      KeptAppend(a, binit, yearOf, start, end);
    }
  }

  lemma KeptSnoc(files: seq<string>, i: nat, yearOf: string -> Keyed<int>, start: int, end: int)
    requires i < |files|
    ensures Kept(files[..i + 1], yearOf, start, end) ==
      match Kept(files[..i], yearOf, start, end)
      case None => None
      case Some(k) =>
        match yearOf(files[i])
        case Abort => None
        case Skip => Some(k)
        case Key(y) => Some(k + if InRange(y, start, end) then [files[i]] else [])
  {
    assert files[..i + 1][..i] == files[..i];
  }

  /** The filtering loop: append each file whose year lies in the range; a year that raises stops the script. */
  method FilterByYear(files: seq<string>, yearOf: string -> Keyed<int>, start: int, end: int) returns (r: Option<seq<string>>)
    ensures r == Kept(files, yearOf, start, end)
  {
    var kept: seq<string> := [];
    for i := 0 to |files|
      invariant Kept(files[..i], yearOf, start, end) == Some(kept)
    {
      KeptSnoc(files, i, yearOf, start, end);
      match yearOf(files[i]) {
        case Abort =>
          KeptFails(files, yearOf, start, end);
          return None;
        case Skip =>
        case Key(y) =>
          if InRange(y, start, end) {
            kept := kept + [files[i]];
          } else {
            assert kept + [] == kept;
          }
      }
    }
    assert files[..|files|] == files;
    return Some(kept);
  }
}
