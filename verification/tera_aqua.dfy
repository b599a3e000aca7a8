/**
 * Pairing the MODIS cloud-fraction rasters of the Aqua and Terra satellites by
 * date. Every Aqua file (`MYDAL2*.TIFF`) is copied to the time series under its
 * date; a Terra file (`MODAL2*.TIFF`) is copied only when no file of its date was
 * met before it; a date with exactly two files gets their pixelwise average.
 * Files are listed directory by directory, Aqua first; the date is the first ten
 * characters of the fifth `_` field of the name, and a name without that field
 * ends the script.
 */
module TeraAqua {
  import opened Outcome
  import opened Text
  import opened Sequences
  import opened Grouping

  datatype Satellite = Aqua | Terra

  /** A listed file: the directory it is listed in, and its name. */
  datatype Entry = Entry(satellite: Satellite, name: string)

  /** A `shutil.copy` into the time-series directory. */
  datatype Copy = Copy(from: Entry, to: string)

  /** An averaged raster written to the averaging directory, and the two files it averages. */
  datatype Average = Average(to: string, first: Entry, second: Entry, cells: seq<real>)

  /** The product prefix a satellite's files must carry. */
  function Product(s: Satellite): string
  {
    match s
    case Aqua => "MYDAL2"
    case Terra => "MODAL2"
  }

  /** The files a loop looks at: its satellite's product, with the `.TIFF` extension. */
  predicate Considered(e: Entry): (b: bool)
    ensures b ==> forall s :: s != e.satellite ==> !StartsWith(e.name, Product(s))
  {
    EndsWith(e.name, ".TIFF") && StartsWith(e.name, Product(e.satellite))
  }

  /** Python's `field[:10]`: the first ten characters, or all of a shorter field. */
  function Take10(field: string): (r: string)
    ensures |r| <= 10 && |r| <= |field| && r == field[..|r|]
    ensures |field| >= 10 ==> |r| == 10
  {
    if |field| < 10 then field else field[..10]
  }

  /** `filename.split("_")[4][:10]` for the files the loop looks at; a missing fifth field raises. */
  function DateKey(e: Entry): (r: Keyed<string>)
    ensures r.Skip? <==> !Considered(e)
    ensures r.Key? ==> |r.key| <= 10
  {
    if !Considered(e) then Skip
    else
      match Field(e.name, '_', 4)
      case None => Abort
      case Some(field) => Key(Take10(field))
  }

  /** A name `a_b_c_d_<field>_<tail>` whose fifth field starts with a ten-character date carries that date. */
  lemma DateOfName(sat: Satellite, a: string, b: string, c: string, d: string, field: string, tail: string)
    requires '_' !in a && '_' !in b && '_' !in c && '_' !in d && '_' !in field && |field| >= 10
    requires Considered(Entry(sat, a + "_" + b + "_" + c + "_" + d + "_" + field + "_" + tail))
    ensures DateKey(Entry(sat, a + "_" + b + "_" + c + "_" + d + "_" + field + "_" + tail)) == Key(field[..10])
  {
    FifthField(a, b, c, d, field, tail);
  }

  lemma FifthField(a: string, b: string, c: string, d: string, field: string, tail: string)
    requires '_' !in a && '_' !in b && '_' !in c && '_' !in d && '_' !in field
    ensures Field(a + "_" + b + "_" + c + "_" + d + "_" + field + "_" + tail, '_', 4) == Some(field)
  {
    var name := a + "_" + b + "_" + c + "_" + d + "_" + field + "_" + tail;
    var r3 := field + ['_'] + tail;
    var r2 := d + ['_'] + r3;
    var r1 := c + ['_'] + r2;
    var r0 := b + ['_'] + r1;
    assert name == a + ['_'] + r0;
    SplitAtSeparator(a, '_', r0);
    SplitAtSeparator(b, '_', r1);
    SplitAtSeparator(c, '_', r2);
    SplitAtSeparator(d, '_', r3);
    SplitAtSeparator(field, '_', tail);
    assert Split(name, '_')[4] == field;
  }

  /** `f"modis_cloud_fraction_{date}.TIFF"`: the name a date is written under. */
  function Target(date: string): string
  {
    "modis_cloud_fraction_" + date + ".TIFF"
  }

  /** Different dates are written to different files. */
  lemma TargetsDistinct(d1: string, d2: string)
    ensures Target(d1) == Target(d2) <==> d1 == d2
  {
    if Target(d1) == Target(d2) {
      assert d1 == Target(d1)[21..|Target(d1)| - 5];
      assert d2 == Target(d2)[21..|Target(d2)| - 5];
    }
  }

  /** One directory's listing, in order. */
  function DirEntries(names: seq<string>, sat: Satellite): (r: seq<Entry>)
    ensures |r| == |names| && forall i :: 0 <= i < |names| ==> r[i] == Entry(sat, names[i])
  {
    seq(|names|, i requires 0 <= i < |names| => Entry(sat, names[i]))
  }

  /** The files in the order the two loops meet them: the Aqua directory, then the Terra directory. */
  function Entries(aqua: seq<string>, terra: seq<string>): seq<Entry>
  {
    DirEntries(aqua, Aqua) + DirEntries(terra, Terra)
  }

  /**
   * The copies made for the files `s`, in order, where `dateOf` files each one
   * under its date: every Aqua file, and a Terra file that is the first of its date.
   * The script's dates are `DateKey`; the rule holds whatever the dates are.
   */
  function Copies(s: seq<Entry>, dateOf: Entry -> Keyed<string>): (r: seq<Copy>)
    ensures |r| <= |s|
  {
    if s == [] then []
    else
      var e := s[|s| - 1];
      Copies(s[..|s| - 1], dateOf) +
        match dateOf(e)
        case Key(d) => if e.satellite == Aqua || |Members(s, dateOf, d)| == 1 then [Copy(e, Target(d))] else []
        case _ => []
  }

  lemma CopiesSnoc(p: seq<Entry>, e: Entry, dateOf: Entry -> Keyed<string>)
    ensures Copies(p + [e], dateOf) == Copies(p, dateOf) +
      match dateOf(e)
      case Key(d) => if e.satellite == Aqua || |Members(p + [e], dateOf, d)| == 1 then [Copy(e, Target(d))] else []
      case _ => []
  {
    assert (p + [e])[..|p + [e]| - 1] == p;
  }

  /** Every Aqua file the script gets to with a date is copied under that date. */
  lemma {:induction false} AquaCopied(s: seq<Entry>, dateOf: Entry -> Keyed<string>, i: nat, d: string)
    requires i < |s| && s[i].satellite == Aqua && dateOf(s[i]) == Key(d)
    ensures Copy(s[i], Target(d)) in Copies(s, dateOf)
  {
    var init := s[..|s| - 1];
    if i < |init| {
      AquaCopied(init, dateOf, i, d);
      assert init[i] == s[i];
    }
  }

  /** A Terra file is copied when no file of its date, Aqua or Terra, was met before it. */
  lemma {:induction false} TerraCopied(s: seq<Entry>, dateOf: Entry -> Keyed<string>, i: nat, d: string)
    requires i < |s| && s[i].satellite == Terra && dateOf(s[i]) == Key(d)
    requires forall j :: 0 <= j < i ==> dateOf(s[j]) != Key(d)
    ensures Copy(s[i], Target(d)) in Copies(s, dateOf)
  {
    var init := s[..|s| - 1];
    if i < |init| {
      TerraCopied(init, dateOf, i, d);
      assert init[i] == s[i];
    } else {
      assert s[..i + 1] == s;
      FirstOfKey(s, dateOf, i, d);
    }
  }

  /** Copy `c` is justified by file `i` of `s`: it copies that file under its date, and a Terra file is the first of its date. */
  ghost predicate CopiedFrom(s: seq<Entry>, dateOf: Entry -> Keyed<string>, c: Copy, i: int, d: string)
  {
    && 0 <= i < |s| && c == Copy(s[i], Target(d)) && dateOf(s[i]) == Key(d)
    && (s[i].satellite == Terra ==> forall j :: 0 <= j < i ==> dateOf(s[j]) != Key(d))
  }

  lemma CopiedFromPrefix(s: seq<Entry>, dateOf: Entry -> Keyed<string>, n: nat, c: Copy, i: int, d: string)
    requires n <= |s| && CopiedFrom(s[..n], dateOf, c, i, d)
    ensures CopiedFrom(s, dateOf, c, i, d)
  {
    assert s[..n][i] == s[i];
    assert forall j :: 0 <= j < i ==> s[..n][j] == s[j];
  }

  /** Every copy is of a file with its own date, and a Terra file only when it is the first of that date. */
  lemma {:induction false} CopiesFrom(s: seq<Entry>, dateOf: Entry -> Keyed<string>, c: Copy)
    requires c in Copies(s, dateOf)
    ensures exists i, d :: CopiedFrom(s, dateOf, c, i, d)
  {
    var init := s[..|s| - 1];
    if c in Copies(init, dateOf) {
      CopiesFrom(init, dateOf, c);
      var i, d :| CopiedFrom(init, dateOf, c, i, d);
      CopiedFromPrefix(s, dateOf, |s| - 1, c, i, d);
    } else {
      LastCopiedFrom(s, dateOf, c);
    }
  }

  lemma LastCopiedFrom(s: seq<Entry>, dateOf: Entry -> Keyed<string>, c: Copy)
    requires s != [] && c in Copies(s, dateOf) && c !in Copies(s[..|s| - 1], dateOf)
    ensures CopiedFrom(s, dateOf, c, |s| - 1, dateOf(s[|s| - 1]).key)
  {
    var e := s[|s| - 1];
    var d := dateOf(e).key;
    if e.satellite == Terra {
      FirstOfKeyLast(s, dateOf, d);
    }
  }

  /** In each date's list the Aqua files come before the Terra files. */
  lemma AquaBeforeTerra(aqua: seq<string>, terra: seq<string>, d: string)
    ensures var m := Members(Entries(aqua, terra), DateKey, d);
      forall i, j :: 0 <= i < j < |m| && m[j].satellite == Aqua ==> m[i].satellite == Aqua
  {
    var a := DirEntries(aqua, Aqua);
    var t := DirEntries(terra, Terra);
    MembersAppend(a, t, DateKey, d);
    MembersBelong(a, DateKey, d);
    MembersBelong(t, DateKey, d);
    var ma := Members(a, DateKey, d);
    var mt := Members(t, DateKey, d);
    assert forall x :: x in ma ==> x.satellite == Aqua;
    assert forall x :: x in mt ==> x.satellite == Terra;
    var m := ma + mt;
    assert forall k :: 0 <= k < |ma| ==> m[k] in ma;
    assert forall k :: |ma| <= k < |m| ==> m[k] in mt;
    assert forall i, j :: 0 <= i < j < |m| && m[j].satellite == Aqua ==> m[i].satellite == Aqua;
  }

  /** All rasters share one grid of `width` pixels (the clipped region). */
  ghost predicate OneGrid(read: Entry -> seq<real>, width: nat)
  {
    forall e :: |read(e)| == width
  }

  /** `(src1.read(1) + src2.read(1)) / 2`, pixel by pixel. */
  function Half(a: seq<real>, b: seq<real>): (r: seq<real>)
    requires |a| == |b|
    ensures |r| == |a| && forall p :: 0 <= p < |a| ==> r[p] + r[p] == a[p] + b[p]
  {
    seq(|a|, p requires 0 <= p < |a| && |b| == |a| => (a[p] + b[p]) / 2.0)
  }

  /** The average written for a date with two files: of its first file and its second. */
  function AverageOf(s: seq<Entry>, d: string, read: Entry -> seq<real>, width: nat): Average
    requires OneGrid(read, width) && |Members(s, DateKey, d)| == 2
  {
    var m := Members(s, DateKey, d);
    Average(Target(d), m[0], m[1], Half(read(m[0]), read(m[1])))
  }

  /** The averages over the dates `dates`, in order: one for every date with exactly two files. */
  function AveragesOf(dates: seq<string>, s: seq<Entry>, read: Entry -> seq<real>, width: nat): (r: seq<Average>)
    requires OneGrid(read, width)
    ensures |r| <= |dates|
  {
    if dates == [] then []
    else
      var d := dates[|dates| - 1];
      AveragesOf(dates[..|dates| - 1], s, read, width) +
        if |Members(s, DateKey, d)| == 2 then [AverageOf(s, d, read, width)] else []
  }

  /** The averaging loop over `date_to_files`, in the order the dates were first met. */
  function Averages(s: seq<Entry>, read: Entry -> seq<real>, width: nat): (r: seq<Average>)
    requires OneGrid(read, width)
    ensures |r| <= |Uniques(GroupedKeys(s, DateKey))|
  {
    AveragesOf(Uniques(GroupedKeys(s, DateKey)), s, read, width)
  }

  /** A date is averaged exactly when it has exactly two files; one file or three and more are left alone. */
  lemma {:induction false} AveragedDates(dates: seq<string>, s: seq<Entry>, read: Entry -> seq<real>, width: nat, a: Average)
    requires OneGrid(read, width)
    ensures a in AveragesOf(dates, s, read, width) <==>
      exists d :: d in dates && |Members(s, DateKey, d)| == 2 && a == AverageOf(s, d, read, width)
  {
    if dates != [] {
      var init := dates[..|dates| - 1];
      AveragedDates(init, s, read, width, a);
      assert dates == init + [dates[|dates| - 1]];
    }
  }

  /** Each average's file is its date's, its two inputs are the date's two files, and each pixel is their mean. */
  lemma AverageCells(s: seq<Entry>, d: string, read: Entry -> seq<real>, width: nat)
    requires OneGrid(read, width) && |Members(s, DateKey, d)| == 2
    ensures var a := AverageOf(s, d, read, width);
      && a.to == Target(d) && Members(s, DateKey, d) == [a.first, a.second]
      && |a.cells| == width
      && forall p :: 0 <= p < width ==> a.cells[p] == (read(a.first)[p] + read(a.second)[p]) / 2.0
  {
  }

  lemma AveragesSnoc(dates: seq<string>, k: nat, s: seq<Entry>, read: Entry -> seq<real>, width: nat)
    requires OneGrid(read, width) && k < |dates|
    ensures AveragesOf(dates[..k + 1], s, read, width) == AveragesOf(dates[..k], s, read, width) +
      if |Members(s, DateKey, dates[k])| == 2 then [AverageOf(s, dates[k], read, width)] else []
  {
    assert dates[..k + 1][..k] == dates[..k];
  }

  /** One file's entry in `date_to_files`: appended under its date, or passed over. */
  method File(g: Groups<string, Entry>, ghost done: seq<Entry>, e: Entry) returns (g': Groups<string, Entry>)
    requires IsGrouping(g, done, DateKey) && !DateKey(e).Abort?
    ensures IsGrouping(g', done + [e], DateKey)
    ensures DateKey(e).Key? ==> DateKey(e).key in g'.members
  {
    match DateKey(e) {
      case Skip =>
        GroupStepSkip(g, done, e, DateKey);
        g' := g;
      case Key(d) =>
        if d in g.members {
          GroupStepSeen(g, done, e, DateKey, d);
          g' := Groups(g.order, g.members[d := g.members[d] + [e]]);
        } else {
          GroupStepNew(g, done, e, DateKey, d);
          g' := Groups(g.order + [d], g.members[d := [e]]);
        }
    }
  }

  /** The averaging loop: each date with two files, in the dictionary's order. */
  method AverageDuplicates(g: Groups<string, Entry>, ghost s: seq<Entry>, read: Entry -> seq<real>, width: nat)
    returns (averages: seq<Average>)
    requires IsGrouping(g, s, DateKey) && OneGrid(read, width)
    ensures averages == Averages(s, read, width)
  {
    averages := [];
    for k := 0 to |g.order|
      invariant averages == AveragesOf(g.order[..k], s, read, width)
    {
      var date := g.order[k];
      assert date in g.members;
      var files := g.members[date];
      AveragesSnoc(g.order, k, s, read, width);
      if |files| == 2 {
        averages := averages + [Average(Target(date), files[0], files[1], Half(read(files[0]), read(files[1])))];
      }
    }
    assert g.order[..|g.order|] == g.order;
  }

  /** The state after the files `all[..i]`: none raised, they are grouped by date, and their copies made. */
  ghost predicate Scanned(all: seq<Entry>, i: nat, g: Groups<string, Entry>, copies: seq<Copy>)
    requires i <= |all|
  {
    !Aborts(all[..i], DateKey) && IsGrouping(g, all[..i], DateKey) && copies == Copies(all[..i], DateKey)
  }

  lemma ScannedStep(all: seq<Entry>, i: nat, g: Groups<string, Entry>, copies: seq<Copy>, g': Groups<string, Entry>, copies': seq<Copy>)
    requires i < |all| && Scanned(all, i, g, copies) && !DateKey(all[i]).Abort?
    requires IsGrouping(g', all[..i] + [all[i]], DateKey) && copies' == Copies(all[..i] + [all[i]], DateKey)
    ensures Scanned(all, i + 1, g', copies')
  {
    PrefixStep(all, i);
    NoAbortStep(all, i, DateKey);
  }

  /** One file of the Aqua loop, the `i`th listed: filed under its date and copied. */
  method AquaFile(g: Groups<string, Entry>, copies: seq<Copy>, ghost all: seq<Entry>, ghost i: nat, e: Entry)
    returns (g': Groups<string, Entry>, copies': seq<Copy>)
    requires i < |all| && e == all[i] && Scanned(all, i, g, copies) && e.satellite == Aqua && !DateKey(e).Abort?
    ensures Scanned(all, i + 1, g', copies')
  {
    g' := File(g, all[..i], e);
    CopiesSnoc(all[..i], e, DateKey);
    copies' := copies;
    if DateKey(e).Key? {
      copies' := copies + [Copy(e, Target(DateKey(e).key))];
    }
    ScannedStep(all, i, g, copies, g', copies');
  }

  /** One file of the Terra loop: filed under its date, and copied when it is the date's only file so far. */
  method TerraFile(g: Groups<string, Entry>, copies: seq<Copy>, ghost all: seq<Entry>, ghost i: nat, e: Entry)
    returns (g': Groups<string, Entry>, copies': seq<Copy>)
    requires i < |all| && e == all[i] && Scanned(all, i, g, copies) && e.satellite == Terra && !DateKey(e).Abort?
    ensures Scanned(all, i + 1, g', copies')
  {
    g' := File(g, all[..i], e);
    CopiesSnoc(all[..i], e, DateKey);
    copies' := copies;
    if DateKey(e).Key? && |g'.members[DateKey(e).key]| == 1 {
      copies' := copies + [Copy(e, Target(DateKey(e).key))];
    }
    ScannedStep(all, i, g, copies, g', copies');
  }

  /** The Aqua loop over the first `n` files: it stops at `reached`, the first name without a date field, or at `n`. */
  method AquaLoop(all: seq<Entry>, n: nat) returns (g: Groups<string, Entry>, copies: seq<Copy>, reached: nat)
    requires n <= |all| && forall i :: 0 <= i < n ==> all[i].satellite == Aqua
    ensures reached <= n && Scanned(all, reached, g, copies)
    ensures reached < n ==> DateKey(all[reached]).Abort?
  {
    g, copies := Groups([], map[]), [];
    reached := 0;
    while reached < n
      invariant reached <= n && Scanned(all, reached, g, copies)
    {
      var e := all[reached];
      if DateKey(e).Abort? {
        return;
      }
      g, copies := AquaFile(g, copies, all, reached, e);
      reached := reached + 1;
    }
  }

  /** The Terra loop over the files from `start` on, with the same stopping rule. */
  method TerraLoop(all: seq<Entry>, start: nat, g: Groups<string, Entry>, copies: seq<Copy>)
    returns (g': Groups<string, Entry>, copies': seq<Copy>, reached: nat)
    requires start <= |all| && forall i :: start <= i < |all| ==> all[i].satellite == Terra
    requires Scanned(all, start, g, copies)
    ensures start <= reached <= |all| && Scanned(all, reached, g', copies')
    ensures reached < |all| ==> DateKey(all[reached]).Abort?
  {
    g', copies' := g, copies;
    reached := start;
    while reached < |all|
      invariant start <= reached <= |all| && Scanned(all, reached, g', copies')
    {
      var e := all[reached];
      if DateKey(e).Abort? {
        return;
      }
      g', copies' := TerraFile(g', copies', all, reached, e);
      reached := reached + 1;
    }
  }

  lemma EntriesSatellites(aqua: seq<string>, terra: seq<string>)
    ensures |Entries(aqua, terra)| == |aqua| + |terra|
    ensures forall i :: 0 <= i < |aqua| ==> Entries(aqua, terra)[i].satellite == Aqua
    ensures forall i :: |aqua| <= i < |aqua| + |terra| ==> Entries(aqua, terra)[i].satellite == Terra
  {
  }

  /** A name without a date field at `i` ends the script there. */
  lemma Stopped(all: seq<Entry>, i: nat)
    requires i < |all| && !Aborts(all[..i], DateKey) && DateKey(all[i]).Abort?
    ensures Reached(all, DateKey) == all[..i] && Aborts(all, DateKey)
  {
    ReachedAt(all, DateKey, i);
  }

  /**
   * The script: the Aqua loop, the Terra loop, then the averaging loop. A name
   * without a fifth field ends it; the copies made until then stay, and nothing
   * is averaged.
   */
  method PairByDate(aqua: seq<string>, terra: seq<string>, read: Entry -> seq<real>, width: nat)
    returns (copies: seq<Copy>, averages: Option<seq<Average>>)
    requires OneGrid(read, width)
    ensures copies == Copies(Reached(Entries(aqua, terra), DateKey), DateKey)
    ensures averages.None? <==> Aborts(Entries(aqua, terra), DateKey)
    ensures averages.Some? ==> averages.value == Averages(Entries(aqua, terra), read, width)
  {
    var all := Entries(aqua, terra);
    EntriesSatellites(aqua, terra);
    var g, i;
    g, copies, i := AquaLoop(all, |aqua|);
    if i < |aqua| {
      Stopped(all, i);
      return copies, None;
    }
    g, copies, i := TerraLoop(all, i, g, copies);
    if i < |all| {
      Stopped(all, i);
      return copies, None;
    }
    assert all[..i] == all;
    ReachedAt(all, DateKey, i);
    var averaged := AverageDuplicates(g, all, read, width);
    return copies, Some(averaged);
  }
}
