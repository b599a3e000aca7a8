/**
 * Matching the lake points of a CSV table to HydroLAKES polygons: for every row
 * the point is looked up first in a tiny rectangle around it and, only when that
 * finds nothing, in a larger one; the first candidate polygon with a geometry
 * that intersects the point gives the row its `Hylak_id`. One result is recorded
 * per row and every row is counted as matched or unmatched.
 */
module LakeMatching {
  import opened Outcome
  import opened Text
  import opened Sequences

  /** The columns the table must have. */
  const KeepCols: seq<string> := ["id", "short_name", "lat_cntral", "lon_cntral"]

  /** Half-sizes of the two search rectangles, in degrees. */
  const EpsPrimary: real := 0.0001
  const EpsFallback: real := 0.0005

  /** `get_field_name_case_insensitive`: the first field whose lower case is the target's. */
  function FieldLookup(fields: seq<string>, target: string): (r: Option<string>)
    ensures r.None? <==> forall i :: 0 <= i < |fields| ==> Lower(fields[i]) != Lower(target)
    ensures r.Some? ==> exists i :: (0 <= i < |fields| && fields[i] == r.value && Lower(fields[i]) == Lower(target)
      && forall j :: 0 <= j < i ==> Lower(fields[j]) != Lower(target))
  {
    if fields == [] then None
    else if Lower(fields[0]) == Lower(target) then
      Some(fields[0])
    else
      var r := FieldLookup(fields[1..], target);
      assert forall i :: 1 <= i < |fields| ==> fields[i] == fields[1..][i - 1];
      if r.Some? then
        var i :| 0 <= i < |fields[1..]| && fields[1..][i] == r.value && Lower(fields[1..][i]) == Lower(target)
          && forall j :: 0 <= j < i ==> Lower(fields[1..][j]) != Lower(target);
        assert fields[i + 1] == r.value && forall j :: 0 <= j < i + 1 ==> Lower(fields[j]) != Lower(target);
        r
      else
        r
  }

  /** The search loop over the layer's field definitions, returning at the first match. */
  method FindField(fields: seq<string>, target: string) returns (r: Option<string>)
    ensures r == FieldLookup(fields, target)
  {
    var lcTarget := Lower(target);
    for i := 0 to |fields|
      invariant FieldLookup(fields, target) == FieldLookup(fields[i..], target)
    {
      assert fields[i..][1..] == fields[i + 1..];
      if Lower(fields[i]) == lcTarget {
        return Some(fields[i]);
      }
    }
    return None;
  }

  /** `[c for c in KEEP_COLS if c not in df.columns]`. */
  function Missing(columns: seq<string>): (r: seq<string>)
    ensures forall c :: c in r <==> c in KeepCols && c !in columns
  {
    Filter(KeepCols, c => c !in columns)
  }

  datatype Point = Point(x: real, y: real)

  /** A spatial-filter rectangle `(min_x, min_y, max_x, max_y)`. */
  datatype Rect = Rect(minX: real, minY: real, maxX: real, maxY: real)

  /** `bbox_filter`'s rectangle around the point. */
  function BBox(p: Point, half: real): Rect
  {
    Rect(p.x - half, p.y - half, p.x + half, p.y + half)
  }

  predicate InRect(r: Rect, p: Point)
  {
    r.minX <= p.x <= r.maxX && r.minY <= p.y <= r.maxY
  }

  /** The rectangle is centred on the point, and the fallback rectangle holds the primary one. */
  lemma BBoxes(p: Point, q: Point)
    ensures InRect(BBox(p, EpsPrimary), p) && InRect(BBox(p, EpsFallback), p)
    ensures InRect(BBox(p, EpsPrimary), q) ==> InRect(BBox(p, EpsFallback), q)
    ensures InRect(BBox(p, EpsFallback), q) <==> -EpsFallback <= q.x - p.x <= EpsFallback && -EpsFallback <= q.y - p.y <= EpsFallback
  {
  }

  /** A lake polygon's geometry; intersection with a point is a parameter. */
  datatype Geometry = Geometry(ring: seq<Point>)

  /** A layer feature: its geometry, which may be null, and its `Hylak_id`, which may be null. */
  datatype Feature = Feature(geom: Option<Geometry>, hylakId: Option<int>)

  /** A candidate the search stops at: a geometry that intersects the point. */
  predicate Hit(f: Feature, p: Point, intersects: (Geometry, Point) -> bool)
  {
    f.geom.Some? && intersects(f.geom.value, p)
  }

  /** The candidate loop: the id field of the first hit (itself perhaps null), or None when nothing is hit. */
  function FirstHit(cands: seq<Feature>, p: Point, intersects: (Geometry, Point) -> bool): (r: Option<Option<int>>)
    ensures r.None? <==> forall k :: 0 <= k < |cands| ==> !Hit(cands[k], p, intersects)
    ensures r.Some? ==> exists k :: (0 <= k < |cands| && Hit(cands[k], p, intersects) && r.value == cands[k].hylakId
      && forall j :: 0 <= j < k ==> !Hit(cands[j], p, intersects))
  {
    if cands == [] then None
    else if Hit(cands[0], p, intersects) then
      Some(cands[0].hylakId)
    else
      var r := FirstHit(cands[1..], p, intersects);
      assert forall i :: 1 <= i < |cands| ==> cands[i] == cands[1..][i - 1];
      if r.Some? then
        var k :| 0 <= k < |cands[1..]| && Hit(cands[1..][k], p, intersects) && r.value == cands[1..][k].hylakId
          && forall j :: 0 <= j < k ==> !Hit(cands[1..][j], p, intersects);
        assert cands[k + 1] == cands[1..][k];
        assert forall j :: 0 <= j < k + 1 ==> !Hit(cands[j], p, intersects);
        r
      else
        r
  }

  /** `for feat in lyr: ...; break` over the filtered candidates. */
  method Scan(cands: seq<Feature>, p: Point, intersects: (Geometry, Point) -> bool) returns (r: Option<Option<int>>)
    ensures r == FirstHit(cands, p, intersects)
  {
    for k := 0 to |cands|
      invariant FirstHit(cands, p, intersects) == FirstHit(cands[k..], p, intersects)
    {
      assert cands[k..][1..] == cands[k + 1..];
      var feat := cands[k];
      if feat.geom.None? {
        continue;
      }
      if intersects(feat.geom.value, p) {
        return Some(feat.hylakId);
      }
    }
    return None;
  }

  /** A table row as read: the coordinates are None where `float()` raises. */
  datatype Row = Row(id: string, shortName: string, lat: Option<real>, lon: Option<real>)

  /** A row of `matches.csv`; NaN coordinates and a null id are `None`. */
  datatype Match = Match(id: string, shortName: string, lat: Option<real>, lon: Option<real>, hylakId: Option<int>)

  /** The point to look up, in the layer's reference system (`project` is the identity when they agree). */
  function PointOf(lat: real, lon: real, project: Point -> Point): (r: Point)
    ensures (forall q :: project(q) == q) ==> r.x == lon && r.y == lat
  {
    project(Point(lon, lat))
  }

  /** The outcome of the two searches: the primary hit, else the fallback hit, else nothing. */
  function Search(p: Point, candidates: Rect -> seq<Feature>, intersects: (Geometry, Point) -> bool): (r: Option<Option<int>>)
    ensures var primary, fallback := candidates(BBox(p, EpsPrimary)), candidates(BBox(p, EpsFallback));
      r.None? <==> (forall k :: 0 <= k < |primary| ==> !Hit(primary[k], p, intersects))
                   && (forall k :: 0 <= k < |fallback| ==> !Hit(fallback[k], p, intersects))
  {
    var primary := FirstHit(candidates(BBox(p, EpsPrimary)), p, intersects);
    if primary.Some? then primary else FirstHit(candidates(BBox(p, EpsFallback)), p, intersects)
  }

  /** What is recorded for one row. */
  function MatchOf(row: Row, project: Point -> Point, candidates: Rect -> seq<Feature>, intersects: (Geometry, Point) -> bool): (m: Match)
    ensures m.id == row.id && m.shortName == row.shortName
  {
    if row.lat.None? || row.lon.None? then Match(row.id, row.shortName, None, None, None)
    else
      var found := Search(PointOf(row.lat.value, row.lon.value, project), candidates, intersects);
      Match(row.id, row.shortName, row.lat, row.lon, if found.Some? then found.value else None)
  }

  /** A row whose coordinates do not read is recorded with NaN coordinates and no id. */
  lemma UnreadableUnmatched(row: Row, project: Point -> Point, candidates: Rect -> seq<Feature>, intersects: (Geometry, Point) -> bool)
    requires row.lat.None? || row.lon.None?
    ensures var m := MatchOf(row, project, candidates, intersects);
      m.lat.None? && m.lon.None? && m.hylakId.None?
  {
  }

  /** A primary hit decides the row: the fallback candidates do not matter. */
  lemma PrimaryDecides(row: Row, project: Point -> Point, c1: Rect -> seq<Feature>, c2: Rect -> seq<Feature>, intersects: (Geometry, Point) -> bool)
    requires row.lat.Some? && row.lon.Some?
    requires var p := PointOf(row.lat.value, row.lon.value, project);
      c1(BBox(p, EpsPrimary)) == c2(BBox(p, EpsPrimary)) && FirstHit(c1(BBox(p, EpsPrimary)), p, intersects).Some?
    ensures MatchOf(row, project, c1, intersects) == MatchOf(row, project, c2, intersects)
  {
  }

  /** The id is that of the first hit in the primary candidates, else of the first hit in the fallback ones. */
  lemma MatchedFeature(row: Row, project: Point -> Point, candidates: Rect -> seq<Feature>, intersects: (Geometry, Point) -> bool)
    requires MatchOf(row, project, candidates, intersects).hylakId.Some?
    ensures row.lat.Some? && row.lon.Some?
    ensures var p := PointOf(row.lat.value, row.lon.value, project);
      var primary := candidates(BBox(p, EpsPrimary));
      var fallback := candidates(BBox(p, EpsFallback));
      var id := MatchOf(row, project, candidates, intersects).hylakId;
      || (exists k :: 0 <= k < |primary| && Hit(primary[k], p, intersects) && primary[k].hylakId == id)
      || ((forall k :: 0 <= k < |primary| ==> !Hit(primary[k], p, intersects))
        && exists k :: 0 <= k < |fallback| && Hit(fallback[k], p, intersects) && fallback[k].hylakId == id)
  {
  }

  /** The number of recorded rows that carry an id. */
  function MatchedCount(results: seq<Match>): (n: nat)
    ensures n <= |results|
  {
    if results == [] then 0
    else MatchedCount(results[..|results| - 1]) + if results[|results| - 1].hylakId.Some? then 1 else 0
  }

  lemma MatchedCountSnoc(results: seq<Match>, m: Match)
    ensures MatchedCount(results + [m]) == MatchedCount(results) + if m.hylakId.Some? then 1 else 0
  {
    assert (results + [m])[..|results|] == results;
  }

  /** One row of the loop: the conversion, the primary search, the fallback search only when that finds nothing. */
  method MatchRow(row: Row, project: Point -> Point, candidates: Rect -> seq<Feature>, intersects: (Geometry, Point) -> bool)
    returns (m: Match)
    ensures m == MatchOf(row, project, candidates, intersects)
  {
    if row.lat.None? || row.lon.None? {
      return Match(row.id, row.shortName, None, None, None);
    }
    var pt := project(Point(row.lon.value, row.lat.value));
    var found := Scan(candidates(BBox(pt, EpsPrimary)), pt, intersects);
    if found.None? {
      found := Scan(candidates(BBox(pt, EpsFallback)), pt, intersects);
    }
    var hylakId: Option<int> := None;
    if found.Some? && found.value.Some? {
      hylakId := found.value;
    }
    return Match(row.id, row.shortName, row.lat, row.lon, hylakId);
  }

  /** The row loop: one result per row, in order, and every row counted as matched or unmatched. */
  method MatchAll(rows: seq<Row>, project: Point -> Point, candidates: Rect -> seq<Feature>, intersects: (Geometry, Point) -> bool)
    returns (results: seq<Match>, matched: nat, unmatched: nat)
    ensures |results| == |rows|
    ensures forall i :: 0 <= i < |rows| ==> results[i] == MatchOf(rows[i], project, candidates, intersects)
    ensures matched == MatchedCount(results) && matched + unmatched == |rows|
  {
    results := [];
    matched := 0;
    unmatched := 0;
    for i := 0 to |rows|
      invariant |results| == i
      invariant forall j :: 0 <= j < i ==> results[j] == MatchOf(rows[j], project, candidates, intersects)
      invariant matched == MatchedCount(results) && matched + unmatched == i
    {
      var m := MatchRow(rows[i], project, candidates, intersects);
      MatchedCountSnoc(results, m);
      if m.hylakId.Some? {
        matched := matched + 1;
      } else {
        unmatched := unmatched + 1;
      }
      results := results + [m];
    }
  }

  /** Why the script stops before the loop: columns missing from the table, or no `Hylak_id` field in any case. */
  datatype MatchError = MissingColumns(columns: seq<string>) | NoHylakField

  /**
   * The script: the checks, then the row loop with its `results` list and its
   * `matched` and `unmatched` counters.
   */
  method MatchRows(columns: seq<string>, rows: seq<Row>, fields: seq<string>, project: Point -> Point,
                   candidates: Rect -> seq<Feature>, intersects: (Geometry, Point) -> bool)
    returns (r: Result<(seq<Match>, nat, nat), MatchError>)
    ensures r == Failure(MissingColumns(Missing(columns))) <==> Missing(columns) != []
    ensures r == Failure(NoHylakField) <==> Missing(columns) == [] && FieldLookup(fields, "Hylak_id").None?
    ensures r.Success? ==>
      var (results, matched, unmatched) := r.value;
      && |results| == |rows|
      && (forall i :: 0 <= i < |rows| ==> results[i] == MatchOf(rows[i], project, candidates, intersects))
      && matched == MatchedCount(results)
      && matched + unmatched == |rows|
  {
    var missing := Missing(columns);
    if missing != [] {
      return Failure(MissingColumns(missing));
    }
    var hylakField := FindField(fields, "Hylak_id");
    if hylakField.None? {
      return Failure(NoHylakField);
    }
    var results, matched, unmatched := MatchAll(rows, project, candidates, intersects);
    return Success((results, matched, unmatched));
  }
}
