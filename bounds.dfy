/** Bounds filtering of population point rows (`filter_population`,
    `remove_features` in urbanpy/geom/geom.py). Coordinates are reals: the code
    only compares them. */
module Bounds {
  import opened Common
  import opened Seqs

  /** One row of the population table: its index label, latitude, longitude,
      the other measured columns, and the point geometry once attached. */
  datatype Row = Row(rowLabel: int, latitude: real, longitude: real,
                     attrs: map<string, real>, geometry: Option<PointXY>)

  /** The bounds of one polygon, in shapely's (minx, miny, maxx, maxy) order. */
  datatype Box = Box(minx: real, miny: real, maxx: real, maxy: real)

  /** `Series.between(lo, hi)`, inclusive at both ends. */
  predicate Between(v: real, lo: real, hi: real) {
    lo <= v && v <= hi
  }

  /** `GeoSeries.total_bounds` of a non-empty polygon set: the smallest box
      holding every polygon's bounds. */
  function TotalBounds(polys: seq<Box>): (b: Box)
    requires |polys| > 0
    ensures forall i :: 0 <= i < |polys| ==>
              b.minx <= polys[i].minx && b.miny <= polys[i].miny &&
              polys[i].maxx <= b.maxx && polys[i].maxy <= b.maxy
    ensures exists i :: 0 <= i < |polys| && b.minx == polys[i].minx
    ensures exists i :: 0 <= i < |polys| && b.miny == polys[i].miny
    ensures exists i :: 0 <= i < |polys| && b.maxx == polys[i].maxx
    ensures exists i :: 0 <= i < |polys| && b.maxy == polys[i].maxy
    decreases |polys|
  {
    if |polys| == 1 then polys[0]
    else
      var b := TotalBounds(polys[..|polys| - 1]);
      var p := polys[|polys| - 1];
      Box(if p.minx < b.minx then p.minx else b.minx,
          if p.miny < b.miny then p.miny else b.miny,
          if p.maxx > b.maxx then p.maxx else b.maxx,
          if p.maxy > b.maxy then p.maxy else b.maxy)
  }

  /** The inclusive box test `filter_population` applies to one row. */
  predicate InBox(row: Row, b: Box) {
    Between(row.longitude, b.minx, b.maxx) && Between(row.latitude, b.miny, b.maxy)
  }

  /** The row with its point geometry attached (x = longitude, y = latitude). */
  function Located(row: Row): Row {
    row.(geometry := Some(PointXY(row.longitude, row.latitude)))
  }

  /** The boolean mask `limits_filter`, one entry per row. */
  function BoxMask(pop: seq<Row>, b: Box): seq<bool>
  {
    seq(|pop|, i requires 0 <= i < |pop| => InBox(pop[i], b))
  }

  /** `filter_population`: keep the rows inside the total bounds of the
      polygons and attach their point geometry. The total bounds of an empty
      polygon set are all NaN, and no comparison with NaN holds, so nothing
      is kept then. */
  function FilterPopulation(pop: seq<Row>, polys: seq<Box>): (r: seq<Row>)
    ensures |r| <= |pop|
    ensures polys == [] ==> r == []
    ensures polys != [] ==> forall j :: 0 <= j < |r| ==>
              InBox(r[j], TotalBounds(polys)) &&
              r[j].geometry == Some(PointXY(r[j].longitude, r[j].latitude))
  {
    if polys == [] then []
    else
      var b := TotalBounds(polys);
      MaskedInBox(pop, b);
      LocatedAll(Masked(pop, BoxMask(pop, b)))
  }

  /** `gpd.points_from_xy(longitude, latitude)` attached to every row. */
  function LocatedAll(rows: seq<Row>): seq<Row>
  {
    seq(|rows|, j requires 0 <= j < |rows| => Located(rows[j]))
  }

  lemma MaskedInBox(pop: seq<Row>, b: Box)
    ensures forall j :: 0 <= j < |Masked(pop, BoxMask(pop, b))| ==> InBox(Masked(pop, BoxMask(pop, b))[j], b)
  {
    var mask := BoxMask(pop, b);
    var kept := Masked(pop, mask);
    forall j | 0 <= j < |kept| ensures InBox(kept[j], b) {
      MaskedMembership(pop, mask, kept[j]);
    }
  }

  /** On a single row, `filter_population` keeps it (with its point attached)
      exactly when it lies inside the inclusive total bounds. */
  lemma FilterPopulationSingle(row: Row, polys: seq<Box>)
    requires polys != []
    ensures FilterPopulation([row], polys) ==
              if InBox(row, TotalBounds(polys)) then [Located(row)] else []
  {
  }

  /** `filter_population` decides each row on its own and keeps the input
      order: filtering a concatenation is the concatenation of the filtered
      parts. With `FilterPopulationSingle` this pins the result down fully. */
  lemma FilterPopulationConcat(a: seq<Row>, b: seq<Row>, polys: seq<Box>)
    ensures FilterPopulation(a + b, polys) == FilterPopulation(a, polys) + FilterPopulation(b, polys)
  {
    if polys != [] {
      var bx := TotalBounds(polys);
      var ma, mb := BoxMask(a, bx), BoxMask(b, bx);
      assert BoxMask(a + b, bx) == ma + mb;
      MaskedConcat(a, ma, b, mb);
      var ka, kb := Masked(a, ma), Masked(b, mb);
      assert LocatedAll(ka + kb) == LocatedAll(ka) + LocatedAll(kb);
    }
  }

  /** Every row inside the bounds survives, and every survivor is an input
      row inside the bounds with its point attached. */
  lemma FilterPopulationExact(pop: seq<Row>, polys: seq<Box>, row: Row)
    requires polys != []
    ensures row in FilterPopulation(pop, polys) <==>
              exists i :: 0 <= i < |pop| && InBox(pop[i], TotalBounds(polys)) && Located(pop[i]) == row
  {
    var b := TotalBounds(polys);
    var mask := BoxMask(pop, b);
    var kept := Masked(pop, mask);
    var r := FilterPopulation(pop, polys);
    if row in r {
      var j :| 0 <= j < |r| && r[j] == row;
      MaskedMembership(pop, mask, kept[j]);
      var i :| 0 <= i < |pop| && mask[i] && pop[i] == kept[j];
    }
    if exists i :: 0 <= i < |pop| && InBox(pop[i], b) && Located(pop[i]) == row {
      var i :| 0 <= i < |pop| && InBox(pop[i], b) && Located(pop[i]) == row;
      MaskedMembership(pop, mask, pop[i]);
      var j :| 0 <= j < |kept| && kept[j] == pop[i];
      assert r[j] == row;
    }
  }

  /** The explicit box `remove_features` receives, unpacked from
      `[miny, maxy, minx, maxx]`. */
  predicate InRemovalBox(row: Row, miny: real, maxy: real, minx: real, maxx: real) {
    Between(row.latitude, miny, maxy) && Between(row.longitude, minx, maxx)
  }

  /** The boolean mask `filter` of `remove_features`. */
  function RemovalMask(gdf: seq<Row>, miny: real, maxy: real, minx: real, maxx: real): seq<bool>
  {
    seq(|gdf|, i requires 0 <= i < |gdf| => InRemovalBox(gdf[i], miny, maxy, minx, maxx))
  }

  function Negated(mask: seq<bool>): seq<bool>
  {
    seq(|mask|, i requires 0 <= i < |mask| => !mask[i])
  }

  /** `gdf[mask].index`: the labels of the selected rows. */
  function SelectedLabels(rows: seq<Row>, mask: seq<bool>): set<int>
    requires |mask| == |rows|
  {
    set i | 0 <= i < |rows| && mask[i] :: rows[i].rowLabel
  }

  /** `gdf.drop(labels)`: remove every row whose index label is listed. */
  function DropLabels(rows: seq<Row>, labels: set<int>): (r: seq<Row>)
    ensures |r| <= |rows|
    decreases |rows|
  {
    if |rows| == 0 then []
    else DropLabels(rows[..|rows| - 1], labels)
         + (if rows[|rows| - 1].rowLabel in labels then [] else [rows[|rows| - 1]])
  }

  /** Python's `str(n)` for a natural number. */
  function DecimalString(n: nat): (s: string)
    ensures |s| > 0 && forall i :: 0 <= i < |s| ==> '0' <= s[i] <= '9'
    decreases n
  {
    var digit := [('0' as int + n % 10) as char];
    if n < 10 then digit else DecimalString(n / 10) + digit
  }

  /** `remove_features`: unpack the four bounds (any other length is
      Python's unpacking `ValueError`), find the labels of the rows inside
      the inclusive box and drop those labels. */
  function RemoveFeatures(gdf: seq<Row>, bounds: seq<real>): (r: Result<seq<Row>>)
    ensures r.Err? <==> |bounds| != 4
    ensures r.Err? ==> (|bounds| < 4 <==> "not enough values to unpack" <= r.error.message)
    ensures r.Ok? ==> |r.value| <= |gdf|
  {
    if |bounds| < 4 then
      Err(ValueError("not enough values to unpack (expected 4, got " + DecimalString(|bounds|) + ")"))
    else if |bounds| > 4 then
      var message := "too many values to unpack (expected 4)";
      assert message[0] != "not enough values to unpack"[0];
      Err(ValueError(message))
    else
      var miny, maxy, minx, maxx := bounds[0], bounds[1], bounds[2], bounds[3];
      var filter := RemovalMask(gdf, miny, maxy, minx, maxx);
      Ok(DropLabels(gdf, SelectedLabels(gdf, filter)))
  }

  predicate UniqueLabels(rows: seq<Row>) {
    forall i, j :: 0 <= i < j < |rows| ==> rows[i].rowLabel != rows[j].rowLabel
  }

  /** With unique index labels, `remove_features` keeps exactly the rows
      outside the box, in their original order. */
  lemma RemoveFeaturesKeepsOutside(gdf: seq<Row>, miny: real, maxy: real, minx: real, maxx: real)
    requires UniqueLabels(gdf)
    ensures RemoveFeatures(gdf, [miny, maxy, minx, maxx]) ==
              Ok(Masked(gdf, Negated(RemovalMask(gdf, miny, maxy, minx, maxx))))
  {
    var filter := RemovalMask(gdf, miny, maxy, minx, maxx);
    var dropIx := SelectedLabels(gdf, filter);
    forall i | 0 <= i < |gdf| ensures gdf[i].rowLabel in dropIx <==> filter[i] {
      if gdf[i].rowLabel in dropIx {
        var k :| 0 <= k < |gdf| && filter[k] && gdf[k].rowLabel == gdf[i].rowLabel;
        assert k == i;
      }
    }
    DropIsMask(gdf, dropIx, filter);
  }

  /** Dropping labels is masking by "label not listed". */
  lemma {:induction false} DropIsMask(rows: seq<Row>, labels: set<int>, filter: seq<bool>)
    requires |filter| == |rows|
    requires forall i :: 0 <= i < |rows| ==> (rows[i].rowLabel in labels <==> filter[i])
    ensures DropLabels(rows, labels) == Masked(rows, Negated(filter))
    decreases |rows|
  {
    if |rows| > 0 {
      var n := |rows| - 1;
      DropIsMask(rows[..n], labels, filter[..n]);
      assert Negated(filter)[..n] == Negated(filter[..n]);
    }
  }

  /** Every row `DropLabels` keeps is an input row whose label is not listed. */
  lemma {:induction false} DropLabelsKept(rows: seq<Row>, labels: set<int>)
    ensures forall row :: row in DropLabels(rows, labels) ==> row in rows && row.rowLabel !in labels
    decreases |rows|
  {
    if |rows| > 0 {
      DropLabelsKept(rows[..|rows| - 1], labels);
    }
  }

  /** `remove_features` is idempotent: a second call with the same bounds
      finds no row inside the box and removes nothing. */
  lemma RemoveFeaturesIdempotent(gdf: seq<Row>, bounds: seq<real>)
    requires |bounds| == 4
    ensures RemoveFeatures(RemoveFeatures(gdf, bounds).value, bounds) == RemoveFeatures(gdf, bounds)
  {
    var miny, maxy, minx, maxx := bounds[0], bounds[1], bounds[2], bounds[3];
    var filter := RemovalMask(gdf, miny, maxy, minx, maxx);
    var dropIx := SelectedLabels(gdf, filter);
    var once := DropLabels(gdf, dropIx);
    var filter2 := RemovalMask(once, miny, maxy, minx, maxx);
    DropLabelsKept(gdf, dropIx);
    forall i | 0 <= i < |once| ensures !filter2[i] {
      var row := once[i];
      assert row in gdf && row.rowLabel !in dropIx;
    }
    assert SelectedLabels(once, filter2) == {};
    DropNothing(once);
  }

  lemma {:induction false} DropNothing(rows: seq<Row>)
    ensures DropLabels(rows, {}) == rows
    decreases |rows|
  {
    if |rows| > 0 {
      DropNothing(rows[..|rows| - 1]);
      assert rows[..|rows| - 1] + [rows[|rows| - 1]] == rows;
    }
  }
}
