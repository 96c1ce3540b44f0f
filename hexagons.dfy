/** Hexagon accumulation and de-duplication (`gen_hexagons` in
    urbanpy/geom/geom.py). The h3 library calls are parameters of the
    method: `polyfill`, `h3_to_geo` and `h3_to_geo_boundary` are taken as
    given functions, and only the orchestration around them is modelled. */
module Hexagons {
  import opened Common
  import opened Seqs

  /** An h3 cell identifier, e.g. "888e620e41fffff". */
  type CellId = string

  /** A shapely `Polygon` built from (x, y) vertex pairs. */
  datatype HexPolygon = HexPolygon(vertices: seq<(real, real)>)

  /** One row of a `GeoDataFrame(ids, geometry=...)`: the index label the
      row keeps through `drop_duplicates`, the cell id, and its geometry. */
  datatype TableRow<G> = TableRow(rowLabel: nat, id: CellId, geometry: G)

  /** A row of the hexagon table (boundary polygons). */
  type HexRow = TableRow<HexPolygon>

  /** A row of the centroid table (centre points). */
  type CentroidRow = TableRow<PointXY>

  /** `city.explode()`: the single polygons of every row, in order. */
  function Explode<P>(city: seq<seq<P>>): (r: seq<P>)
    decreases |city|
  {
    if |city| == 0 then [] else Explode(city[..|city| - 1]) + city[|city| - 1]
  }

  /** The cell ids the loop visits: polyfill of each exploded polygon, in
      loop order, duplicates included. */
  function Polyfilled<P>(polys: seq<P>, resolution: int, polyfill: (P, int) -> seq<CellId>): seq<CellId>
    decreases |polys|
  {
    if |polys| == 0 then []
    else Polyfilled(polys[..|polys| - 1], resolution, polyfill) + polyfill(polys[|polys| - 1], resolution)
  }

  /** `Point(lon, lat)` from h3's (lat, lon) centre. */
  function Centroid(h3ToGeo: CellId -> (real, real), c: CellId): PointXY
  {
    PointXY(h3ToGeo(c).1, h3ToGeo(c).0)
  }

  /** The boundary polygon with every h3 (lat, lon) vertex turned into
      (lon, lat). */
  function Boundary(h3ToGeoBoundary: CellId -> seq<(real, real)>, c: CellId): HexPolygon
  {
    var b := h3ToGeoBoundary(c);
    HexPolygon(seq(|b|, k requires 0 <= k < |b| => (b[k].1, b[k].0)))
  }

  /** `[bound.reverse() for bound in boundary]`: every vertex pair is
      reversed in place, turning h3's (lat, lon) into (lon, lat). */
  method ReversePairs(boundary: seq<(real, real)>) returns (r: seq<(real, real)>)
    ensures |r| == |boundary|
    ensures forall k :: 0 <= k < |r| ==> r[k].0 == boundary[k].1 && r[k].1 == boundary[k].0
  {
    r := boundary;
    for k := 0 to |r|
      invariant |r| == |boundary|
      invariant forall m :: 0 <= m < k ==> r[m] == (boundary[m].1, boundary[m].0)
      invariant forall m :: k <= m < |r| ==> r[m] == boundary[m]
    {
      r := r[k := (r[k].1, r[k].0)];
    }
  }

  /** The rows of a table built from aligned id and geometry columns. */
  function Pairs<G>(ids: seq<CellId>, geoms: seq<G>): seq<(CellId, G)>
    requires |ids| == |geoms|
  {
    seq(|ids|, n requires 0 <= n < |ids| => (ids[n], geoms[n]))
  }

  /** No row before row n of a two-column table equals it. */
  ghost predicate NoEarlierCopy<G>(ids: seq<CellId>, geoms: seq<G>, n: nat)
    requires |ids| == |geoms| && n < |ids|
  {
    forall m :: 0 <= m < n ==> (ids[m], geoms[m]) != (ids[n], geoms[n])
  }

  /** Row n of a two-column table is kept by `drop_duplicates` exactly when
      no earlier row equals it. */
  lemma KeptRowFirst<G>(ids: seq<CellId>, geoms: seq<G>, n: nat)
    requires |ids| == |geoms| && n < |ids|
    ensures n in FirstOccurrences(Pairs(ids, geoms)) <==>
            NoEarlierCopy(ids, geoms, n)
  {
    var s := Pairs(ids, geoms);
    FirstOccurrencesSpec(s);
    if s[n] in s[..n] {
      var m :| 0 <= m < n && s[..n][m] == s[n];
      assert s[m] == (ids[m], geoms[m]);
    } else {
      forall m | 0 <= m < n ensures (ids[m], geoms[m]) != (ids[n], geoms[n]) {
        assert s[..n][m] == s[m];
      }
    }
  }

  /** The positions `drop_duplicates` keeps in a two-column table: valid,
      increasing, pairwise distinct rows, and a row is kept exactly when no
      earlier row equals it. */
  lemma KeptRows<G>(ids: seq<CellId>, geoms: seq<G>)
    requires |ids| == |geoms|
    ensures var keep := FirstOccurrences(Pairs(ids, geoms));
            (forall k :: 0 <= k < |keep| ==> keep[k] < |ids|) &&
            (forall k, l :: 0 <= k < l < |keep| ==>
               keep[k] < keep[l] && (ids[keep[k]], geoms[keep[k]]) != (ids[keep[l]], geoms[keep[l]])) &&
            (forall n :: 0 <= n < |ids| ==>
               (n in keep <==> NoEarlierCopy(ids, geoms, n)))
  {
    var s := Pairs(ids, geoms);
    var keep := FirstOccurrences(s);
    FirstOccurrencesSpec(s);
    FirstOccurrencesDistinct(s);
    forall k, l | 0 <= k < l < |keep|
      ensures (ids[keep[k]], geoms[keep[k]]) != (ids[keep[l]], geoms[keep[l]])
    {
      assert s[keep[k]] != s[keep[l]];
    }
    forall n | 0 <= n < |ids|
      ensures n in keep <==> NoEarlierCopy(ids, geoms, n)
    {
      KeptRowFirst(ids, geoms, n);
    }
  }

  /** The table `drop_duplicates` builds from the kept positions holds
      input rows under their own labels, in label order, pairwise distinct. */
  lemma DroppedTableRows<G>(ids: seq<CellId>, geoms: seq<G>, keep: seq<nat>, t: seq<TableRow<G>>)
    requires |ids| == |geoms| && keep == FirstOccurrences(Pairs(ids, geoms))
    requires |t| == |keep| && forall k :: 0 <= k < |t| ==> t[k] == TableRow(keep[k], ids[keep[k]], geoms[keep[k]])
    ensures forall k :: 0 <= k < |t| ==>
              t[k].rowLabel < |ids| && t[k].id == ids[t[k].rowLabel] && t[k].geometry == geoms[t[k].rowLabel]
    ensures forall k, l :: 0 <= k < l < |t| ==>
              t[k].rowLabel < t[l].rowLabel && (t[k].id, t[k].geometry) != (t[l].id, t[l].geometry)
  {
    KeptRows(ids, geoms);
  }

  /** In that table, row n of the input appears exactly when no earlier
      input row equals it. */
  lemma DroppedTableFirst<G>(ids: seq<CellId>, geoms: seq<G>, keep: seq<nat>, t: seq<TableRow<G>>)
    requires |ids| == |geoms| && keep == FirstOccurrences(Pairs(ids, geoms))
    requires |t| == |keep| && forall k :: 0 <= k < |t| ==> t[k] == TableRow(keep[k], ids[keep[k]], geoms[keep[k]])
    ensures forall n :: 0 <= n < |ids| ==>
              ((exists k :: 0 <= k < |t| && t[k].rowLabel == n) <==>
               NoEarlierCopy(ids, geoms, n))
  {
    forall n | 0 <= n < |ids|
      ensures (exists k :: 0 <= k < |t| && t[k].rowLabel == n) <==>
              NoEarlierCopy(ids, geoms, n)
    {
      KeptRowFirst(ids, geoms, n);
      if n in keep {
        var k :| 0 <= k < |keep| && keep[k] == n;
        assert t[k].rowLabel == n;
      } else {
        forall k | 0 <= k < |t| ensures t[k].rowLabel != n {
          assert t[k].rowLabel == keep[k];
        }
      }
    }
  }

  /** `GeoDataFrame(ids, geometry=geoms).drop_duplicates()`: every kept row
      is an input row under its own label; labels increase; no two kept rows
      are equal; and row n is kept exactly when no earlier row equals it. */
  function DropDuplicates<G(==)>(ids: seq<CellId>, geoms: seq<G>): (t: seq<TableRow<G>>)
    requires |ids| == |geoms|
    ensures forall k :: 0 <= k < |t| ==>
              t[k].rowLabel < |ids| && t[k].id == ids[t[k].rowLabel] && t[k].geometry == geoms[t[k].rowLabel]
    ensures forall k, l :: 0 <= k < l < |t| ==>
              t[k].rowLabel < t[l].rowLabel && (t[k].id, t[k].geometry) != (t[l].id, t[l].geometry)
    ensures forall n :: 0 <= n < |ids| ==>
              ((exists k :: 0 <= k < |t| && t[k].rowLabel == n) <==>
               NoEarlierCopy(ids, geoms, n))
  {
    var keep := FirstOccurrences(Pairs(ids, geoms));
    var t := seq(|keep|, k requires 0 <= k < |keep| => TableRow(keep[k], ids[keep[k]], geoms[keep[k]]));
    DroppedTableRows(ids, geoms, keep, t);
    DroppedTableFirst(ids, geoms, keep, t);
    t
  }

  /** When the geometry is a function of the id, pairing ids with their
      geometries does not change which rows are duplicates. */
  lemma PairsKeepIdPattern<T>(ids: seq<CellId>, geoms: seq<T>, f: CellId -> T)
    requires |ids| == |geoms| && forall n :: 0 <= n < |ids| ==> geoms[n] == f(ids[n])
    ensures FirstOccurrences(Pairs(ids, geoms)) == FirstOccurrences(ids)
  {
    FirstOccurrencesSamePattern(Pairs(ids, geoms), ids);
  }

  /** The two de-duplicated tables built from lockstep lists: aligned row
      for row, one row per distinct cell at the position of its first
      occurrence, with no repeated id and every cell present. */
  lemma DeduplicatedTables(cells: seq<CellId>, polygons: seq<HexPolygon>, centroids: seq<PointXY>,
                           h3ToGeo: CellId -> (real, real), h3ToGeoBoundary: CellId -> seq<(real, real)>)
    requires |polygons| == |cells| && |centroids| == |cells|
    requires forall n :: 0 <= n < |cells| ==>
               polygons[n] == Boundary(h3ToGeoBoundary, cells[n]) && centroids[n] == Centroid(h3ToGeo, cells[n])
    ensures var keep := FirstOccurrences(cells);
            var hexes := DropDuplicates(cells, polygons);
            var cents := DropDuplicates(cells, centroids);
            |hexes| == |keep| && |cents| == |keep| &&
            (forall k :: 0 <= k < |keep| ==>
              hexes[k] == TableRow(keep[k], cells[keep[k]], Boundary(h3ToGeoBoundary, cells[keep[k]])) &&
              cents[k] == TableRow(keep[k], cells[keep[k]], Centroid(h3ToGeo, cells[keep[k]]))) &&
            (forall k, l :: 0 <= k < l < |hexes| ==> hexes[k].rowLabel < hexes[l].rowLabel && hexes[k].id != hexes[l].id) &&
            (forall c :: c in cells <==> exists k :: 0 <= k < |hexes| && hexes[k].id == c)
  {
    PairsKeepIdPattern(cells, polygons, c => Boundary(h3ToGeoBoundary, c));
    PairsKeepIdPattern(cells, centroids, c => Centroid(h3ToGeo, c));
    FirstOccurrencesSpec(cells);
    FirstOccurrencesDistinct(cells);
  }

  /** `gen_hexagons`. Ids, boundary polygons and centroids are appended in
      lockstep while looping over the exploded polygons and the cells
      polyfill returns for each; both tables then drop duplicate
      (id, geometry) rows, keeping first occurrences and their labels. */
  method GenHexagons<P>(resolution: int, city: seq<seq<P>>,
                        polyfill: (P, int) -> seq<CellId>,
                        h3ToGeo: CellId -> (real, real),
                        h3ToGeoBoundary: CellId -> seq<(real, real)>)
    returns (cityHexagons: seq<HexRow>, cityCentroids: seq<CentroidRow>)
    ensures var cells := Polyfilled(Explode(city), resolution, polyfill);
            var keep := FirstOccurrences(cells);
            |cityHexagons| == |keep| && |cityCentroids| == |keep| &&
            forall k :: 0 <= k < |keep| ==>
              cityHexagons[k] == TableRow(keep[k], cells[keep[k]], Boundary(h3ToGeoBoundary, cells[keep[k]])) &&
              cityCentroids[k] == TableRow(keep[k], cells[keep[k]], Centroid(h3ToGeo, cells[keep[k]]))
    ensures forall k, l :: 0 <= k < l < |cityHexagons| ==>
              cityHexagons[k].rowLabel < cityHexagons[l].rowLabel && cityHexagons[k].id != cityHexagons[l].id
    ensures forall c :: c in Polyfilled(Explode(city), resolution, polyfill) <==>
              exists k :: 0 <= k < |cityHexagons| && cityHexagons[k].id == c
  {
    var h3Centroids: seq<PointXY> := [];
    var h3Polygons: seq<HexPolygon> := [];
    var h3Indexes: seq<CellId> := [];

    var cityPoly := Explode(city);
    for ix := 0 to |cityPoly|
      invariant h3Indexes == Polyfilled(cityPoly[..ix], resolution, polyfill)
      invariant |h3Polygons| == |h3Indexes| && |h3Centroids| == |h3Indexes|
      invariant forall n :: 0 <= n < |h3Indexes| ==>
                  h3Polygons[n] == Boundary(h3ToGeoBoundary, h3Indexes[n]) &&
                  h3Centroids[n] == Centroid(h3ToGeo, h3Indexes[n])
    {
      var hexagons := polyfill(cityPoly[ix], resolution);
      assert cityPoly[..ix + 1][..ix] == cityPoly[..ix];
      ghost var before := h3Indexes;
      for j := 0 to |hexagons|
        invariant h3Indexes == before + hexagons[..j]
        invariant |h3Polygons| == |h3Indexes| && |h3Centroids| == |h3Indexes|
        invariant forall n :: 0 <= n < |h3Indexes| ==>
                    h3Polygons[n] == Boundary(h3ToGeoBoundary, h3Indexes[n]) &&
                    h3Centroids[n] == Centroid(h3ToGeo, h3Indexes[n])
      {
        var hexagon := hexagons[j];
        var centroidLat, centroidLon := h3ToGeo(hexagon).0, h3ToGeo(hexagon).1;
        h3Centroids := h3Centroids + [PointXY(centroidLon, centroidLat)];

        var h3GeoBoundary := ReversePairs(h3ToGeoBoundary(hexagon));
        assert HexPolygon(h3GeoBoundary) == Boundary(h3ToGeoBoundary, hexagon);
        h3Polygons := h3Polygons + [HexPolygon(h3GeoBoundary)];

        h3Indexes := h3Indexes + [hexagon];
        assert hexagons[..j + 1] == hexagons[..j] + [hexagon];
      }
      assert hexagons[..|hexagons|] == hexagons;
    }
    assert cityPoly[..|cityPoly|] == cityPoly;

    cityHexagons := DropDuplicates(h3Indexes, h3Polygons);
    cityCentroids := DropDuplicates(h3Indexes, h3Centroids);

    DeduplicatedTables(h3Indexes, h3Polygons, h3Centroids, h3ToGeo, h3ToGeoBoundary);
  }
}
