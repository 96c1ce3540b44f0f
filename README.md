# urbanpy core, modelled in Dafny

urbanpy is a set of geospatial helpers for urban analytics. This model covers
the parts of it that are its own logic rather than calls into geopandas, h3,
shapely, osmnx or scikit-learn:

- **Bounds filter** (`filter_population`, `remove_features`). A population table
  is a sequence of rows. Each row holds an index label, latitude, longitude,
  other columns and an optional point geometry. `filter_population` keeps the
  rows inside the inclusive total bounds of a polygon set and attaches
  `Point(lon, lat)` to each. `remove_features` drops, by index label, the rows
  inside an explicit `[miny, maxy, minx, maxx]` box.
- **Hexagon tiler** (`gen_hexagons`). A method with the source's nested loops.
  It appends cell ids, boundary polygons and centroids in lockstep, reversing
  h3's (lat, lon) pairs to (lon, lat). Both tables then drop duplicate rows,
  keeping the first occurrence and its index label. `polyfill`, `h3_to_geo` and
  `h3_to_geo_boundary` are function-valued parameters.
- **Spatial aggregator** (`merge_shape_hex`). The join result is an input: one
  row per (point, hexagon) match, holding `index_right` and the point's
  columns. A left join also keeps each point that lies in no hexagon, as a row
  with a NaN `index_right` (`None` in the model). The method groups the rows by
  hexagon label, which leaves out the NaN rows, and reduces each requested
  column with sum, min or max. It writes the results, label by label,
  into a copy of the hexagon table.
- **Coordinate swap** (`swap_xy`). A specification function by structural
  recursion over a tagged geometry: Point / LineString / LinearRing, Polygon
  (shell and holes), the Multi kinds and GeometryCollection, and any other
  kind. A method follows the source: it rewrites the holes list in a loop and
  recurses over the parts.
- **Small utilities.** `tuples_to_lists` is a method that mutates a
  feature-collection object in place. `shell_from_geometry` is a method with an
  append loop. `create_duration_labels` is a method that follows the source's
  list steps and is proved against a predicate that fixes its result.

Modules: `Common` (Option, Result, Error, point), `Seqs` (mask selection,
first occurrences, numeric folds), `Bounds`, `Hexagons`, `Aggregate`, `Swap`,
`GeoJson`, `Durations`.

Notes on how the model reads the code:

- The `merge_shape_hex` docstring lists sum, min and max as the allowed
  reducers (urbanpy/geom/geom.py:222-223). The code performs no validation and
  hands `agg` to pandas. The model restricts the reducer by type, through
  `Reducer`.
- For a rounded-up maximum m of at most 120, `create_duration_labels` stops
  the bins at the smallest default edge at or above m. For example, a maximum
  of 50 gives `[0,15,30,45,60]` and four labels. For m strictly between 90 and
  120, the appended edge is sliced away again, so the seven default edges come
  back with six labels.
- `drop_duplicates` compares whole (id, geometry) rows.
  `Hexagons.PairsKeepIdPattern` shows that this keeps the same rows as
  de-duplication by id whenever the geometry is a function of the id.

## Model

| member | source | states |
|---|---|---|
| `Bounds.TotalBounds` | urbanpy/geom/geom.py:85 | the total bounds contain every polygon's bounds, and each of the four sides is attained by some polygon |
| `Bounds.FilterPopulation` | urbanpy/geom/geom.py:85-92 | every kept row lies inside the inclusive total bounds and carries `Point(longitude, latitude)`; there are never more rows than the input; an empty polygon set (all-NaN bounds) keeps nothing |
| `Bounds.FilterPopulationSingle` | urbanpy/geom/geom.py:86-90 | a single row is kept, with its point attached, exactly when minx ≤ lon ≤ maxx and miny ≤ lat ≤ maxy |
| `Bounds.FilterPopulationConcat` | urbanpy/geom/geom.py:86-87 | filtering a concatenation gives the concatenation of the filtered parts, so each row is decided alone and input order is kept |
| `Bounds.FilterPopulationExact` | urbanpy/geom/geom.py:85-90 | a row is in the output iff it is some input row inside the bounds with its point attached |
| `Bounds.RemoveFeatures` | urbanpy/geom/geom.py:123-127 | unpacking fails (ValueError) iff the bounds do not have four values, and the message says "not enough values to unpack" exactly when there are fewer than four; otherwise the result never has more rows than the input |
| `Bounds.RemoveFeaturesKeepsOutside` | urbanpy/geom/geom.py:123-127 | with unique index labels, exactly the rows outside the inclusive `[miny, maxy, minx, maxx]` box remain, in input order |
| `Bounds.RemoveFeaturesIdempotent` | urbanpy/geom/geom.py:124-127 | a second call with the same bounds removes nothing, with or without duplicate labels |
| `Bounds.DropIsMask` | urbanpy/geom/geom.py:125-127 | dropping by label equals masking by "label not selected" when label membership matches the mask |
| `Seqs.Masked` | urbanpy/geom/geom.py:87 | boolean-mask selection returns no more rows than it is given |
| `Seqs.MaskedMembership` | urbanpy/geom/geom.py:87 | a value is selected iff it sits at some position whose mask entry is true |
| `Seqs.MaskedConcat` | urbanpy/geom/geom.py:87 | mask selection distributes over concatenation, so it preserves order |
| `Seqs.FirstOccurrences` | urbanpy/geom/geom.py:193 | `drop_duplicates` keeps only valid row positions |
| `Seqs.FirstOccurrencesSpec` | urbanpy/geom/geom.py:193 | kept positions are strictly increasing, and position i is kept iff its value does not occur before i |
| `Seqs.FirstOccurrencesKept` | urbanpy/geom/geom.py:193 | a row is kept iff no earlier row equals it |
| `Seqs.FirstOccurrencesDistinct` | urbanpy/geom/geom.py:193 | after dropping duplicates no value repeats, and every input value is still present |
| `Seqs.FirstOccurrencesSamePattern` | urbanpy/geom/geom.py:193-195 | two sequences with the same equality pattern keep the same positions |
| `Seqs.MinOf` | urbanpy/geom/geom.py:251 | the `min` reducer returns a member of the group that is at most every member |
| `Seqs.MaxOf` | urbanpy/geom/geom.py:251 | the `max` reducer returns a member of the group that is at least every member |
| `Seqs.SumOfConcat` | urbanpy/geom/geom.py:251 | the `sum` of a concatenation is the sum of the parts' sums |
| `Hexagons.ReversePairs` | urbanpy/geom/geom.py:187 | the in-place loop reverses every pair and keeps their count and order |
| `Hexagons.KeptRowFirst` | urbanpy/geom/geom.py:193-195 | an (id, geometry) row is among the first occurrences iff no earlier row has the same id and geometry |
| `Hexagons.KeptRows` | urbanpy/geom/geom.py:193-195 | the kept row positions are valid and strictly increasing, no two kept rows are equal, and a row is kept iff no earlier row equals it |
| `Hexagons.DropDuplicates` | urbanpy/geom/geom.py:193-195 | each kept row is the input row under its original label; labels strictly increase; no two kept rows have the same id and geometry; row n is kept iff no earlier row equals it (used for both the hexagon and the centroid table) |
| `Hexagons.PairsKeepIdPattern` | urbanpy/geom/geom.py:193-195 | when geometry is a function of the id, de-duplicating (id, geometry) rows keeps the same rows as de-duplicating ids |
| `Hexagons.DeduplicatedTables` | urbanpy/geom/geom.py:193-195 | the two tables are row-aligned with equal labels and ids; labels increase; ids are pairwise distinct; the id set equals the set of cells polyfill returned |
| `Hexagons.GenHexagons` | urbanpy/geom/geom.py:172-198 | row k of both outputs is the k-th first occurrence of the cells visited in loop order (polyfill of each exploded polygon), with that cell's reversed boundary and its (lon, lat) centroid; ids are distinct and cover every visited cell |
| `Aggregate.GroupValuesNonEmpty` | urbanpy/geom/geom.py:251 | the values collected for a label are non-empty iff some joined row carries that label |
| `Aggregate.Group` | urbanpy/geom/geom.py:251 | a label's group is non-empty iff some joined row matched that label; rows with a NaN `index_right` form no group |
| `Aggregate.Aggregated` | urbanpy/geom/geom.py:251 | the per-column aggregate has a value exactly for the labels that have joined rows |
| `Aggregate.GroupAgg` | urbanpy/geom/geom.py:251 | `groupby('index_right').agg(agg)` gives every requested column its reducer's per-label aggregate |
| `Aggregate.WrittenBackMeaning` | urbanpy/geom/geom.py:256-257 | after the write-back, a label with joined rows holds the reduction of its group; any other label keeps its previous value, or stays NaN when the column is new |
| `Aggregate.WriteBackStep` | urbanpy/geom/geom.py:256-257 | one `.loc` assignment extends the written-back prefix of `agg` by one column and touches no other column |
| `Aggregate.WrittenUpToAll` | urbanpy/geom/geom.py:254-259 | the finished copy, read label by label, holds the aggregates for matched labels and previous values elsewhere |
| `Aggregate.MergeShapeHex` | urbanpy/geom/geom.py:248-259 | the result keeps the input's rows and geometries; it adds or overwrites only the `agg` columns, each holding its group's sum/min/max where a label has joined rows and the previous value (NaN if new) elsewhere; rows of unmatched points (NaN `index_right`) are accepted and contribute nothing; the input is a value and stays unchanged |
| `Aggregate.GroupConcat` | urbanpy/geom/geom.py:251 | grouping is row-local: over two batches, a label's group is the first batch's group followed by the second's |
| `Aggregate.GroupSkipsUnmatched` | urbanpy/geom/geom.py:251 | inserting a row with a NaN `index_right` anywhere leaves every label's group unchanged |
| `Aggregate.UnmatchedRowsIgnored` | urbanpy/geom/geom.py:248-251 | a point a left join kept without a hexagon changes neither the set of group labels nor any aggregate, wherever it appears |
| `Aggregate.ReduceConcat` | urbanpy/geom/geom.py:251 | reducing a whole group with sum, min or max equals combining the reductions of any split of it |
| `Aggregate.AggregatedSplits` | urbanpy/geom/geom.py:251 | for a label matched in two batches, its aggregate over both combines its per-batch aggregates |
| `Aggregate.SumExample` | urbanpy/geom/geom.py:239-245 | cell A with values 10 and 20 and cell B with value 5 sum to A = 30 and B = 5; an unmatched point with value 7 counts for no cell, and no other cell gets a value |
| `Swap.SwapXY` | urbanpy/utils/utils.py:15-62 | the method, with its in-place holes loop and recursion over parts, returns exactly `Swapped(g)` |
| `Swap.SwappedPartsPointwise` | urbanpy/utils/utils.py:58-60 | swapping a collection's parts succeeds iff every part swaps, and then keeps part count and order |
| `Swap.SwappedPartsErrPersists` | urbanpy/utils/utils.py:60 | an error raised by an earlier part escapes from the whole comprehension |
| `Swap.SwapKeepsEmptiness` | urbanpy/utils/utils.py:36-37 | a swapped geometry is empty iff the original was |
| `Swap.SwapTwice` | urbanpy/utils/utils.py:36-60 | swapping twice returns the original geometry, coordinate for coordinate, for every input that does not raise |
| `Swap.SwapFailsIffUnknown` | urbanpy/utils/utils.py:36-62 | `ValueError` is raised iff a non-empty geometry of an unrecognised kind is reached; an empty geometry of any kind is returned unchanged |
| `Swap.SwapCoordinatewise` | urbanpy/utils/utils.py:39-60 | an accepted geometry keeps its layout (kinds, coordinate, hole and part counts); its coordinates, read in order, are the swapped originals |
| `Swap.EmptyHasNoCoords` | urbanpy/utils/utils.py:36-37 | an empty geometry has no coordinates |
| `GeoJson.FirstRingAsListsIdempotent` | urbanpy/utils/utils.py:135-139 | the converted coordinates can be converted again, and converting them changes nothing |
| `GeoJson.TuplesToLists` | urbanpy/utils/utils.py:135-141 | the same collection object is returned with its feature count kept and every feature converted in place |
| `GeoJson.ShellFromGeometry` | urbanpy/utils/utils.py:148-151 | the result has one element per record; element i is `[record_i['lon'], record_i['lat']]` |
| `Durations.Ceil` | urbanpy/utils/utils.py:180 | `ceil` returns the least integer at or above its argument |
| `Durations.InsertSorted` | urbanpy/utils/utils.py:182-183 | `sorted(set([m] + bins))` is strictly increasing and holds exactly m and the bins |
| `Durations.IndexOf` | urbanpy/utils/utils.py:184 | `index` returns the first position holding the value |
| `Durations.IndexPastSmallerHead` | urbanpy/utils/utils.py:182-184 | when m exceeds the first edge, its index after insertion is one more than its index in the remaining edges |
| `Durations.CountBelowSplits` | urbanpy/utils/utils.py:182-184 | in increasing edges, the edges below m are exactly a prefix and the rest are at or above m |
| `Durations.IndexIsCountBelow` | urbanpy/utils/utils.py:182-184 | the index of m in `sorted(set([m] + bins))` is the number of edges below m |
| `Durations.IndexAfterInsert` | urbanpy/utils/utils.py:182-184 | the index of m after insertion is the number of default edges below m |
| `Durations.SlicesMeetBinning` | urbanpy/utils/utils.py:186-190 | after the optional append, the two slices satisfy `DurationBinning` |
| `Durations.CreateDurationLabels` | urbanpy/utils/utils.py:173-192 | an empty series raises; otherwise there is one label per bin, bins start at 0 and strictly increase, and labels are a prefix of the defaults; if m = ceil(max) > 120, the bins are the defaults plus m with all seven labels; otherwise they are the defaults up to the smallest edge ≥ m |
| `Durations.DurationBinningUnique` | urbanpy/utils/utils.py:173-192 | at most one binning satisfies the method's postcondition for a given m, so that postcondition fixes the result |
| `Durations.DurationExamples` | urbanpy/utils/utils.py:180-190 | maximum 50 gives edges up to 60 with four labels; maximum 100 gives the seven default edges with six labels, because the appended edge is sliced away; maximum 150 gives the defaults plus 150 with all seven labels |

## Left out

- `merge_geom_downloads`: a shapely `unary_union`. That is polygon algebra inside a library that is not part of this model.
- `osmnx_graph_download`: network downloads, osmnx graph statistics and per-row exception printing. Everything it stores comes from foreign calls.
- `nn_search`: a scikit-learn BallTree over floating-point radians with haversine scaling.
- The spatial predicate and join semantics of `gpd.sjoin` are not modelled. Its result is an input of `MergeShapeHex`. The `how='right'` variant, which has no `index_right` column, is not modelled.
- h3 internals are not modelled. `polyfill`, `h3_to_geo` and `h3_to_geo_boundary` are arbitrary given functions, and nothing is claimed about coverage or containment. Polyfill's Python set is a sequence in whatever order it is iterated.
- `city.explode()` is modelled as flattening each row's list of polygons.
- Shapely's closing of polygon rings is not modelled. A `HexPolygon` keeps the vertex list as built.
- `drop_duplicates` compares geometries by value equality.
- NaN is not modelled. Coordinates and column values are exact reals. Pandas' skipping of NaN in reductions, NaN coordinates and IEEE rounding in sums are out of scope. A missing label in a column map stands for NaN.
- Index labels in `remove_features` may repeat. In that case dropping by label also removes outside rows that share a label with an inside row. `RemoveFeaturesKeepsOutside` assumes unique labels for this reason.
- `MergeShapeHex`: the reducer is one of sum/min/max by type, because the code performs no validation. Every joined row must carry the aggregated columns, which is pandas' KeyError otherwise. A non-NaN `index_right` must be a label of the hexagon table, which holds for any `sjoin` against that table. A requested column with no joined rows is created with every label NaN.
- `TuplesToLists` requires every feature to be convertible. The source raises IndexError or TypeError on the first bad feature, after it has already rewritten the features before it. That partial mutation is not modelled.
- `ShellFromGeometry` requires every record to have `lon` and `lat`. A missing key is Python's KeyError.
- `SwapXY` chooses the two- or three-component swap per coordinate rather than per geometry through `has_z`. Shapely stores one dimension per geometry, so the two agree. Shapely's constructor validation, such as minimum ring sizes, is not modelled.
- `@jit`, tqdm progress output and CRS strings are not modelled.
