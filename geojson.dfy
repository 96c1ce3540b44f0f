/** GeoJSON reshaping utilities of urbanpy/utils/utils.py: `tuples_to_lists`
    (mutates a feature collection in place) and `shell_from_geometry`. */
module GeoJson {

  /** A value inside `__geo_interface__`: numbers, strings, and the tuples
      and lists that nest coordinates. */
  datatype Json = Num(v: real) | Str(s: string) | Tuple(items: seq<Json>) | List(items: seq<Json>)

  /** Python can iterate it (a tuple or a list). */
  predicate Iterable(j: Json) {
    j.Tuple? || j.List?
  }

  /** `list(x)`: a shallow copy of a tuple or list as a list. */
  function ToList(j: Json): Json
    requires Iterable(j)
  {
    List(j.items)
  }

  /** The coordinates `tuples_to_lists` can convert without raising: an
      iterable of at least one ring, every ring iterable, and every position
      of the first ring iterable. */
  predicate Convertible(coords: Json) {
    Iterable(coords) && |coords.items| > 0 &&
    (forall i :: 0 <= i < |coords.items| ==> Iterable(coords.items[i])) &&
    (forall k :: 0 <= k < |coords.items[0].items| ==> Iterable(coords.items[0].items[k]))
  }

  /** The new value of a feature's coordinates: every ring is listed
      (`t`), then only the first ring is kept, its positions as lists. */
  function FirstRingAsLists(coords: Json): Json
    requires Convertible(coords)
  {
    var t := seq(|coords.items|, i requires 0 <= i < |coords.items| => ToList(coords.items[i]));
    var ring := t[0].items;
    List([List(seq(|ring|, k requires 0 <= k < |ring| => ToList(ring[k])))])
  }

  /** Converting is idempotent: the converted coordinates are convertible
      and converting them again changes nothing. */
  lemma FirstRingAsListsIdempotent(coords: Json)
    requires Convertible(coords)
    ensures Convertible(FirstRingAsLists(coords))
    ensures FirstRingAsLists(FirstRingAsLists(coords)) == FirstRingAsLists(coords)
  {
    var r := FirstRingAsLists(coords);
    var r2 := FirstRingAsLists(r);
    assert r2.items[0].items == r.items[0].items;
    assert r2.items == r.items;
  }

  datatype Geometry = Geometry(geometryType: string, coordinates: Json)

  /** A feature: its id, its properties, and its geometry. */
  datatype Feature = Feature(id: Json, properties: map<string, Json>, geometry: Geometry)

  /** One feature after the loop body ran on it: only its coordinates change. */
  function ConvertFeature(f: Feature): Feature
    requires Convertible(f.geometry.coordinates)
  {
    f.(geometry := f.geometry.(coordinates := FirstRingAsLists(f.geometry.coordinates)))
  }

  /** A GeoJSON feature collection, a dict the helper mutates in place. */
  class FeatureCollection {
    var collectionType: string
    var features: seq<Feature>

    constructor (features: seq<Feature>)
      ensures this.collectionType == "FeatureCollection" && this.features == features
    {
      this.collectionType := "FeatureCollection";
      this.features := features;
    }
  }

  /** `tuples_to_lists`: rewrite every feature's coordinates in place, keeping
      only the first ring, and return the same collection. */
  method TuplesToLists(json: FeatureCollection) returns (r: FeatureCollection)
    requires forall i :: 0 <= i < |json.features| ==> Convertible(json.features[i].geometry.coordinates)
    modifies json
    ensures r == json
    ensures json.collectionType == old(json.collectionType)
    ensures |json.features| == |old(json.features)|
    ensures forall i :: 0 <= i < |json.features| ==> json.features[i] == ConvertFeature(old(json.features[i]))
  {
    for i := 0 to |json.features|
      invariant |json.features| == |old(json.features)|
      invariant json.collectionType == old(json.collectionType)
      invariant forall j :: 0 <= j < i ==> json.features[j] == ConvertFeature(old(json.features[j]))
      invariant forall j :: i <= j < |json.features| ==> json.features[j] == old(json.features[j])
    {
      var t := json.features[i].geometry.coordinates;
      var poly := FirstRingAsLists(t);
      json.features := json.features[i := json.features[i].(geometry := json.features[i].geometry.(coordinates := poly))];
    }
    r := json;
  }

  /** `shell_from_geometry`: one `[lon, lat]` pair per record, in order. */
  method ShellFromGeometry(geometry: seq<map<string, real>>) returns (shell: seq<seq<real>>)
    requires forall i :: 0 <= i < |geometry| ==> "lon" in geometry[i] && "lat" in geometry[i]
    ensures |shell| == |geometry|
    ensures forall i :: 0 <= i < |geometry| ==> shell[i] == [geometry[i]["lon"], geometry[i]["lat"]]
  {
    shell := [];
    for n := 0 to |geometry|
      invariant |shell| == n
      invariant forall i :: 0 <= i < n ==> shell[i] == [geometry[i]["lon"], geometry[i]["lat"]]
    {
      var record := geometry[n];
      shell := shell + [[record["lon"], record["lat"]]];
    }
  }
}
