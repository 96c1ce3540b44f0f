/** The coordinate swap `swap_xy` of urbanpy/utils/utils.py, as a structural
    recursion over a tagged geometry variant. */
module Swap {
  import opened Common

  /** A coordinate. A shapely geometry stores all its coordinates with the
      same dimension, so choosing the swap per coordinate is the same as the
      source's choice per geometry through `has_z`. */
  datatype Coord = XY(x: real, y: real) | XYZ(x: real, y: real, z: real)

  type Ring = seq<Coord>

  datatype SimpleKind = Point | LineString | LinearRing

  /** Every kind whose name starts with "Multi", and "GeometryCollection". */
  datatype CollectionKind = MultiPoint | MultiLineString | MultiPolygon | GeometryCollection

  datatype Geometry =
    | Simple(kind: SimpleKind, coords: seq<Coord>)
    | Polygon(shell: Ring, holes: seq<Ring>)
    | Collection(ckind: CollectionKind, parts: seq<Geometry>)
      /** Any other geometry type, known only by its name and emptiness. */
    | Other(typeName: string, empty: bool)

  /** `geom.is_empty`: no coordinates at all (a collection is empty when all
      its parts are). */
  predicate IsEmpty(g: Geometry)
    decreases g
  {
    match g
    case Simple(_, cs) => cs == []
    case Polygon(shell, holes) => shell == [] && forall i :: 0 <= i < |holes| ==> holes[i] == []
    case Collection(_, parts) => forall i :: 0 <= i < |parts| ==> IsEmpty(parts[i])
    case Other(_, empty) => empty
  }

  function SwapCoord(c: Coord): Coord {
    match c
    case XY(x, y) => XY(y, x)
    case XYZ(x, y, z) => XYZ(y, x, z)
  }

  /** The generator `swap_xy_coords` drained into a list. */
  function SwapCoords(cs: seq<Coord>): seq<Coord>
  {
    seq(|cs|, i requires 0 <= i < |cs| => SwapCoord(cs[i]))
  }

  function SwapRings(rings: seq<Ring>): seq<Ring>
  {
    seq(|rings|, i requires 0 <= i < |rings| => SwapCoords(rings[i]))
  }

  /** Specification of `swap_xy`: empty geometries come back unchanged, an
      unrecognised non-empty kind is a `ValueError`, simple geometries and
      polygons get every coordinate swapped, and collections are swapped
      part by part (the first failing part's error escapes). */
  function Swapped(g: Geometry): Result<Geometry>
    decreases g, 1
  {
    if IsEmpty(g) then Ok(g)
    else match g
      case Simple(kind, cs) => Ok(Simple(kind, SwapCoords(cs)))
      case Polygon(shell, holes) => Ok(Polygon(SwapCoords(shell), SwapRings(holes)))
      case Collection(ckind, parts) =>
        (match SwappedParts(parts)
         case Ok(qs) => Ok(Collection(ckind, qs))
         case Err(e) => Err(e))
      case Other(name, _) => Err(ValueError("Type '" + name + "' not recognized"))
  }

  /** The list comprehension over `geom.geoms`, evaluated left to right. */
  function SwappedParts(parts: seq<Geometry>): Result<seq<Geometry>>
    decreases parts, 0
  {
    if |parts| == 0 then Ok([])
    else match SwappedParts(parts[..|parts| - 1])
      case Err(e) => Err(e)
      case Ok(qs) =>
        match Swapped(parts[|parts| - 1])
        case Err(e) => Err(e)
        case Ok(q) => Ok(qs + [q])
  }

  /** Once a prefix of the parts fails, the whole comprehension fails with
      the same error. */
  lemma {:induction false} SwappedPartsErrPersists(parts: seq<Geometry>, n: nat)
    requires n <= |parts| && SwappedParts(parts[..n]).Err?
    ensures SwappedParts(parts) == SwappedParts(parts[..n])
    decreases |parts| - n
  {
    if n < |parts| {
      assert parts[..n + 1][..n] == parts[..n];
      SwappedPartsErrPersists(parts, n + 1);
    } else {
      assert parts[..n] == parts;
    }
  }

  /** `swap_xy`. The holes of a polygon are rewritten in place in a loop;
      the parts of a collection are swapped by recursive calls. */
  method SwapXY(g: Geometry) returns (r: Result<Geometry>)
    ensures r == Swapped(g)
    decreases g
  {
    if IsEmpty(g) {
      return Ok(g);
    }
    match g
    case Simple(kind, cs) =>
      r := Ok(Simple(kind, SwapCoords(cs)));
    case Polygon(ring, interiors) =>
      var shell := SwapCoords(ring);
      var holes := interiors;
      for pos := 0 to |holes|
        invariant |holes| == |interiors|
        invariant forall j :: 0 <= j < pos ==> holes[j] == SwapCoords(interiors[j])
        invariant forall j :: pos <= j < |holes| ==> holes[j] == interiors[j]
      {
        holes := holes[pos := SwapCoords(holes[pos])];
      }
      assert holes == SwapRings(interiors);
      r := Ok(Polygon(shell, holes));
    case Collection(ckind, parts) =>
      var qs: seq<Geometry> := [];
      var i := 0;
      while i < |parts|
        invariant 0 <= i <= |parts|
        invariant SwappedParts(parts[..i]) == Ok(qs)
      {
        var q := SwapXY(parts[i]);
        assert parts[..i + 1][..i] == parts[..i];
        if q.Err? {
          SwappedPartsErrPersists(parts, i + 1);
          return Err(q.error);
        }
        qs := qs + [q.value];
        i := i + 1;
      }
      assert parts[..|parts|] == parts;
      r := Ok(Collection(ckind, qs));
    case Other(name, _) =>
      r := Err(ValueError("Type '" + name + "' not recognized"));
  }

  /** Swapping the parts of a collection succeeds exactly when every part
      swaps, and then yields the parts' results in order. */
  lemma {:induction false} SwappedPartsPointwise(parts: seq<Geometry>, qs: seq<Geometry>)
    ensures SwappedParts(parts) == Ok(qs) <==>
              |qs| == |parts| && forall i :: 0 <= i < |parts| ==> Swapped(parts[i]) == Ok(qs[i])
    decreases |parts|
  {
    if |parts| > 0 {
      var n := |parts| - 1;
      if |qs| == |parts| {
        SwappedPartsPointwise(parts[..n], qs[..n]);
        assert qs == qs[..n] + [qs[n]];
      }
      if SwappedParts(parts) == Ok(qs) {
        var pre := SwappedParts(parts[..n]).value;
        SwappedPartsPointwise(parts[..n], pre);
        assert qs == pre + [qs[n]];
        assert qs[..n] == pre;
      }
    }
  }

  /** Swapping keeps a geometry empty or non-empty. */
  lemma {:induction false} SwapKeepsEmptiness(g: Geometry)
    requires Swapped(g).Ok?
    ensures IsEmpty(Swapped(g).value) <==> IsEmpty(g)
    decreases g
  {
    if !IsEmpty(g) && g.Collection? {
      var qs := SwappedParts(g.parts).value;
      SwappedPartsPointwise(g.parts, qs);
      forall i | 0 <= i < |qs| ensures IsEmpty(qs[i]) <==> IsEmpty(g.parts[i]) {
        SwapKeepsEmptiness(g.parts[i]);
      }
    } else if !IsEmpty(g) && g.Polygon? {
      var h := Swapped(g).value;
      forall i | 0 <= i < |g.holes| ensures h.holes[i] == [] <==> g.holes[i] == [] {
        assert |h.holes[i]| == |g.holes[i]|;
      }
    }
  }

  /** `swap_xy` is an involution: swapping the result again gives back the
      original geometry, coordinate for coordinate. */
  lemma {:induction false} SwapTwice(g: Geometry)
    requires Swapped(g).Ok?
    ensures Swapped(Swapped(g).value) == Ok(g)
    decreases g
  {
    var h := Swapped(g).value;
    SwapKeepsEmptiness(g);
    if !IsEmpty(g) {
      match g
      case Simple(kind, cs) =>
        assert SwapCoords(SwapCoords(cs)) == cs;
      case Polygon(shell, holes) =>
        assert SwapCoords(SwapCoords(shell)) == shell;
        forall i | 0 <= i < |holes| ensures SwapCoords(SwapCoords(holes[i])) == holes[i] { }
        assert SwapRings(SwapRings(holes)) == holes;
      case Collection(ckind, parts) =>
        var qs := SwappedParts(parts).value;
        SwappedPartsPointwise(parts, qs);
        forall i | 0 <= i < |qs| ensures Swapped(qs[i]) == Ok(parts[i]) {
          SwapTwice(parts[i]);
        }
        SwappedPartsPointwise(qs, parts);
    }
  }

  /** A non-empty geometry of an unrecognised kind, or a non-empty collection
      holding one at any depth. */
  predicate HasUnknown(g: Geometry)
    decreases g
  {
    !IsEmpty(g) &&
    match g
    case Other(_, _) => true
    case Collection(_, parts) => exists i :: 0 <= i < |parts| && HasUnknown(parts[i])
    case _ => false
  }

  /** `swap_xy` raises `ValueError` exactly when an unrecognised non-empty
      geometry is reached; an empty geometry comes back as it is. */
  lemma {:induction false} SwapFailsIffUnknown(g: Geometry)
    ensures Swapped(g).Err? <==> HasUnknown(g)
    ensures IsEmpty(g) ==> Swapped(g) == Ok(g)
    decreases g
  {
    if !IsEmpty(g) && g.Collection? {
      var parts := g.parts;
      forall i | 0 <= i < |parts| ensures Swapped(parts[i]).Err? <==> HasUnknown(parts[i]) {
        SwapFailsIffUnknown(parts[i]);
      }
      if SwappedParts(parts).Ok? {
        SwappedPartsPointwise(parts, SwappedParts(parts).value);
      } else {
        var qs := seq(|parts|, i requires 0 <= i < |parts| =>
                        if Swapped(parts[i]).Ok? then Swapped(parts[i]).value else parts[i]);
        SwappedPartsPointwise(parts, qs);
        assert exists i :: 0 <= i < |parts| && Swapped(parts[i]).Err?;
      }
    }
  }

  /** Every coordinate of a geometry, in shapely's traversal order: shell
      before holes, parts in order. */
  function AllCoords(g: Geometry): seq<Coord>
    decreases g, 1
  {
    match g
    case Simple(_, cs) => cs
    case Polygon(shell, holes) => shell + RingCoords(holes)
    case Collection(_, parts) => PartCoords(parts)
    case Other(_, _) => []
  }

  function RingCoords(rings: seq<Ring>): seq<Coord>
    decreases |rings|
  {
    if |rings| == 0 then [] else RingCoords(rings[..|rings| - 1]) + rings[|rings| - 1]
  }

  function PartCoords(parts: seq<Geometry>): seq<Coord>
    decreases parts, 0
  {
    if |parts| == 0 then [] else PartCoords(parts[..|parts| - 1]) + AllCoords(parts[|parts| - 1])
  }

  /** The layout of a geometry with its coordinates erased: kinds, counts of
      coordinates, holes and parts. */
  datatype Layout =
    | SimpleLayout(kind: SimpleKind, count: nat)
    | PolygonLayout(shellCount: nat, holeCounts: seq<nat>)
    | CollectionLayout(ckind: CollectionKind, parts: seq<Layout>)
    | OtherLayout(typeName: string, empty: bool)

  function LayoutOf(g: Geometry): Layout
    decreases g
  {
    match g
    case Simple(kind, cs) => SimpleLayout(kind, |cs|)
    case Polygon(shell, holes) =>
      PolygonLayout(|shell|, seq(|holes|, i requires 0 <= i < |holes| => |holes[i]|))
    case Collection(ckind, parts) =>
      CollectionLayout(ckind, seq(|parts|, i requires 0 <= i < |parts| => LayoutOf(parts[i])))
    case Other(name, empty) => OtherLayout(name, empty)
  }

  lemma SwapCoordsConcat(a: seq<Coord>, b: seq<Coord>)
    ensures SwapCoords(a + b) == SwapCoords(a) + SwapCoords(b)
  {
    assert forall i :: 0 <= i < |a| ==> (a + b)[i] == a[i];
    assert forall i :: 0 <= i < |b| ==> (a + b)[|a| + i] == b[i];
  }

  lemma {:induction false} RingCoordsSwapped(rings: seq<Ring>)
    ensures RingCoords(SwapRings(rings)) == SwapCoords(RingCoords(rings))
    decreases |rings|
  {
    if |rings| > 0 {
      var n := |rings| - 1;
      assert SwapRings(rings)[..n] == SwapRings(rings[..n]);
      RingCoordsSwapped(rings[..n]);
    }
  }

  lemma {:induction false} EmptyHasNoCoords(g: Geometry)
    requires IsEmpty(g)
    ensures AllCoords(g) == []
    decreases g, 1
  {
    match g
    case Polygon(shell, holes) => EmptyRingsNoCoords(holes);
    case Collection(_, parts) => EmptyPartsNoCoords(parts);
    case _ =>
  }

  lemma {:induction false} EmptyRingsNoCoords(rings: seq<Ring>)
    requires forall i :: 0 <= i < |rings| ==> rings[i] == []
    ensures RingCoords(rings) == []
    decreases |rings|
  {
    if |rings| > 0 {
      EmptyRingsNoCoords(rings[..|rings| - 1]);
    }
  }

  lemma {:induction false} EmptyPartsNoCoords(parts: seq<Geometry>)
    requires forall i :: 0 <= i < |parts| ==> IsEmpty(parts[i])
    ensures PartCoords(parts) == []
    decreases parts, 0
  {
    if |parts| > 0 {
      EmptyHasNoCoords(parts[|parts| - 1]);
      EmptyPartsNoCoords(parts[..|parts| - 1]);
    }
  }

  /** What `swap_xy` does to a geometry it accepts: the layout (kind, number
      and order of coordinates, holes and parts) is kept, and the coordinate
      list, read in order, has every (x, y) turned into (y, x) and every
      (x, y, z) into (y, x, z). */
  lemma {:induction false} SwapCoordinatewise(g: Geometry)
    requires Swapped(g).Ok?
    ensures LayoutOf(Swapped(g).value) == LayoutOf(g)
    ensures AllCoords(Swapped(g).value) == SwapCoords(AllCoords(g))
    decreases g, 1
  {
    if IsEmpty(g) {
      EmptyHasNoCoords(g);
    } else {
      match g
      case Simple(_, _) =>
      case Polygon(shell, holes) =>
        SwapPolygonCoordinatewise(shell, holes);
      case Collection(ckind, parts) =>
        var qs := SwappedParts(parts).value;
        SwappedPartsPointwise(parts, qs);
        forall i | 0 <= i < |parts| ensures LayoutOf(qs[i]) == LayoutOf(parts[i]) {
          SwapCoordinatewise(parts[i]);
        }
        SameLayoutParts(ckind, parts, qs);
        SwapPartCoords(parts, qs);
      case Other(_, _) =>
    }
  }

  /** Collections whose parts have the same layouts have the same layout. */
  lemma SameLayoutParts(ckind: CollectionKind, parts: seq<Geometry>, qs: seq<Geometry>)
    requires |qs| == |parts| && forall i :: 0 <= i < |parts| ==> LayoutOf(qs[i]) == LayoutOf(parts[i])
    ensures LayoutOf(Collection(ckind, qs)) == LayoutOf(Collection(ckind, parts))
  {
  }

  /** The polygon case of `SwapCoordinatewise`. */
  lemma SwapPolygonCoordinatewise(shell: Ring, holes: seq<Ring>)
    ensures LayoutOf(Polygon(SwapCoords(shell), SwapRings(holes))) == LayoutOf(Polygon(shell, holes))
    ensures AllCoords(Polygon(SwapCoords(shell), SwapRings(holes))) == SwapCoords(AllCoords(Polygon(shell, holes)))
  {
    RingCoordsSwapped(holes);
    SwapCoordsConcat(shell, RingCoords(holes));
  }

  lemma {:induction false} SwapPartCoords(parts: seq<Geometry>, qs: seq<Geometry>)
    requires |qs| == |parts| && forall i :: 0 <= i < |parts| ==> Swapped(parts[i]) == Ok(qs[i])
    ensures PartCoords(qs) == SwapCoords(PartCoords(parts))
    decreases parts, 0
  {
    if |parts| > 0 {
      var n := |parts| - 1;
      SwapPartCoords(parts[..n], qs[..n]);
      SwapCoordinatewise(parts[n]);
      SwapCoordsConcat(PartCoords(parts[..n]), AllCoords(parts[n]));
    }
  }
}
