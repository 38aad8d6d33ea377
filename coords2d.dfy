/** `ensure_2d`: dropping the third (and any further) coordinate from a
    GeoJSON coordinate tree. */
module Coords2d {
  import opened Results

  /** A node of a GeoJSON coordinate tree: a scalar (an int or a float), a
      sequence of nodes, or any other value. */
  datatype Coord = Num(v: real) | Items(items: seq<Coord>) | Other

  /** The two keys `ensure_2d` reads from its GeoJSON mapping. */
  datatype GeoJson = GeoJson(kind: string, coordinates: Coord)

  predicate AllNum(xs: seq<Coord>) {
    forall i :: 0 <= i < |xs| ==> xs[i].Num?
  }

  /** No "other" value anywhere in the tree. */
  predicate WellFormed(x: Coord) {
    match x
    case Num(_) => true
    case Items(xs) => forall i :: 0 <= i < |xs| ==> WellFormed(xs[i])
    case Other => false
  }

  /** Every all-scalar sequence in the tree holds at most two scalars. */
  predicate Is2d(x: Coord) {
    match x
    case Num(_) => true
    case Items(xs) => (AllNum(xs) ==> |xs| <= 2) && forall i :: 0 <= i < |xs| ==> Is2d(xs[i])
    case Other => true
  }

  /** The inner `go`: a scalar is kept, an all-scalar sequence is cut to
      its first two entries, any other sequence is rewritten entry by
      entry, and anything else raises ValueError. */
  function Go(x: Coord): (r: Result<Coord>)
    ensures r.Err? ==> r.error == InvalidCoordinate
    ensures r.Ok? ==> (r.value.Num? <==> x.Num?) && (r.value.Items? <==> x.Items?)
    decreases x
  {
    match x
    case Num(_) => Ok(x)
    case Items(xs) =>
      if AllNum(xs) then Ok(Items(xs[..if |xs| < 2 then |xs| else 2]))
      else
        (match GoEach(xs)
         case Err(e) => Err(e)
         case Ok(ys) => Ok(Items(ys)))
    case Other => Err(InvalidCoordinate)
  }

  /** The list comprehension `[go(y) for y in x]`: the first failure, in
      order, or the rewritten entries. */
  function GoEach(xs: seq<Coord>): (r: Result<seq<Coord>>)
    ensures r.Ok? <==> forall i :: 0 <= i < |xs| ==> Go(xs[i]).Ok?
    ensures r.Ok? ==> |r.value| == |xs| && forall i :: 0 <= i < |xs| ==> Go(xs[i]) == Ok(r.value[i])
    ensures r.Err? ==> r.error == InvalidCoordinate
    decreases xs
  {
    if |xs| == 0 then Ok([])
    else
      match Go(xs[0])
      case Err(e) => Err(e)
      case Ok(y) =>
        assert forall i :: 1 <= i < |xs| ==> xs[i] == xs[1..][i - 1];
        match GoEach(xs[1..])
        case Err(e) => Err(e)
        case Ok(ys) => Ok([y] + ys)
  }

  /** `y` is `x` with every all-scalar sequence cut to its first two
      entries: a prefix of length min(2, |xs|) there, and the same shape
      entry by entry elsewhere. */
  predicate KeepsFirstTwo(x: Coord, y: Coord)
    decreases x
  {
    match x
    case Num(_) => y == x
    case Other => y == x
    case Items(xs) =>
      y.Items? &&
      if AllNum(xs) then y.items <= xs && |y.items| == (if |xs| < 2 then |xs| else 2)
      else |y.items| == |xs| && forall i :: 0 <= i < |xs| ==> KeepsFirstTwo(xs[i], y.items[i])
  }

  /** `ensure_2d(geojson)`: the same type, with 2D coordinates.  It fails
      exactly on trees holding some other value, and leaves a tree that is
      already 2D as it is. */
  function Ensure2d(g: GeoJson): (r: Result<GeoJson>)
    ensures r.Ok? <==> WellFormed(g.coordinates)
    ensures r.Ok? ==> r.value.kind == g.kind && Is2d(r.value.coordinates)
    ensures r.Ok? ==> KeepsFirstTwo(g.coordinates, r.value.coordinates)
    ensures r.Err? ==> r.error == InvalidCoordinate
    ensures WellFormed(g.coordinates) && Is2d(g.coordinates) ==> r == Ok(g)
  {
    GoOkIffWellFormed(g.coordinates);
    match Go(g.coordinates)
    case Err(e) => Err(e)
    case Ok(c) =>
      GoIs2d(g.coordinates);
      GoKeepsFirstTwo(g.coordinates);
      if WellFormed(g.coordinates) && Is2d(g.coordinates) then GoKeeps2d(g.coordinates); Ok(GeoJson(g.kind, c))
      else Ok(GeoJson(g.kind, c))
  }

  /** The rewrite fails exactly on trees holding some other value. */
  lemma {:induction false} GoOkIffWellFormed(x: Coord)
    ensures Go(x).Ok? <==> WellFormed(x)
    decreases x
  {
    match x
    case Num(_) =>
    case Other =>
    case Items(xs) =>
      forall i | 0 <= i < |xs| ensures Go(xs[i]).Ok? <==> WellFormed(xs[i]) {
        GoOkIffWellFormed(xs[i]);
      }
  }

  /** The rewrite's result is 2D. */
  lemma {:induction false} GoIs2d(x: Coord)
    requires Go(x).Ok?
    ensures Is2d(Go(x).value)
    decreases x
  {
    match x
    case Num(_) =>
    case Other =>
    case Items(xs) =>
      if !AllNum(xs) {
        var ys := Go(x).value.items;
        forall i | 0 <= i < |xs| ensures Go(xs[i]) == Ok(ys[i]) && Is2d(ys[i]) {
          GoIs2d(xs[i]);
        }
        assert !AllNum(ys) by {
          var j :| 0 <= j < |xs| && !xs[j].Num?;
          assert !ys[j].Num?;
        }
      }
  }

  /** Each point keeps exactly its first two coordinates, in order, and
      everything above the points keeps its shape. */
  lemma {:induction false} GoKeepsFirstTwo(x: Coord)
    requires Go(x).Ok?
    ensures KeepsFirstTwo(x, Go(x).value)
    decreases x
  {
    match x
    case Num(_) =>
    case Other =>
    case Items(xs) =>
      if !AllNum(xs) {
        var ys := Go(x).value.items;
        forall i | 0 <= i < |xs| ensures KeepsFirstTwo(xs[i], ys[i]) {
          GoKeepsFirstTwo(xs[i]);
        }
      }
  }

  /** Rewriting a rewritten tree changes nothing. */
  lemma {:induction false} GoIdempotent(x: Coord)
    requires Go(x).Ok?
    ensures Go(Go(x).value) == Go(x)
    decreases x
  {
    match x
    case Num(_) =>
    case Other =>
    case Items(xs) =>
      if AllNum(xs) {
        var ys := xs[..if |xs| < 2 then |xs| else 2];
        assert AllNum(ys);
        assert ys[..if |ys| < 2 then |ys| else 2] == ys;
      } else {
        var ys := Go(x).value.items;
        forall i | 0 <= i < |xs| ensures Go(xs[i]) == Ok(ys[i]) && Go(ys[i]) == Ok(ys[i]) {
          GoIdempotent(xs[i]);
        }
        assert !AllNum(ys) by {
          var j :| 0 <= j < |xs| && !xs[j].Num?;
          assert !ys[j].Num?;
        }
        assert GoEach(ys).Ok?;
        assert GoEach(ys).value == ys;
      }
  }

  /** A well-formed tree that is already 2D is left as it is, so the 2D
      trees are exactly the values the rewrite returns. */
  lemma {:induction false} GoKeeps2d(x: Coord)
    requires WellFormed(x) && Is2d(x)
    ensures Go(x) == Ok(x)
    decreases x
  {
    match x
    case Num(_) =>
    case Other =>
    case Items(xs) =>
      if AllNum(xs) {
        assert xs[..if |xs| < 2 then |xs| else 2] == xs;
      } else {
        forall i | 0 <= i < |xs| ensures Go(xs[i]) == Ok(xs[i]) {
          GoKeeps2d(xs[i]);
        }
        assert GoEach(xs).value == xs;
      }
  }

  /** A 3D ring of a polygon loses its heights. */
  lemma Ensure2dExample()
    ensures Ensure2d(GeoJson("Polygon", Items([Items([Items([Num(1.0), Num(2.0), Num(3.0)]), Items([Num(4.0), Num(5.0), Num(6.0)])])])))
         == Ok(GeoJson("Polygon", Items([Items([Items([Num(1.0), Num(2.0)]), Items([Num(4.0), Num(5.0)])])])))
  {
    var p := Items([Num(1.0), Num(2.0), Num(3.0)]);
    var q := Items([Num(4.0), Num(5.0), Num(6.0)]);
    assert AllNum(p.items) && AllNum(q.items);
    assert [Num(1.0), Num(2.0), Num(3.0)][..2] == [Num(1.0), Num(2.0)];
    assert [Num(4.0), Num(5.0), Num(6.0)][..2] == [Num(4.0), Num(5.0)];
    var ring := Items([p, q]);
    assert !AllNum(ring.items) by { assert !ring.items[0].Num?; }
    assert Go(p) == Ok(Items([Num(1.0), Num(2.0)]));
    assert Go(q) == Ok(Items([Num(4.0), Num(5.0)]));
    assert GoEach([p, q]) == Ok([Items([Num(1.0), Num(2.0)]), Items([Num(4.0), Num(5.0)])]) by {
      var r := GoEach([p, q]);
      assert [p, q][0] == p && [p, q][1] == q;
      assert r.Ok? && r.value[0] == Items([Num(1.0), Num(2.0)]) && r.value[1] == Items([Num(4.0), Num(5.0)]);
      assert r.value == [Items([Num(1.0), Num(2.0)]), Items([Num(4.0), Num(5.0)])];
    }
    var outer := Items([ring]);
    assert !AllNum(outer.items) by { assert !outer.items[0].Num?; }
    assert Go(ring) == Ok(Items([Items([Num(1.0), Num(2.0)]), Items([Num(4.0), Num(5.0)])]));
    assert GoEach([ring]) == Ok([Items([Items([Num(1.0), Num(2.0)]), Items([Num(4.0), Num(5.0)])])]) by {
      var r := GoEach([ring]);
      assert [ring][0] == ring;
      assert r.Ok? && r.value[0] == Items([Items([Num(1.0), Num(2.0)]), Items([Num(4.0), Num(5.0)])]);
      assert r.value == [Items([Items([Num(1.0), Num(2.0)]), Items([Num(4.0), Num(5.0)])])];
    }
  }
}
