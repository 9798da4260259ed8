/**
 * ProjectedMultiPolygon: every polygon of every input multipolygon, bucketed
 * by travel time in input order, with one bounds over all of them; `forEach`
 * visits the buckets from the largest travel time down.
 */
module MultiPolygons {
  import opened Options
  import opened Bounds
  import opened LineStrings
  import opened Polygons

  /** One input multipolygon: its polygons, in input order. */
  datatype MultipolygonData = MultipolygonData(polygons: seq<PolygonData>)

  /** The polygons of all inputs in the order the constructor visits them. */
  function Flat(data: seq<MultipolygonData>): seq<PolygonData> {
    if data == [] then [] else Flat(data[..|data| - 1]) + data[|data| - 1].polygons
  }

  /** The polygon built from each input, in order. */
  function PolygonsOf(ds: seq<PolygonData>, project: Projection): (ps: seq<Polygon>)
    ensures |ps| == |ds|
  {
    seq(|ds|, i requires 0 <= i < |ds| => PolygonOf(ds[i], project))
  }

  /** The bounds of each polygon, in order. */
  function BoundsOf(ps: seq<Polygon>): (rs: seq<Rect>)
    ensures |rs| == |ps|
    ensures forall i :: 0 <= i < |ps| ==> rs[i] == ps[i].bounds3857
  {
    seq(|ps|, i requires 0 <= i < |ps| => ps[i].bounds3857)
  }

  /** Polygons keyed by travel time; a JavaScript object with numeric keys. */
  type Buckets = map<real, seq<Polygon>>

  /**
   * The dictionary after the constructor has seen `ps`: each polygon is
   * appended to the bucket of its travel time, created empty when missing.
   */
  function Bucket(ps: seq<Polygon>): Buckets {
    if ps == [] then map[]
    else
      var m := Bucket(ps[..|ps| - 1]);
      var p := ps[|ps| - 1];
      m[p.travelTime := (if p.travelTime in m then m[p.travelTime] else []) + [p]]
  }

  /** The travel times that occur in `ps`. */
  function TravelTimes(ps: seq<Polygon>): set<real> {
    set p | p in ps :: p.travelTime
  }

  /** The polygons of `ps` whose travel time is `t`, in input order. */
  function ByTravelTime(ps: seq<Polygon>, t: real): seq<Polygon> {
    if ps == [] then []
    else ByTravelTime(ps[..|ps| - 1], t) + (if ps[|ps| - 1].travelTime == t then [ps[|ps| - 1]] else [])
  }

  /**
   * A non-empty set has an element. Stated on its own so that `:|` over a
   * key set has an existence fact to use without case-splitting in callers.
   */
  lemma NonEmptyHasElement(s: set<real>)
    requires s != {}
    ensures exists x :: x in s
  {
    if forall x :: x !in s {
      assert false;
    }
  }

  /** The number of polygons in the buckets named by `keys`. */
  ghost function SumSizes(m: Buckets, keys: set<real>): nat
    requires keys <= m.Keys
    decreases keys
  {
    if keys == {} then 0
    else
      NonEmptyHasElement(keys);
      var k :| k in keys;
      |m[k]| + SumSizes(m, keys - {k})
  }

  /** The number of polygons in all buckets. */
  ghost function TotalCount(m: Buckets): nat {
    SumSizes(m, m.Keys)
  }

  /** `ks` lists its elements from the largest down, none twice. */
  predicate StrictlyDescending(ks: seq<real>) {
    forall i, j :: 0 <= i < j < |ks| ==> ks[i] > ks[j]
  }

  /** Every non-empty finite set of numbers has a largest element. */
  lemma {:induction false} MaxExists(s: set<real>)
    requires s != {}
    ensures exists k :: k in s && forall j :: j in s ==> j <= k
    decreases s
  {
    NonEmptyHasElement(s);
    var x :| x in s;
    if s - {x} != {} {
      MaxExists(s - {x});
      var m :| m in s - {x} && forall j :: j in s - {x} ==> j <= m;
      var k := if x <= m then m else x;
      forall j | j in s
        ensures j <= k
      {
        if j != x {
          assert j in s - {x};
        }
      }
    } else {
      forall j | j in s
        ensures j <= x
      {
        assert j == x || j in s - {x};
      }
    }
  }

  /** The largest element of `s`. */
  function MaxOf(s: set<real>): (k: real)
    requires s != {}
    ensures k in s && forall j :: j in s ==> j <= k
  {
    MaxExists(s);
    var k :| k in s && forall j :: j in s ==> j <= k;
    k
  }

  /**
   * The keys of `s` as `Object.keys` mapped to numbers and sorted by
   * `(a, b) => b - a`: from the largest down.
   */
  function DescendingKeys(s: set<real>): (ks: seq<real>)
    ensures StrictlyDescending(ks)
    ensures forall k :: k in ks <==> k in s
    ensures |ks| == |s|
    decreases s
  {
    if s == {} then []
    else
      var m := MaxOf(s);
      var rest := DescendingKeys(s - {m});
      assert forall k :: k in rest ==> k < m;
      [m] + rest
  }

  /** A built multipolygon. Nothing changes it after construction, so it is a value. */
  datatype MultiPolygon = MultiPolygon(polygons: Buckets, bounds3857: Rect)
  {
    /** `forEach(callback)`: the (key, bucket) pairs the callback receives, in call order. */
    function ForEach(): (visits: seq<(real, seq<Polygon>)>)
      ensures |visits| == |polygons.Keys|
      ensures forall i :: 0 <= i < |visits| ==> visits[i].0 in polygons && visits[i].1 == polygons[visits[i].0]
    {
      var keys := DescendingKeys(polygons.Keys);
      seq(|keys|, i requires 0 <= i < |keys| => (keys[i], polygons[keys[i]]))
    }
  }

  /** `forEach` calls the callback once for every key, and with nothing else. */
  lemma ForEachVisitsEveryKey(mp: MultiPolygon, t: real)
    ensures t in mp.polygons <==> exists i :: 0 <= i < |mp.ForEach()| && mp.ForEach()[i].0 == t
  {
    var keys := DescendingKeys(mp.polygons.Keys);
    if t in mp.polygons {
      assert t in keys;
      var i :| 0 <= i < |keys| && keys[i] == t;
      assert mp.ForEach()[i].0 == t;
    }
  }

  /** `forEach` calls the callback in strictly descending key order, so no key twice. */
  lemma ForEachDescending(mp: MultiPolygon)
    ensures forall i, j :: 0 <= i < j < |mp.ForEach()| ==> mp.ForEach()[i].0 > mp.ForEach()[j].0
  {
    var keys := DescendingKeys(mp.polygons.Keys);
    assert forall i :: 0 <= i < |keys| ==> mp.ForEach()[i].0 == keys[i];
  }

  /** The multipolygon built from `data`. */
  function MultiPolygonOf(data: seq<MultipolygonData>, project: Projection): MultiPolygon {
    var ps := PolygonsOf(Flat(data), project);
    MultiPolygon(Bucket(ps), Union(BoundsOf(ps)))
  }

  /** One more polygon: its bucket grows by it and the union expands by its bounds. */
  lemma FoldSnoc(ps: seq<Polygon>, p: Polygon)
    ensures Bucket(ps + [p]) == Bucket(ps)[p.travelTime := (if p.travelTime in Bucket(ps) then Bucket(ps)[p.travelTime] else []) + [p]]
    ensures Union(BoundsOf(ps + [p])) == Union(BoundsOf(ps)).Expanded(p.bounds3857)
  {
    assert (ps + [p])[..|ps|] == ps;
    assert BoundsOf(ps + [p]) == BoundsOf(ps) + [p.bounds3857];
    UnionSnoc(BoundsOf(ps), p.bounds3857);
  }

  /** A polygon with the fields built from `ds[i]` extends the polygons built from `ds[..i]`, after any prefix. */
  lemma PolygonsOfSnoc(built: seq<Polygon>, ds: seq<PolygonData>, i: nat, project: Projection, polygon: Polygon)
    requires i < |ds|
    requires polygon.travelTime == ds[i].travelTime && polygon.area == ds[i].area
    requires polygon.lineStrings == LineStringsOf(Rings(ds[i]), project)
    requires polygon.bounds3857 == PolygonBounds(ds[i])
    ensures built + PolygonsOf(ds[..i + 1], project) == (built + PolygonsOf(ds[..i], project)) + [polygon]
  {
    PolygonOfFields(polygon, ds[i], project);
    assert PolygonsOf(ds[..i + 1], project) == PolygonsOf(ds[..i], project) + [polygon];
  }

  /** Building polygons distributes over concatenating their inputs. */
  lemma PolygonsOfConcat(xs: seq<PolygonData>, ys: seq<PolygonData>, project: Projection)
    ensures PolygonsOf(xs + ys, project) == PolygonsOf(xs, project) + PolygonsOf(ys, project)
  {
  }

  /** The polygons of one more input come after those of the inputs before it. */
  lemma FlatSnoc(data: seq<MultipolygonData>, j: nat)
    requires j < |data|
    ensures Flat(data[..j + 1]) == Flat(data[..j]) + data[j].polygons
  {
    assert data[..j + 1][..j] == data[..j];
  }

  /**
   * The inner loop of the constructor: build each polygon of one input
   * multipolygon, append it to the bucket of its travel time and expand the
   * aggregate bounds by the polygon's bounds.
   */
  method AddPolygons(polygons: Buckets, bounds: ProjectedBounds, ds: seq<PolygonData>, project: Projection, ghost built: seq<Polygon>)
    returns (result: Buckets, ghost added: seq<Polygon>)
    requires polygons == Bucket(built) && bounds.Value() == Union(BoundsOf(built))
    modifies bounds
    ensures added == built + PolygonsOf(ds, project)
    ensures result == Bucket(added) && bounds.Value() == Union(BoundsOf(added))
  {
    result, added := polygons, built;
    var i := 0;
    while i < |ds|
      invariant 0 <= i <= |ds|
      invariant added == built + PolygonsOf(ds[..i], project)
      invariant result == Bucket(added) && bounds.Value() == Union(BoundsOf(added))
    {
      var polygon := NewPolygon(ds[i], project);
      PolygonOfFields(polygon, ds[i], project);
      var bucket := if polygon.travelTime in result then result[polygon.travelTime] else [];
      result := result[polygon.travelTime := bucket + [polygon]];
      bounds.Expand(polygon.bounds3857);
      FoldSnoc(added, polygon);
      PolygonsOfSnoc(built, ds, i, project, polygon);
      added := added + [polygon];
      i := i + 1;
    }
    assert ds[..i] == ds;
  }

  /** The constructor: the polygons of each input multipolygon in turn. */
  method NewMultiPolygon(data: seq<MultipolygonData>, project: Projection) returns (multiPolygon: MultiPolygon)
    ensures multiPolygon == MultiPolygonOf(data, project)
  {
    var polygons: Buckets := map[];
    var bounds := new ProjectedBounds(None);
    ghost var built: seq<Polygon> := [];
    var j := 0;
    while j < |data|
      invariant 0 <= j <= |data|
      invariant built == PolygonsOf(Flat(data[..j]), project)
      invariant polygons == Bucket(built) && bounds.Value() == Union(BoundsOf(built))
    {
      polygons, built := AddPolygons(polygons, bounds, data[j].polygons, project, built);
      FlatSnoc(data, j);
      PolygonsOfConcat(Flat(data[..j]), data[j].polygons, project);
      j := j + 1;
    }
    assert data[..j] == data;
    multiPolygon := MultiPolygon(polygons, bounds.Value());
  }

  // ---------------------------------------------------------------------
  // Buckets: the fold against the per-key filter

  /** A polygon is in the filter for `t` exactly when it is in `ps` with travel time `t`. */
  lemma {:induction false} ByTravelTimeMembers(ps: seq<Polygon>, t: real, p: Polygon)
    ensures p in ByTravelTime(ps, t) <==> p in ps && p.travelTime == t
  {
    if ps != [] {
      var init := ps[..|ps| - 1];
      ByTravelTimeMembers(init, t, p);
      assert ps == init + [ps[|ps| - 1]];
    }
  }

  /** Filtering distributes over concatenation, so it keeps input order. */
  lemma {:induction false} ByTravelTimeConcat(xs: seq<Polygon>, ys: seq<Polygon>, t: real)
    ensures ByTravelTime(xs + ys, t) == ByTravelTime(xs, t) + ByTravelTime(ys, t)
    decreases |ys|
  {
    if ys == [] {
      assert xs + ys == xs;
    } else {
      var init := ys[..|ys| - 1];
      var last := ys[|ys| - 1];
      var tail := if last.travelTime == t then [last] else [];
      ByTravelTimeConcat(xs, init, t);
      assert (xs + ys)[..|xs + ys| - 1] == xs + init;
      assert (xs + ys)[|xs + ys| - 1] == last;
      assert ByTravelTime(xs + ys, t) == ByTravelTime(xs + init, t) + tail;
      assert ByTravelTime(ys, t) == ByTravelTime(init, t) + tail;
    }
  }

  /** No polygon of `ps` has travel time `t`: its filter is empty. */
  lemma {:induction false} ByTravelTimeAbsent(ps: seq<Polygon>, t: real)
    requires t !in TravelTimes(ps)
    ensures ByTravelTime(ps, t) == []
  {
    if ps != [] {
      var init := ps[..|ps| - 1];
      assert forall p :: p in init ==> p in ps;
      ByTravelTimeAbsent(init, t);
      assert ps[|ps| - 1] in ps;
    }
  }

  /**
   * The dictionary has a key for each travel time that occurs and no other,
   * and the bucket of a key is the input polygons of that travel time in
   * input order.
   */
  lemma {:induction false} BucketIsFilter(ps: seq<Polygon>)
    ensures Bucket(ps).Keys == TravelTimes(ps)
    ensures forall t :: t in Bucket(ps) ==> Bucket(ps)[t] == ByTravelTime(ps, t)
  {
    if ps != [] {
      var init := ps[..|ps| - 1];
      var p := ps[|ps| - 1];
      assert ps == init + [p];
      BucketIsFilter(init);
      assert TravelTimes(ps) == TravelTimes(init) + {p.travelTime};
      if p.travelTime !in Bucket(init) {
        ByTravelTimeAbsent(init, p.travelTime);
      }
    }
  }

  /** Every input polygon is in the bucket of its own travel time. */
  lemma BucketHoldsEach(ps: seq<Polygon>, i: nat)
    requires i < |ps|
    ensures ps[i].travelTime in Bucket(ps)
    ensures ps[i] in Bucket(ps)[ps[i].travelTime]
  {
    BucketIsFilter(ps);
    ByTravelTimeMembers(ps, ps[i].travelTime, ps[i]);
  }

  /** What a bucket holds comes from the input and has the bucket's travel time. */
  lemma BucketHoldsOnlyInputs(ps: seq<Polygon>, t: real, p: Polygon)
    requires t in Bucket(ps) && p in Bucket(ps)[t]
    ensures p in ps && p.travelTime == t
  {
    BucketIsFilter(ps);
    ByTravelTimeMembers(ps, t, p);
  }

  // ---------------------------------------------------------------------
  // Counting

  /** The sum does not depend on which key the definition picks first. */
  lemma {:induction false} SumSizesPick(m: Buckets, keys: set<real>, k: real)
    requires keys <= m.Keys && k in keys
    ensures SumSizes(m, keys) == |m[k]| + SumSizes(m, keys - {k})
    decreases keys
  {
    NonEmptyHasElement(keys);
    var j :| j in keys && SumSizes(m, keys) == |m[j]| + SumSizes(m, keys - {j});
    if j != k {
      SumSizesPick(m, keys - {j}, k);
      SumSizesPick(m, keys - {k}, j);
      assert keys - {j} - {k} == keys - {k} - {j};
    }
  }

  /** Two dictionaries whose buckets have the same sizes on `keys` have the same sum there. */
  lemma {:induction false} SumSizesAgree(m1: Buckets, m2: Buckets, keys: set<real>)
    requires keys <= m1.Keys && keys <= m2.Keys
    requires forall k :: k in keys ==> |m1[k]| == |m2[k]|
    ensures SumSizes(m1, keys) == SumSizes(m2, keys)
    decreases keys
  {
    if keys != {} {
      NonEmptyHasElement(keys);
      var k :| k in keys;
      SumSizesPick(m1, keys, k);
      SumSizesPick(m2, keys, k);
      SumSizesAgree(m1, m2, keys - {k});
    }
  }

  /** Replacing one bucket changes the total by the change in that bucket's size. */
  lemma TotalCountUpdate(m: Buckets, t: real, s: seq<Polygon>)
    ensures TotalCount(m[t := s]) == TotalCount(m) - (if t in m then |m[t]| else 0) + |s|
  {
    var m' := m[t := s];
    if t in m {
      assert m'.Keys == m.Keys;
      SumSizesPick(m', m.Keys, t);
      SumSizesPick(m, m.Keys, t);
      SumSizesAgree(m', m, m.Keys - {t});
    } else {
      assert m'.Keys == m.Keys + {t};
      SumSizesPick(m', m'.Keys, t);
      assert m'.Keys - {t} == m.Keys;
      SumSizesAgree(m', m, m.Keys);
    }
  }

  /** The buckets together hold exactly as many polygons as the input. */
  lemma {:induction false} BucketCount(ps: seq<Polygon>)
    ensures TotalCount(Bucket(ps)) == |ps|
  {
    if ps != [] {
      var init := ps[..|ps| - 1];
      var p := ps[|ps| - 1];
      var m := Bucket(init);
      BucketCount(init);
      TotalCountUpdate(m, p.travelTime, (if p.travelTime in m then m[p.travelTime] else []) + [p]);
    }
  }

  // ---------------------------------------------------------------------
  // Traversal order

  /** Without its largest element first, a strictly descending listing of `s` lists `s - {m}`. */
  lemma RestOfDescending(s: set<real>, ks: seq<real>, m: real)
    requires ks != [] && ks[0] == m
    requires StrictlyDescending(ks)
    requires forall k :: k in ks <==> k in s
    ensures StrictlyDescending(ks[1..])
    ensures forall k :: k in ks[1..] <==> k in s - {m}
  {
    var rest := ks[1..];
    forall k
      ensures k in rest <==> k in s - {m}
    {
      if k in rest {
        var j :| 0 <= j < |rest| && rest[j] == k;
        assert ks[j + 1] == k;
      }
      if k in s - {m} {
        var j :| 0 <= j < |ks| && ks[j] == k;
        assert j != 0;
        assert rest[j - 1] == k;
      }
    }
  }

  /** The strictly descending listing of a set is unique, so it is what the sort produces. */
  lemma {:induction false} DescendingKeysUnique(s: set<real>, ks: seq<real>)
    requires StrictlyDescending(ks)
    requires forall k :: k in ks <==> k in s
    ensures ks == DescendingKeys(s)
    decreases s
  {
    if ks == [] {
      forall k
        ensures k !in s
      {
        assert k !in ks;
      }
      assert s == {};
    } else {
      assert ks[0] in ks;
      assert ks[0] in s;
      var m := MaxOf(s);
      assert m in ks;
      var i :| 0 <= i < |ks| && ks[i] == m;
      assert ks[0] == m;
      var rest := ks[1..];
      RestOfDescending(s, ks, m);
      DescendingKeysUnique(s - {m}, rest);
      assert ks == [m] + rest;
    }
  }

  /** Buckets keyed 5, 15 and 10 are visited as 15, 10, 5, each with its own bucket. */
  lemma ForEachExample(b5: seq<Polygon>, b15: seq<Polygon>, b10: seq<Polygon>, bounds: Rect)
    ensures MultiPolygon(map[5.0 := b5, 15.0 := b15, 10.0 := b10], bounds).ForEach()
      == [(15.0, b15), (10.0, b10), (5.0, b5)]
  {
    var polygons := map[5.0 := b5, 15.0 := b15, 10.0 := b10];
    assert polygons.Keys == {5.0, 15.0, 10.0};
    DescendingKeysUnique(polygons.Keys, [15.0, 10.0, 5.0]);
  }

  // ---------------------------------------------------------------------
  // The built multipolygon

  /** Every input polygon lands in the bucket of its travel time. */
  lemma MultiPolygonHoldsEach(data: seq<MultipolygonData>, project: Projection, i: nat)
    requires i < |Flat(data)|
    ensures Flat(data)[i].travelTime in MultiPolygonOf(data, project).polygons
    ensures PolygonOf(Flat(data)[i], project) in MultiPolygonOf(data, project).polygons[Flat(data)[i].travelTime]
  {
    var ps := PolygonsOf(Flat(data), project);
    assert ps[i] == PolygonOf(Flat(data)[i], project);
    BucketHoldsEach(ps, i);
  }

  /** Bucket `t` holds the polygons of travel time `t`, in input order; there is no other key. */
  lemma MultiPolygonBuckets(data: seq<MultipolygonData>, project: Projection)
    ensures MultiPolygonOf(data, project).polygons.Keys == TravelTimes(PolygonsOf(Flat(data), project))
    ensures forall t :: t in MultiPolygonOf(data, project).polygons ==>
      MultiPolygonOf(data, project).polygons[t] == ByTravelTime(PolygonsOf(Flat(data), project), t)
  {
    BucketIsFilter(PolygonsOf(Flat(data), project));
  }

  /** The buckets together hold as many polygons as all inputs together. */
  lemma MultiPolygonCount(data: seq<MultipolygonData>, project: Projection)
    ensures TotalCount(MultiPolygonOf(data, project).polygons) == |Flat(data)|
  {
    BucketCount(PolygonsOf(Flat(data), project));
  }

  /** The multipolygon's bounds contains the bounds of every polygon in every bucket. */
  lemma MultiPolygonContainsPolygons(data: seq<MultipolygonData>, project: Projection, t: real, p: Polygon)
    requires t in MultiPolygonOf(data, project).polygons && p in MultiPolygonOf(data, project).polygons[t]
    ensures MultiPolygonOf(data, project).bounds3857.Contains(p.bounds3857)
  {
    var ps := PolygonsOf(Flat(data), project);
    BucketHoldsOnlyInputs(ps, t, p);
    var i :| 0 <= i < |ps| && ps[i] == p;
    UnionContainsEach(BoundsOf(ps), i);
  }
}
