/**
 * ProjectedLineString: a ring of raw coordinate pairs turned into projected
 * points, together with a bounds built while projecting. The bounds is
 * expanded by the RAW pair, not by the projected point.
 */
module LineStrings {
  import opened Coords
  import opened Options
  import opened Bounds

  /** A raw `[x, y]` coordinate pair of the input. */
  type Coordinate = (real, real)

  /**
   * The fixed projection `webMercatorToLeaflet(x, y, 1)`, whose definition is
   * not part of this model: every function taking one is correct for all of them.
   */
  type Projection = (real, real) -> Point

  /** A raw pair as a point of the plane that bounds live in. */
  function Lift(c: Coordinate): Point {
    Point(Fin(c.0), Fin(c.1))
  }

  function Lifted(cs: seq<Coordinate>): (ps: seq<Point>)
    ensures |ps| == |cs|
    ensures forall i :: 0 <= i < |cs| ==> ps[i] == Lift(cs[i])
  {
    seq(|cs|, i requires 0 <= i < |cs| => Lift(cs[i]))
  }

  /** The bounds a line string accumulates over its raw coordinates. */
  function CoordinateBounds(cs: seq<Coordinate>): Rect {
    Hull(Lifted(cs))
  }

  /** The projected points of a ring, in input order. */
  function ProjectAll(cs: seq<Coordinate>, project: Projection): (ps: seq<Point>)
    ensures |ps| == |cs|
    ensures forall i :: 0 <= i < |cs| ==> ps[i] == project(cs[i].0, cs[i].1)
  {
    seq(|cs|, i requires 0 <= i < |cs| => project(cs[i].0, cs[i].1))
  }

  /**
   * A built line string. Nothing changes it after construction, so it is a
   * value holding the final value of its bounds.
   */
  datatype LineString = LineString(points: seq<Point>, bounds3857: Rect)

  /** The line string built from `cs`. */
  function LineStringOf(cs: seq<Coordinate>, project: Projection): LineString {
    LineString(ProjectAll(cs, project), CoordinateBounds(cs))
  }

  /**
   * The constructor: one pass over the ring that expands a fresh empty bounds
   * by each raw pair and collects the projected point of each pair.
   */
  method NewLineString(coordinates: seq<Coordinate>, project: Projection) returns (lineString: LineString)
    ensures lineString == LineStringOf(coordinates, project)
  {
    var bounds := new ProjectedBounds(None);
    var points: seq<Point> := [];
    var i := 0;
    while i < |coordinates|
      invariant 0 <= i <= |coordinates|
      invariant |points| == i
      invariant forall k :: 0 <= k < i ==> points[k] == project(coordinates[k].0, coordinates[k].1)
      invariant bounds.Value() == Hull(Lifted(coordinates[..i]))
    {
      bounds.ExpandPoint(Fin(coordinates[i].0), Fin(coordinates[i].1));
      var pair := project(coordinates[i].0, coordinates[i].1);
      points := points + [Point(pair.x, pair.y)];
      assert Lifted(coordinates[..i + 1])[..i] == Lifted(coordinates[..i]);
      i := i + 1;
    }
    assert coordinates[..i] == coordinates;
    lineString := LineString(points, bounds.Value());
  }

  /**
   * The bounds of a line string is the tight box of its raw coordinates: it
   * contains every input pair, lies within every rectangle that does, and for
   * a non-empty ring each of its four sides is attained by some input pair.
   */
  lemma CoordinateBoundsTight(cs: seq<Coordinate>)
    ensures forall i :: 0 <= i < |cs| ==> CoordinateBounds(cs).ContainsPoint(Lift(cs[i]))
    ensures forall c: Rect :: (forall i :: 0 <= i < |cs| ==> c.ContainsPoint(Lift(cs[i]))) ==> c.Contains(CoordinateBounds(cs))
    ensures cs == [] ==> CoordinateBounds(cs) == EmptyRect
    ensures cs != [] ==> CoordinateBounds(cs).NonEmpty()
    ensures cs != [] ==> exists i :: 0 <= i < |cs| && CoordinateBounds(cs).southWest.x == Fin(cs[i].0)
    ensures cs != [] ==> exists i :: 0 <= i < |cs| && CoordinateBounds(cs).southWest.y == Fin(cs[i].1)
    ensures cs != [] ==> exists i :: 0 <= i < |cs| && CoordinateBounds(cs).northEast.x == Fin(cs[i].0)
    ensures cs != [] ==> exists i :: 0 <= i < |cs| && CoordinateBounds(cs).northEast.y == Fin(cs[i].1)
  {
    var ps := Lifted(cs);
    forall i | 0 <= i < |cs|
      ensures CoordinateBounds(cs).ContainsPoint(Lift(cs[i]))
    {
      HullContainsEach(ps, i);
    }
    forall c: Rect | forall i :: 0 <= i < |cs| ==> c.ContainsPoint(Lift(cs[i]))
      ensures c.Contains(CoordinateBounds(cs))
    {
      HullIsLeast(ps, c);
    }
    if cs != [] {
      HullSidesAttained(ps);
    }
  }
}
