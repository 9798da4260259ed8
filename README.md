# Projected polygon geometry

This project models the projected-geometry layer of a travel-time polygon overlay. It covers:

- `ProjectedBounds`: an axis-aligned rectangle that grows (`expandPoint`, `expand`), shrinks (`modifyIntersect`) and is queried (`contains`, `intersects`, `toLineString`, `reproject`).
- `ProjectedLineString`: a ring of raw coordinate pairs turned into projected points, plus the bounds of the raw pairs.
- `ProjectedPolygon`: one travel-time band, with its outer ring first and then its holes.
- `ProjectedMultiPolygon`: every polygon of every input, bucketed by travel time. It also has an aggregate bounds and a traversal from the largest travel time down.

## Layout

- `coords.dfy` (`Coords`): the number line of the bounds. It has `-Infinity`, the finite reals and `+Infinity`, with the comparison, `Math.min` and `Math.max` the source uses.
- `options.dfy` (`Options`): an optional value, standing in for the optional constructor argument.
- `bounds.dfy` (`Bounds`):
  - `Point` is the value of a `ProjectedPoint` (src/geometry/projectedPolygon.ts:76-79): a datatype with the two coordinates.
  - `Rect` is the value of a bounds, with one pure function per source operation.
  - `EmptyRect` is the value of a fresh bounds.
  - `Hull` and `Union` fold `expandPoint` and `expand` over a sequence.
  - The class `ProjectedBounds` holds the two corners as fields, and its methods update them in place.
- `linestring.dfy` (`LineStrings`):
  - The constructor is the method `NewLineString`. It runs one loop that expands a local `ProjectedBounds` by each raw pair and collects the projected points.
  - `LineStringOf` is the specification the loop is proved against.
- `polygon.dfy` (`Polygons`):
  - The constructor is the method `NewPolygon`. It builds the outer ring and then the holes, folding each line string's bounds into a local `ProjectedBounds`.
  - `PolygonOf` is its specification.
  - `getOuterBoundary` and `getInnerBoundary` are functions of the built polygon.
- `multipolygon.dfy` (`MultiPolygons`):
  - The constructor is the method `NewMultiPolygon`, with its inner loop in `AddPolygons`. Each polygon is appended to the bucket of its travel time, and the aggregate bounds is expanded by the polygon's bounds.
  - `Bucket` is the fold that specifies the dictionary. `ByTravelTime` is an independent per-key filter that the fold is proved equal to.
  - `forEach` is `MultiPolygon.ForEach`. It gives the sequence of (key, bucket) pairs the callback receives, in call order, with keys from `DescendingKeys`.

Line strings, polygons and multipolygons are values. The source never changes them after their constructor returns, so each holds the final value of its `bounds3857`. `ProjectedBounds` is the only object that changes in place.

The projection `webMercatorToLeaflet(x, y, 1)` is a parameter `project` of the line string, polygon and multipolygon constructors. Its module is not part of this model, so every property holds for all projections.

## Model

| member | source | states |
|---|---|---|
| Bounds.ProjectedBounds.constructor | src/geometry/projectedPolygon.ts:5-16 | With no argument the bounds is empty: south-west at (+Infinity, +Infinity) and north-east at (-Infinity, -Infinity). With an argument it takes the given corners. |
| Bounds.ProjectedBounds.ExpandPoint | src/geometry/projectedPolygon.ts:18-23 | The four in-place corner updates leave exactly the rectangle `ExpandedByPoint(x, y)`: the min of the south-west and the point, and the max of the north-east and the point. |
| Bounds.ProjectedBounds.Expand | src/geometry/projectedPolygon.ts:25-28 | Expanding is `expandPoint` by the other's north-east corner, then by its south-west corner. |
| Bounds.ProjectedBounds.ModifyIntersect | src/geometry/projectedPolygon.ts:30-35 | Each south-west coordinate becomes the max of the two, and each north-east coordinate the min of the two. |
| Bounds.ProjectedBounds.Reproject | src/geometry/projectedPolygon.ts:68-73 | Returns a fresh bounds whose corners are `project` of this bounds' corners. The receiver has no modifies clause, so it is unchanged. |
| Bounds.ExpandPointContains | src/geometry/projectedPolygon.ts:18-23 | After `expandPoint(x, y)` the point is inside, and so is the rectangle from before. |
| Bounds.ExpandPointKeepsContained | src/geometry/projectedPolygon.ts:18-23 | Every rectangle contained before `expandPoint` is still contained after it. |
| Bounds.ExpandPointIsLeast | src/geometry/projectedPolygon.ts:18-23 | Any rectangle containing the old bounds and the point contains the expanded bounds, so the growth is minimal. |
| Bounds.ExpandPointInsideIsNoOp | src/geometry/projectedPolygon.ts:18-23 | Expanding by a point already inside changes nothing. |
| Bounds.EmptyRectFirstPoint | src/geometry/projectedPolygon.ts:5-23 | `EmptyRect`, the value of a fresh bounds, holds no point. Expanding it by a first point makes that point both of its corners. |
| Bounds.ExpandedContainsBoth | src/geometry/projectedPolygon.ts:25-44 | After `expand(other)` the bounds contains both its old self and `other`, whatever `other` is. |
| Bounds.ExpandedIsLeast | src/geometry/projectedPolygon.ts:25-44 | For a non-empty `other`, every rectangle containing both contains the result. |
| Bounds.ExpandedCommutes | src/geometry/projectedPolygon.ts:25-28 | For non-empty rectangles, `a.expand(b)` and `b.expand(a)` give the same rectangle. |
| Bounds.EmptyExpandedIsOther | src/geometry/projectedPolygon.ts:5-28 | A fresh bounds expanded by a non-empty rectangle becomes that rectangle. |
| Bounds.ExpandedByEmptyIsWholePlane | src/geometry/projectedPolygon.ts:5-28 | Expanding by an empty bounds yields infinite extent on both axes: its (+Infinity, +Infinity) and (-Infinity, -Infinity) corners are folded in as points. |
| Bounds.WholePlaneAbsorbs | src/geometry/projectedPolygon.ts:25-28 | Once infinite on both axes, a bounds stays so under `expand`. |
| Bounds.ExpandedBySelf | src/geometry/projectedPolygon.ts:25-28 | Expanding a non-empty bounds by an equal value changes nothing. |
| Bounds.IntersectionIdempotent | src/geometry/projectedPolygon.ts:30-35 | Intersecting with an equal copy leaves the bounds unchanged. |
| Bounds.IntersectionContainedInBoth | src/geometry/projectedPolygon.ts:30-44 | The result of `modifyIntersect` is contained in both inputs. |
| Bounds.IntersectionIsGreatest | src/geometry/projectedPolygon.ts:30-44 | Every rectangle within both inputs lies within the intersection. |
| Bounds.IntersectionPoints | src/geometry/projectedPolygon.ts:30-35 | A point is in the intersection exactly when it is in both inputs. |
| Bounds.IntersectionCommutes | src/geometry/projectedPolygon.ts:30-35 | The intersection does not depend on the order of the two inputs. |
| Bounds.Rect.Contains | src/geometry/projectedPolygon.ts:37-44 | For a non-empty argument, `contains` holds exactly when both corners of the argument are points of the receiver. |
| Bounds.ContainsReflexive | src/geometry/projectedPolygon.ts:37-44 | Every bounds contains itself: the comparisons include the boundary. |
| Bounds.ContainsTransitive | src/geometry/projectedPolygon.ts:37-44 | `contains` is transitive. |
| Bounds.ContainsAntisymmetric | src/geometry/projectedPolygon.ts:37-44 | Two bounds that contain each other are equal. |
| Bounds.ContainsIffEveryPoint | src/geometry/projectedPolygon.ts:37-44 | For a non-empty argument, `contains` holds exactly when every point of the argument is a point of the receiver, in both directions. |
| Bounds.Rect.Intersects | src/geometry/projectedPolygon.ts:46-53 | When `intersects` is false, `modifyIntersect` would leave an empty bounds. When it is true of two non-empty bounds, the south-west corner of their intersection is a point of both. |
| Bounds.IntersectsSymmetric | src/geometry/projectedPolygon.ts:46-53 | `a.intersects(b) == b.intersects(a)`. |
| Bounds.IntersectsIffCommonPoint | src/geometry/projectedPolygon.ts:46-53 | For non-empty rectangles, `intersects` holds exactly when they share a point, in both directions. |
| Bounds.IntersectsIffIntersectionNonEmpty | src/geometry/projectedPolygon.ts:30-53 | For non-empty rectangles, `intersects` holds exactly when `modifyIntersect` would leave a non-empty rectangle. |
| Bounds.TouchingEdgesIntersect | src/geometry/projectedPolygon.ts:46-53 | Rectangles that only share an edge intersect, and their intersection is that edge. |
| Bounds.IntersectsSelfIffNonEmpty | src/geometry/projectedPolygon.ts:46-53 | A bounds intersects itself exactly when it is non-empty. A fresh empty bounds does not. |
| Bounds.Rect.ToLineString | src/geometry/projectedPolygon.ts:55-66 | Four points: corner 1 is the north-east and corner 3 the south-west. Edges 0-1 and 2-3 are horizontal and edges 1-2 and 3-0 vertical, so the ring runs along the top, right, bottom and left sides in turn. |
| Bounds.ToLineStringCorners | src/geometry/projectedPolygon.ts:55-66 | Four points, in the order (sw.x, ne.y), (ne.x, ne.y), (ne.x, sw.y), (sw.x, sw.y): north-west, north-east, south-east, south-west. For a non-empty bounds all four are inside it. |
| Bounds.ToLineStringHull | src/geometry/projectedPolygon.ts:18-66 | Expanding a fresh bounds by the four ring points of a non-empty bounds gives that bounds back. |
| Bounds.ReprojectAgreesWithRing | src/geometry/projectedPolygon.ts:55-73 | The reprojected corners are `project` applied to ring corners 3 and 1. |
| Bounds.ReprojectFlipInverts | src/geometry/projectedPolygon.ts:68-73 | `reproject` does not re-normalise its corners: a projection that flips y gives an inverted (empty) bounds. |
| Bounds.HullContainsEach | src/geometry/projectedPolygon.ts:18-23 | An empty bounds expanded by each point of a sequence contains every one of them. |
| Bounds.HullIsLeast | src/geometry/projectedPolygon.ts:18-23 | Every rectangle containing all the points contains that bounds. |
| Bounds.HullSidesAttained | src/geometry/projectedPolygon.ts:18-23 | For a non-empty sequence the result is non-empty, and each of its four sides is a coordinate of some input point. |
| Bounds.UnionContainsEach | src/geometry/projectedPolygon.ts:25-44 | An empty bounds expanded by each rectangle of a sequence contains every one of them. |
| Bounds.UnionIsLeast | src/geometry/projectedPolygon.ts:25-44 | When all the rectangles are non-empty, every rectangle containing them contains their union. |
| Bounds.UnionWithEmptyIsWholePlane | src/geometry/projectedPolygon.ts:5-28 | One empty rectangle anywhere in the sequence makes the union infinite on both axes. |
| LineStrings.ProjectAll | src/geometry/projectedPolygon.ts:86-91 | The projected points have the input's length and order, and point i is `project` of coordinate i. |
| LineStrings.NewLineString | src/geometry/projectedPolygon.ts:81-93 | The constructor's loop yields exactly `LineStringOf(coordinates)`: the projected points, and a bounds that is the fold of `expandPoint` over the raw pairs, not over the projected points. |
| LineStrings.CoordinateBoundsTight | src/geometry/projectedPolygon.ts:83-87 | A line string's bounds contains every raw input pair and lies within every rectangle that does. An empty ring leaves it empty. For a non-empty ring it is non-empty and each side is attained by some pair. |
| Polygons.Rings | src/geometry/projectedPolygon.ts:105-113 | A polygon has `1 + |innerBoundary|` rings, with the outer boundary first. An absent `innerBoundary` counts as none. |
| Polygons.NewPolygon | src/geometry/projectedPolygon.ts:101-115 | The travel time and area are the input's. The line strings are built from the outer ring and then each hole, in order. The bounds is the union of their bounds, in that order. |
| Polygons.AddHoles | src/geometry/projectedPolygon.ts:108-114 | The holes loop appends one line string per hole, in order, and expands the bounds by each. Afterwards the line strings are those of all rings and the bounds is their union. |
| Polygons.Polygon.GetOuterBoundary | src/geometry/projectedPolygon.ts:117-119 | For a polygon with a line string, the outer boundary followed by the inner boundaries is exactly the polygon's line strings. |
| Polygons.Polygon.GetInnerBoundary | src/geometry/projectedPolygon.ts:121-123 | One line string fewer than the polygon has, and none for a polygon without line strings, as `slice(1)` gives. |
| Polygons.BoundariesOfPolygon | src/geometry/projectedPolygon.ts:102-123 | `getOuterBoundary()` is the line string of `outerBoundary`. `getInnerBoundary()` has one line string per hole, in input order. |
| Polygons.PolygonBoundsContainsRings | src/geometry/projectedPolygon.ts:105-113 | The polygon's bounds contains the bounds of each ring. |
| Polygons.PolygonContainsLineStrings | src/geometry/projectedPolygon.ts:102-113 | The built polygon's `bounds3857` contains the `bounds3857` of every one of its line strings. |
| Polygons.PolygonBoundsTight | src/geometry/projectedPolygon.ts:105-113 | When every ring has a coordinate, the polygon's bounds contains every raw coordinate and lies within every rectangle that does. |
| Polygons.PolygonWithEmptyRingIsUnbounded | src/geometry/projectedPolygon.ts:105-113 | A ring without coordinates is not rejected, and it makes the polygon's bounds infinite on both axes. |
| MultiPolygons.AddPolygons | src/geometry/projectedPolygon.ts:132-137 | The inner loop appends the polygons of one input, in order, to the polygons seen so far. It keeps the dictionary equal to their bucketing and the bounds equal to their union. |
| MultiPolygons.NewMultiPolygon | src/geometry/projectedPolygon.ts:130-139 | The two nested loops yield exactly `MultiPolygonOf(data)`: the bucketing of all polygons in input order, and the union of their bounds. |
| MultiPolygons.BucketIsFilter | src/geometry/projectedPolygon.ts:134-135 | The dictionary has a key for each travel time that occurs and for no other. Each bucket is exactly the input polygons of that travel time, in input order. |
| MultiPolygons.ByTravelTimeMembers | src/geometry/projectedPolygon.ts:134-135 | A polygon is in the bucket for `t` exactly when it is an input with travel time `t`. |
| MultiPolygons.ByTravelTimeConcat | src/geometry/projectedPolygon.ts:131-135 | The bucket of a concatenation is the two buckets concatenated, so same-time polygons keep their input order. |
| MultiPolygons.ByTravelTimeAbsent | src/geometry/projectedPolygon.ts:134-135 | A travel time that does not occur has nothing collected under it. |
| MultiPolygons.BucketHoldsEach | src/geometry/projectedPolygon.ts:133-135 | Every input polygon is in the bucket of its own travel time. |
| MultiPolygons.BucketHoldsOnlyInputs | src/geometry/projectedPolygon.ts:133-135 | Every polygon in a bucket is an input polygon with the bucket's travel time. |
| MultiPolygons.BucketCount | src/geometry/projectedPolygon.ts:131-138 | The bucket sizes add up to the number of input polygons. |
| MultiPolygons.MultiPolygonHoldsEach | src/geometry/projectedPolygon.ts:131-138 | The polygon built from every input polygon data lands in the bucket of its travel time. |
| MultiPolygons.MultiPolygonBuckets | src/geometry/projectedPolygon.ts:131-138 | The built dictionary's keys are the occurring travel times. Each of its buckets is that travel time's polygons, in input order. |
| MultiPolygons.MultiPolygonCount | src/geometry/projectedPolygon.ts:131-138 | The buckets together hold as many polygons as all inputs together. |
| MultiPolygons.MultiPolygonContainsPolygons | src/geometry/projectedPolygon.ts:136 | The aggregate bounds contains the bounds of every polygon in every bucket. |
| MultiPolygons.MaxOf | src/geometry/projectedPolygon.ts:142 | Every non-empty key set has a largest key. |
| MultiPolygons.DescendingKeys | src/geometry/projectedPolygon.ts:142 | The keys sorted by `(a, b) => b - a`: strictly descending, exactly the given keys, each once. |
| MultiPolygons.DescendingKeysUnique | src/geometry/projectedPolygon.ts:142 | Any strictly descending listing of the keys equals that sort, so the order does not depend on enumeration order. |
| MultiPolygons.MultiPolygon.ForEach | src/geometry/projectedPolygon.ts:141-144 | One callback per key. Each call passes a key of the dictionary together with that key's bucket. |
| MultiPolygons.ForEachVisitsEveryKey | src/geometry/projectedPolygon.ts:141-144 | A travel time is passed to the callback exactly when it is a key, in both directions. |
| MultiPolygons.ForEachDescending | src/geometry/projectedPolygon.ts:141-144 | The callback receives the keys in strictly descending order, so no key twice. |
| MultiPolygons.ForEachExample | src/geometry/projectedPolygon.ts:141-144 | Buckets keyed 5, 15 and 10 are visited as 15, 10, 5, each with its own bucket. |

## Left out

- IEEE floating point: coordinates are exact reals extended with the two infinities the empty bounds needs. NaN, rounding and `-0` are not modelled. A non-finite travel time cannot occur, since travel times are reals.
- `webMercatorToLeaflet` and its module are not part of this model. The projection is the parameter `project`.
- Bounds.ProjectedBounds.Expand and Bounds.ProjectedBounds.ModifyIntersect take the value of their argument rather than the object. The aliased call `b.expand(b)` is not modelled; no caller makes it. On an empty bounds that call would read corners the first `expandPoint` has already changed.
- The `bounds3857` of line strings, polygons and multipolygons is held as its final value, not as a shared `ProjectedBounds` object. The source never changes those objects after construction. Unmodelled code outside these classes could mutate them, and that is not captured.
- The `ProjectedPoint` objects inside a bounds are modelled as values. `expandPoint` writes their fields in place, but no two bounds share a point: every bounds, and the constructor taking corners, creates its own.
- JavaScript object keys: the dictionary is a map keyed by the real travel time. The stringification of keys and their conversion back with `+key` are not modelled.
- This code does not reject malformed input, such as rings of fewer than three pairs. The model follows the code: every ring is accepted, and `PolygonWithEmptyRingIsUnbounded` shows what an empty ring does.
- Polygons.Polygon.GetOuterBoundary requires at least one line string. The source would return `undefined` on an empty array, but every polygon the constructor builds has one.
- The callback of `forEach` is not called. `ForEach` gives the sequence of arguments it would receive.
