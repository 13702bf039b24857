/** The bounding volume hierarchy of hw6/BVH.cpp: the node type, the
    primitive operations it is built from, and the nearest-hit traversal
    `BVHAccel::getIntersection`. */
module BvhTree {
  import opened Common

  /** `BVHBuildNode`: a leaf holds one object and that object's bounds; an
      interior node holds two children and the union of their bounds. */
  datatype BvhNode<O, B> =
    | Leaf(item: O, bounds: B)
    | Interior(left: BvhNode<O, B>, right: BvhNode<O, B>, bounds: B)

  /** The geometric primitives the BVH calls into but does not define
      (Bounds3, Object, Ray): box of an object, union of two boxes, object
      centroid, axis of largest extent and surface area of a box given by its
      diagonal, the slab test of a box against a ray, and the object's own
      ray intersection. `noHitDetail` fills the carried fields of a default
      `Intersection`. */
  datatype PrimitiveOps<!O, !B, !R, !D> = PrimitiveOps(
    getBounds: O -> B,
    union: (B, B) -> B,
    centroid: O -> Vec3,
    maxExtent: Vec3 -> Axis,
    surfaceArea: Vec3 -> real,
    intersectP: (B, R) -> bool,
    getIntersection: (O, R) -> Intersection<O, D>,
    noHitDetail: D)

  /** The objects of the leaves, left to right. */
  function Objects<O, B>(t: BvhNode<O, B>): (r: seq<O>)
    ensures |r| >= 1
  {
    match t
    case Leaf(o, _) => [o]
    case Interior(l, r, _) => Objects(l) + Objects(r)
  }

  /** Every leaf carries its object's bounds and every interior node the
      union of its children's bounds. */
  ghost predicate WellBounded<O, B, R, D>(t: BvhNode<O, B>, ops: PrimitiveOps<O, B, R, D>) {
    match t
    case Leaf(o, b) => b == ops.getBounds(o)
    case Interior(l, r, b) =>
      b == ops.union(l.bounds, r.bounds) && WellBounded(l, ops) && WellBounded(r, ops)
  }

  /** `BVHAccel::getIntersection`: prune on a failed box test, delegate at a
      leaf, and at an interior node keep the nearer of the two child results when
      at least one of them happened. A hit it reports is the hit of one of
      the tree's objects. */
  function GetIntersection<O, B, R, D>(t: BvhNode<O, B>, ray: R, ops: PrimitiveOps<O, B, R, D>): (r: Intersection<O, D>)
    ensures r.happened ==> exists o :: o in Objects(t) && r == ops.getIntersection(o, ray)
  {
    if !ops.intersectP(t.bounds, ray) then NoHit(ops.noHitDetail)
    else
      match t
      case Leaf(o, _) => ops.getIntersection(o, ray)
      case Interior(l, r, _) =>
        var li := GetIntersection(l, ray, ops);
        var ri := GetIntersection(r, ray, ops);
        if li.happened || ri.happened then
          (if li.distance < ri.distance then li else ri)
        else NoHit(ops.noHitDetail)
  }

  /** The objects whose leaf the traversal actually reaches: every box test
      on the path from the root to the leaf, the leaf's own included, passes. */
  function Reachable<O, B, R, D>(t: BvhNode<O, B>, ray: R, ops: PrimitiveOps<O, B, R, D>): (r: seq<O>)
    ensures forall o :: o in r ==> o in Objects(t)
  {
    if !ops.intersectP(t.bounds, ray) then []
    else
      match t
      case Leaf(o, _) => [o]
      case Interior(l, r, _) => Reachable(l, ray, ops) + Reachable(r, ray, ops)
  }

  /** A query result is well formed when a hit is nearer than `DoubleMax` and
      a miss is not: the no-hit sentinel is farther than every hit. */
  ghost predicate WellFormedHit<O, D>(h: Intersection<O, D>) {
    (h.happened ==> h.distance < DoubleMax) && (!h.happened ==> h.distance >= DoubleMax)
  }

  ghost predicate HitsWellFormed<O, B, R, D>(objs: seq<O>, ray: R, ops: PrimitiveOps<O, B, R, D>) {
    forall o :: o in objs ==> WellFormedHit(ops.getIntersection(o, ray))
  }

  /** The result of the traversal is the closest happened hit among the
      reachable leaves: it happened exactly when some reachable object was hit,
      it is then one of those objects' own results, and no reachable hit is
      nearer. When nothing happened it is the default no-hit, or, at a lone
      leaf, that leaf's own result. */
  lemma {:induction false} TraversalReturnsClosestHit<O, B, R, D>(t: BvhNode<O, B>, ray: R, ops: PrimitiveOps<O, B, R, D>)
    requires HitsWellFormed(Objects(t), ray, ops)
    ensures WellFormedHit(GetIntersection(t, ray, ops))
    ensures GetIntersection(t, ray, ops).happened <==>
              exists o :: o in Reachable(t, ray, ops) && ops.getIntersection(o, ray).happened
    ensures GetIntersection(t, ray, ops).happened ==>
              exists o :: o in Reachable(t, ray, ops) && GetIntersection(t, ray, ops) == ops.getIntersection(o, ray)
    ensures forall o :: o in Reachable(t, ray, ops) && ops.getIntersection(o, ray).happened ==>
              GetIntersection(t, ray, ops).distance <= ops.getIntersection(o, ray).distance
    ensures !GetIntersection(t, ray, ops).happened ==>
              GetIntersection(t, ray, ops) == NoHit(ops.noHitDetail) ||
              (t.Leaf? && GetIntersection(t, ray, ops) == ops.getIntersection(t.item, ray))
  {
    if ops.intersectP(t.bounds, ray) {
      match t
      case Leaf(o, _) =>
      case Interior(l, r, _) =>
        TraversalReturnsClosestHit(l, ray, ops);
        TraversalReturnsClosestHit(r, ray, ops);
        var li := GetIntersection(l, ray, ops);
        var ri := GetIntersection(r, ray, ops);
        assert Reachable(t, ray, ops) == Reachable(l, ray, ops) + Reachable(r, ray, ops);
        if li.happened || ri.happened {
          if li.distance < ri.distance {
            assert li.happened;
          } else {
            assert ri.happened;
          }
        }
    }
  }

  /** The boxes are conservative for a ray when every subtree containing an
      object that the ray hits passes its box test. */
  ghost predicate Conservative<O, B, R, D>(t: BvhNode<O, B>, ray: R, ops: PrimitiveOps<O, B, R, D>) {
    ((exists o :: o in Objects(t) && ops.getIntersection(o, ray).happened) ==> ops.intersectP(t.bounds, ray))
    && (t.Interior? ==> Conservative(t.left, ray, ops) && Conservative(t.right, ray, ops))
  }

  /** With conservative boxes no hit object is pruned away. */
  lemma {:induction false} ConservativeReachesEveryHit<O, B, R, D>(t: BvhNode<O, B>, ray: R, ops: PrimitiveOps<O, B, R, D>)
    requires Conservative(t, ray, ops)
    ensures forall o :: o in Objects(t) && ops.getIntersection(o, ray).happened ==> o in Reachable(t, ray, ops)
  {
    match t
    case Leaf(o, _) =>
    case Interior(l, r, _) =>
      ConservativeReachesEveryHit(l, ray, ops);
      ConservativeReachesEveryHit(r, ray, ops);
      forall o | o in Objects(t) && ops.getIntersection(o, ray).happened
        ensures o in Reachable(t, ray, ops)
      {
        assert ops.intersectP(t.bounds, ray);
        assert Reachable(t, ray, ops) == Reachable(l, ray, ops) + Reachable(r, ray, ops);
      }
  }

  /** With conservative boxes the traversal agrees with a brute-force scan
      over all objects of the tree: it reports a hit exactly when some object
      is hit, that hit is one of theirs, and none is nearer. */
  lemma TraversalMatchesLinearScan<O, B, R, D>(t: BvhNode<O, B>, ray: R, ops: PrimitiveOps<O, B, R, D>)
    requires HitsWellFormed(Objects(t), ray, ops)
    requires Conservative(t, ray, ops)
    ensures GetIntersection(t, ray, ops).happened <==>
              exists o :: o in Objects(t) && ops.getIntersection(o, ray).happened
    ensures GetIntersection(t, ray, ops).happened ==>
              exists o :: o in Objects(t) && GetIntersection(t, ray, ops) == ops.getIntersection(o, ray)
    ensures forall o :: o in Objects(t) && ops.getIntersection(o, ray).happened ==>
              GetIntersection(t, ray, ops).distance <= ops.getIntersection(o, ray).distance
  {
    TraversalReturnsClosestHit(t, ray, ops);
    ConservativeReachesEveryHit(t, ray, ops);
  }

  /** The box test of `Bounds3::IntersectP` is sound for a ray when it passes
      every object's box that the ray hits, and passes a union whenever it
      passes one of the two boxes. */
  ghost predicate SoundBoxes<O(!new), B(!new), R, D>(ops: PrimitiveOps<O, B, R, D>, ray: R) {
    && (forall o :: ops.getIntersection(o, ray).happened ==> ops.intersectP(ops.getBounds(o), ray))
    && (forall b1, b2 :: ops.intersectP(b1, ray) || ops.intersectP(b2, ray) ==> ops.intersectP(ops.union(b1, b2), ray))
  }

  /** The bounds a builder stores make the tree conservative for every ray
      whose box tests are sound. */
  lemma {:induction false} WellBoundedIsConservative<O(!new), B(!new), R, D>(t: BvhNode<O, B>, ray: R, ops: PrimitiveOps<O, B, R, D>)
    requires WellBounded(t, ops) && SoundBoxes(ops, ray)
    ensures Conservative(t, ray, ops)
    ensures (exists o :: o in Objects(t) && ops.getIntersection(o, ray).happened) ==> ops.intersectP(t.bounds, ray)
  {
    match t
    case Leaf(o, b) =>
    case Interior(l, r, b) =>
      WellBoundedIsConservative(l, ray, ops);
      WellBoundedIsConservative(r, ray, ops);
  }
}
