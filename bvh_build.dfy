/** The builders of hw6/BVH.cpp: `BVHAccel::recursiveBuild` (median split),
    `BVHAccel::recursiveBuildSVH` (binned surface-area heuristic) and the
    `BVHAccel` object that owns the tree. */
module BvhBuild {
  import opened Common
  import opened BvhTree
  import opened SahScan

  /** The centroid coordinate of every object on axis `dim`, in order. */
  function Keys<O>(objs: seq<O>, centroid: O -> Vec3, dim: Axis): seq<real> {
    seq(|objs|, j requires 0 <= j < |objs| => centroid(objs[j]).Coord(dim))
  }

  /** Ordered by centroid coordinate on axis `dim`, as the comparators passed
      to `std::sort` order it. */
  ghost predicate SortedOn<O>(objs: seq<O>, centroid: O -> Vec3, dim: Axis) {
    forall i, j :: 0 <= i < j < |objs| ==> centroid(objs[i]).Coord(dim) <= centroid(objs[j]).Coord(dim)
  }

  /** Inserting `x` after the keys not above its own keeps the order and adds
      `x` to the contents. */
  lemma InsertKeepsOrder<O>(s: seq<O>, j: nat, x: O, centroid: O -> Vec3, dim: Axis)
    requires j <= |s| && SortedOn(s, centroid, dim)
    requires forall k :: 0 <= k < j ==> centroid(s[k]).Coord(dim) <= centroid(x).Coord(dim)
    requires j < |s| ==> centroid(s[j]).Coord(dim) > centroid(x).Coord(dim)
    ensures SortedOn(s[..j] + [x] + s[j..], centroid, dim)
    ensures multiset(s[..j] + [x] + s[j..]) == multiset(s) + multiset{x}
  {
    var t := s[..j] + [x] + s[j..];
    assert SortedOn(t, centroid, dim) by {
      InsertedAt(s, j, x);
      InsertedIsSorted(s, j, x, t, centroid, dim);
    }
    assert multiset(t) == multiset(s) + multiset{x} by {
      assert s == s[..j] + s[j..];
    }
  }

  /** Where the elements of `s` land once `x` is inserted at `j`. */
  lemma InsertedAt<O>(s: seq<O>, j: nat, x: O)
    requires j <= |s|
    ensures |s[..j] + [x] + s[j..]| == |s| + 1
    ensures (s[..j] + [x] + s[j..])[j] == x
    ensures forall i :: 0 <= i < j ==> (s[..j] + [x] + s[j..])[i] == s[i]
    ensures forall i :: j < i <= |s| ==> (s[..j] + [x] + s[j..])[i] == s[i - 1]
  {
  }

  lemma InsertedIsSorted<O>(s: seq<O>, j: nat, x: O, t: seq<O>, centroid: O -> Vec3, dim: Axis)
    requires j <= |s| && SortedOn(s, centroid, dim)
    requires forall k :: 0 <= k < j ==> centroid(s[k]).Coord(dim) <= centroid(x).Coord(dim)
    requires j < |s| ==> centroid(s[j]).Coord(dim) > centroid(x).Coord(dim)
    requires |t| == |s| + 1 && t[j] == x
    requires forall i :: 0 <= i < j ==> t[i] == s[i]
    requires forall i :: j < i <= |s| ==> t[i] == s[i - 1]
    ensures SortedOn(t, centroid, dim)
  {
    forall a, b | 0 <= a < b < |t|
      ensures centroid(t[a]).Coord(dim) <= centroid(t[b]).Coord(dim)
    {
      if b <= j {
        assert t[a] == s[a];
      } else if a == j {
        assert t[b] == s[b - 1];
        assert centroid(s[j]).Coord(dim) <= centroid(s[b - 1]).Coord(dim) by {
          if j < b - 1 {
            assert SortedOn(s, centroid, dim);
          }
        }
      } else if a < j {
        assert t[a] == s[a] && t[b] == s[b - 1];
      } else {
        assert t[a] == s[a - 1] && t[b] == s[b - 1];
      }
    }
  }

  /** One step of the sort: `x` placed after every element whose key is not
      above its own. */
  method InsertByKey<O>(sorted: seq<O>, x: O, centroid: O -> Vec3, dim: Axis) returns (r: seq<O>)
    requires SortedOn(sorted, centroid, dim)
    ensures SortedOn(r, centroid, dim)
    ensures multiset(r) == multiset(sorted) + multiset{x}
  {
    var key := centroid(x).Coord(dim);
    var j := 0;
    while j < |sorted| && centroid(sorted[j]).Coord(dim) <= key
      invariant 0 <= j <= |sorted|
      invariant forall k :: 0 <= k < j ==> centroid(sorted[k]).Coord(dim) <= key
    {
      j := j + 1;
    }
    InsertKeepsOrder(sorted, j, x, centroid, dim);
    r := sorted[..j] + [x] + sorted[j..];
  }

  /** The three `std::sort` calls of the builders, one per axis. `std::sort`
      is not stable, so the result is specified only as an ordered
      permutation of the input. */
  method SortByCentroid<O>(objects: seq<O>, centroid: O -> Vec3, dim: Axis) returns (sorted: seq<O>)
    ensures multiset(sorted) == multiset(objects)
    ensures SortedOn(sorted, centroid, dim)
  {
    sorted := [];
    for i := 0 to |objects|
      invariant multiset(sorted) == multiset(objects[..i])
      invariant SortedOn(sorted, centroid, dim)
    {
      sorted := InsertByKey(sorted, objects[i], centroid, dim);
      assert objects[..i + 1] == objects[..i] + [objects[i]];
    }
    assert objects[..|objects|] == objects;
  }

  /** `centroidBounds.pMin`: the componentwise least centroid. */
  function LowCorner<O>(objs: seq<O>, centroid: O -> Vec3): Vec3
    requires |objs| >= 1
  {
    if |objs| == 1 then centroid(objs[0])
    else MinV(LowCorner(objs[..|objs| - 1], centroid), centroid(objs[|objs| - 1]))
  }

  /** `centroidBounds.pMax`: the componentwise greatest centroid. */
  function HighCorner<O>(objs: seq<O>, centroid: O -> Vec3): Vec3
    requires |objs| >= 1
  {
    if |objs| == 1 then centroid(objs[0])
    else MaxV(HighCorner(objs[..|objs| - 1], centroid), centroid(objs[|objs| - 1]))
  }

  /** The centroid box is tight: on every axis its corners bound every
      centroid and are attained by some centroid. */
  lemma {:induction false} CornersAreTight<O>(objs: seq<O>, centroid: O -> Vec3, ax: Axis)
    requires |objs| >= 1
    ensures forall j :: 0 <= j < |objs| ==>
              LowCorner(objs, centroid).Coord(ax) <= centroid(objs[j]).Coord(ax) <= HighCorner(objs, centroid).Coord(ax)
    ensures exists j :: 0 <= j < |objs| && centroid(objs[j]).Coord(ax) == LowCorner(objs, centroid).Coord(ax)
    ensures exists j :: 0 <= j < |objs| && centroid(objs[j]).Coord(ax) == HighCorner(objs, centroid).Coord(ax)
  {
    if |objs| == 1 {
      assert centroid(objs[0]).Coord(ax) == LowCorner(objs, centroid).Coord(ax);
      assert centroid(objs[0]).Coord(ax) == HighCorner(objs, centroid).Coord(ax);
    } else {
      var init := objs[..|objs| - 1];
      var last := |objs| - 1;
      CornersAreTight(init, centroid, ax);
      assert forall j :: 0 <= j < last ==> objs[j] == init[j];
      var lo :| 0 <= lo < |init| && centroid(init[lo]).Coord(ax) == LowCorner(init, centroid).Coord(ax);
      var hi :| 0 <= hi < |init| && centroid(init[hi]).Coord(ax) == HighCorner(init, centroid).Coord(ax);
      if centroid(objs[last]).Coord(ax) <= LowCorner(init, centroid).Coord(ax) {
        assert centroid(objs[last]).Coord(ax) == LowCorner(objs, centroid).Coord(ax);
      } else {
        assert centroid(objs[lo]).Coord(ax) == LowCorner(objs, centroid).Coord(ax);
      }
      if centroid(objs[last]).Coord(ax) >= HighCorner(init, centroid).Coord(ax) {
        assert centroid(objs[last]).Coord(ax) == HighCorner(objs, centroid).Coord(ax);
      } else {
        assert centroid(objs[hi]).Coord(ax) == HighCorner(objs, centroid).Coord(ax);
      }
    }
  }

  /** The centroid-bounds loop of both builders: the union of the centroids of
      all objects. The loop is seeded with the first centroid, which is what the
      union of the empty box with that point gives. */
  method CentroidBounds<O>(objects: seq<O>, centroid: O -> Vec3) returns (pMin: Vec3, pMax: Vec3)
    requires |objects| >= 1
    ensures pMin == LowCorner(objects, centroid) && pMax == HighCorner(objects, centroid)
  {
    pMin := centroid(objects[0]);
    pMax := pMin;
    for i := 1 to |objects|
      invariant pMin == LowCorner(objects[..i], centroid) && pMax == HighCorner(objects[..i], centroid)
    {
      assert objects[..i + 1][..i] == objects[..i];
      pMin := MinV(pMin, centroid(objects[i]));
      pMax := MaxV(pMax, centroid(objects[i]));
    }
    assert objects[..|objects|] == objects;
  }

  /** `centroidBounds.maxExtent()`: the axis of largest centroid spread. */
  function SplitAxis<O, B, R, D>(objects: seq<O>, ops: PrimitiveOps<O, B, R, D>): Axis
    requires |objects| >= 1
  {
    ops.maxExtent(HighCorner(objects, ops.centroid).Minus(LowCorner(objects, ops.centroid)))
  }

  /** `sorted` is the order the SAH builder splits, after the scan has scored
      boundaries `0 .. scored-1` and kept `minLeftN`: the objects ordered on
      the split axis, exactly the boundaries that have a key above them
      scored, and `minLeftN` the scan's choice of left count. */
  ghost predicate SvhCut<O, B, R, D>(objects: seq<O>, ops: PrimitiveOps<O, B, R, D>, sorted: seq<O>, scored: nat, minLeftN: nat)
    requires |objects| >= 1
  {
    var lo := LowCorner(objects, ops.centroid);
    var hi := HighCorner(objects, ops.centroid);
    var diag := hi.Minus(lo);
    var dim := ops.maxExtent(diag);
    var keys := Keys(sorted, ops.centroid, dim);
    && multiset(sorted) == multiset(objects)
    && |sorted| == |objects|
    && SortedOn(sorted, ops.centroid, dim)
    && (minLeftN == 0 || minLeftN < |objects|)
    && scored <= Bins
    && (forall k :: 0 <= k < scored ==> Scored(keys, lo.Coord(dim), hi.Coord(dim), k))
    && !Scored(keys, lo.Coord(dim), hi.Coord(dim), scored)
    && IsSahChoice(keys, lo.Coord(dim), hi.Coord(dim), diag, dim, ops.surfaceArea(diag), scored, minLeftN)
  }

  /** Every object of `objects` has its centroid in the centroid box. */
  lemma KeysInBox<O>(objects: seq<O>, sorted: seq<O>, centroid: O -> Vec3, dim: Axis)
    requires |objects| >= 1 && multiset(sorted) == multiset(objects)
    ensures forall j :: 0 <= j < |sorted| ==>
              LowCorner(objects, centroid).Coord(dim) <= Keys(sorted, centroid, dim)[j] <= HighCorner(objects, centroid).Coord(dim)
  {
    CornersAreTight(objects, centroid, dim);
    forall j | 0 <= j < |sorted|
      ensures LowCorner(objects, centroid).Coord(dim) <= Keys(sorted, centroid, dim)[j] <= HighCorner(objects, centroid).Coord(dim)
    {
      assert sorted[j] in multiset(objects);
      var k :| 0 <= k < |objects| && objects[k] == sorted[j];
    }
  }

  /** The binned SAH choice of `recursiveBuildSVH` (the part from the centroid
      bounds to the end of the scan) for any number of objects: it returns the
      sorted objects, the final `index` and `min_leftn`. */
  method ChooseSvhCut<O, B, R, D>(objects: seq<O>, ops: PrimitiveOps<O, B, R, D>)
    returns (sorted: seq<O>, scored: nat, minLeftN: nat)
    ensures multiset(sorted) == multiset(objects)
    ensures |objects| == 0 ==> minLeftN == 0
    ensures |objects| >= 1 ==> SvhCut(objects, ops, sorted, scored, minLeftN)
  {
    if |objects| == 0 {
      return [], 0, 0;
    }
    var pMin, pMax := CentroidBounds(objects, ops.centroid);
    var diag := pMax.Minus(pMin);
    var dim := ops.maxExtent(diag);
    sorted := SortByCentroid(objects, ops.centroid, dim);
    var keys := Keys(sorted, ops.centroid, dim);
    KeysInBox(objects, sorted, ops.centroid, dim);
    minLeftN, scored := Scan(keys, pMin.Coord(dim), pMax.Coord(dim), diag, dim, ops.surfaceArea(diag));
    assert |multiset(sorted)| == |multiset(objects)|;
  }

  /** The keys of the SAH order are sorted and lie in the centroid box, which
      they touch at both ends. */
  lemma TightKeys<O>(objects: seq<O>, sorted: seq<O>, centroid: O -> Vec3, dim: Axis)
    requires |objects| >= 1 && multiset(sorted) == multiset(objects) && SortedOn(sorted, centroid, dim)
    ensures var keys := Keys(sorted, centroid, dim);
            var lo := LowCorner(objects, centroid).Coord(dim);
            var hi := HighCorner(objects, centroid).Coord(dim);
            && (forall i, j :: 0 <= i < j < |keys| ==> keys[i] <= keys[j])
            && (forall j :: 0 <= j < |keys| ==> lo <= keys[j] <= hi)
            && (exists j :: 0 <= j < |keys| && keys[j] == lo)
            && (exists j :: 0 <= j < |keys| && keys[j] == hi)
  {
    var keys := Keys(sorted, centroid, dim);
    KeysInBox(objects, sorted, centroid, dim);
    CornersAreTight(objects, centroid, dim);
    var a :| 0 <= a < |objects| && centroid(objects[a]).Coord(dim) == LowCorner(objects, centroid).Coord(dim);
    var b :| 0 <= b < |objects| && centroid(objects[b]).Coord(dim) == HighCorner(objects, centroid).Coord(dim);
    assert objects[a] in multiset(sorted) && objects[b] in multiset(sorted);
    var a' :| 0 <= a' < |sorted| && sorted[a'] == objects[a];
    var b' :| 0 <= b' < |sorted| && sorted[b'] == objects[b];
    assert keys[a'] == LowCorner(objects, centroid).Coord(dim);
    assert keys[b'] == HighCorner(objects, centroid).Coord(dim);
  }

  /** The SAH choice is either `0` (no candidate accepted) or a cut leaving
      both sides non-empty, and it is `0` exactly when no scored boundary
      costs less than `FloatMax`. */
  lemma SvhCutIsProper<O, B, R, D>(objects: seq<O>, ops: PrimitiveOps<O, B, R, D>, sorted: seq<O>, scored: nat, minLeftN: nat)
    requires |objects| >= 1 && SvhCut(objects, ops, sorted, scored, minLeftN)
    ensures minLeftN == 0 || 1 <= minLeftN < |objects|
    ensures minLeftN == 0 <==>
              var lo := LowCorner(objects, ops.centroid);
              var hi := HighCorner(objects, ops.centroid);
              var diag := hi.Minus(lo);
              var dim := ops.maxExtent(diag);
              var cost := CostOf(Keys(sorted, ops.centroid, dim), lo.Coord(dim), hi.Coord(dim), diag, dim, ops.surfaceArea(diag));
              forall k :: 0 <= k < scored ==> !Beats(cost(k), FloatMax)
  {
    var lo := LowCorner(objects, ops.centroid);
    var hi := HighCorner(objects, ops.centroid);
    var diag := hi.Minus(lo);
    var dim := ops.maxExtent(diag);
    assert |sorted| == |objects| by {
      assert |multiset(sorted)| == |multiset(objects)|;
    }
    TightKeys(objects, sorted, ops.centroid, dim);
    ChoiceIsProper(Keys(sorted, ops.centroid, dim), lo.Coord(dim), hi.Coord(dim), diag, dim, ops.surfaceArea(diag), scored, minLeftN);
  }

  /** Where the corrected SAH builder splits: the scan's choice, or the
      median when the scan accepted no candidate. */
  function CorrectedMid(minLeftN: nat, n: nat): nat {
    if minLeftN == 0 then n / 2 else minLeftN
  }

  /** An interior node whose left objects all have centroids not above those
      of its right objects on axis `dim`. */
  ghost predicate SplitOrdered<O, B>(t: BvhNode<O, B>, centroid: O -> Vec3, dim: Axis) {
    t.Interior? &&
    forall a, b :: a in Objects(t.left) && b in Objects(t.right) ==> centroid(a).Coord(dim) <= centroid(b).Coord(dim)
  }

  /** Parts with the same contents as two ordered parts are ordered too. */
  lemma OrderedParts<O>(l: seq<O>, r: seq<O>, sl: seq<O>, sr: seq<O>, centroid: O -> Vec3, dim: Axis)
    requires multiset(l) == multiset(sl) && multiset(r) == multiset(sr)
    requires forall a, b :: a in sl && b in sr ==> centroid(a).Coord(dim) <= centroid(b).Coord(dim)
    ensures forall a, b :: a in l && b in r ==> centroid(a).Coord(dim) <= centroid(b).Coord(dim)
  {
    forall a, b | a in l && b in r
      ensures centroid(a).Coord(dim) <= centroid(b).Coord(dim)
    {
      assert a in multiset(l) && b in multiset(r);
      assert a in sl && b in sr;
    }
  }

  /** Building both halves of a cut of `sorted` at `mid` keeps every object
      once and, when `sorted` is ordered, orders the halves. */
  lemma JoinHalves<O, B, R, D>(objects: seq<O>, sorted: seq<O>, mid: nat, left: BvhNode<O, B>, right: BvhNode<O, B>,
                               ops: PrimitiveOps<O, B, R, D>, dim: Axis)
    requires mid <= |sorted| && multiset(sorted) == multiset(objects) && SortedOn(sorted, ops.centroid, dim)
    requires multiset(Objects(left)) == multiset(sorted[..mid]) && multiset(Objects(right)) == multiset(sorted[mid..])
    ensures multiset(Objects(Interior(left, right, ops.union(left.bounds, right.bounds)))) == multiset(objects)
    ensures SplitOrdered(Interior(left, right, ops.union(left.bounds, right.bounds)), ops.centroid, dim)
    ensures |Objects(left)| == mid
  {
    JoinedContents(objects, sorted, mid, Objects(left), Objects(right));
    SortedSplitIsOrdered(sorted, mid, ops.centroid, dim);
    OrderedParts(Objects(left), Objects(right), sorted[..mid], sorted[mid..], ops.centroid, dim);
  }

  lemma JoinedContents<O>(objects: seq<O>, sorted: seq<O>, mid: nat, l: seq<O>, r: seq<O>)
    requires mid <= |sorted| && multiset(sorted) == multiset(objects)
    requires multiset(l) == multiset(sorted[..mid]) && multiset(r) == multiset(sorted[mid..])
    ensures multiset(l + r) == multiset(objects)
    ensures |l| == mid
  {
    assert sorted == sorted[..mid] + sorted[mid..];
    assert |l| == |multiset(l)| == |multiset(sorted[..mid])|;
  }

  lemma SortedSplitIsOrdered<O>(sorted: seq<O>, mid: nat, centroid: O -> Vec3, dim: Axis)
    requires mid <= |sorted| && SortedOn(sorted, centroid, dim)
    ensures forall a, b :: a in sorted[..mid] && b in sorted[mid..] ==> centroid(a).Coord(dim) <= centroid(b).Coord(dim)
  {
    forall a, b | a in sorted[..mid] && b in sorted[mid..]
      ensures centroid(a).Coord(dim) <= centroid(b).Coord(dim)
    {
      var i :| 0 <= i < mid && sorted[..mid][i] == a;
      var j :| 0 <= j < |sorted| - mid && sorted[mid..][j] == b;
      assert sorted[i] == a && sorted[mid + j] == b;
    }
  }

  /** The corrected `recursiveBuildSVH`: the same leaves, pairs and SAH scan,
      but a scan that accepts no candidate falls back to the median split
      instead of recursing on an empty half. */
  method RecursiveBuildSvh<O(!new), B, R, D>(objects: seq<O>, ops: PrimitiveOps<O, B, R, D>) returns (node: BvhNode<O, B>)
    requires |objects| >= 1
    ensures multiset(Objects(node)) == multiset(objects)
    ensures WellBounded(node, ops)
    ensures |objects| == 1 ==> node == Leaf(objects[0], ops.getBounds(objects[0]))
    ensures |objects| == 2 ==>
              node == Interior(Leaf(objects[0], ops.getBounds(objects[0])), Leaf(objects[1], ops.getBounds(objects[1])),
                               ops.union(ops.getBounds(objects[0]), ops.getBounds(objects[1])))
    ensures |objects| >= 3 ==> IsSvhSplit(objects, ops, node)
    decreases |objects|, 1
  {
    if |objects| == 1 {
      node := Leaf(objects[0], ops.getBounds(objects[0]));
    } else if |objects| == 2 {
      var left := RecursiveBuildSvh([objects[0]], ops);
      var right := RecursiveBuildSvh([objects[1]], ops);
      node := Interior(left, right, ops.union(left.bounds, right.bounds));
      assert objects == [objects[0]] + [objects[1]];
    } else {
      node := SvhSplit(objects, ops);
    }
  }

  /** `node` splits the objects where the SAH scan over their order on the
      split axis cuts (the median when the scan accepted nothing): its left
      child holds that many objects, none of whose centroids lies above one on
      the right. */
  ghost predicate IsSvhSplit<O(!new), B, R, D>(objects: seq<O>, ops: PrimitiveOps<O, B, R, D>, node: BvhNode<O, B>)
    requires |objects| >= 1
  {
    && SplitOrdered(node, ops.centroid, SplitAxis(objects, ops))
    && exists sorted, scored, m :: SvhCut(objects, ops, sorted, scored, m) && |Objects(node.left)| == CorrectedMid(m, |objects|)
  }

  /** The `else` branch of `recursiveBuildSVH`, corrected: scan, cut, build
      both halves and join their bounds. */
  method SvhSplit<O(!new), B, R, D>(objects: seq<O>, ops: PrimitiveOps<O, B, R, D>) returns (node: BvhNode<O, B>)
    requires |objects| >= 3
    ensures multiset(Objects(node)) == multiset(objects)
    ensures WellBounded(node, ops)
    ensures IsSvhSplit(objects, ops, node)
    decreases |objects|, 0
  {
    var sorted, scored, minLeftN := ChooseSvhCut(objects, ops);
    SvhCutIsProper(objects, ops, sorted, scored, minLeftN);
    var mid := CorrectedMid(minLeftN, |objects|);
    var left := RecursiveBuildSvh(sorted[..mid], ops);
    var right := RecursiveBuildSvh(sorted[mid..], ops);
    JoinHalves(objects, sorted, mid, left, right, ops, SplitAxis(objects, ops));
    node := Interior(left, right, ops.union(left.bounds, right.bounds));
  }

  /** `recursiveBuild`: a leaf for one object, two leaves under one node for
      two, and the median split below for more. */
  method RecursiveBuild<O, B, R, D>(objects: seq<O>, ops: PrimitiveOps<O, B, R, D>) returns (node: BvhNode<O, B>)
    requires |objects| >= 1
    ensures multiset(Objects(node)) == multiset(objects)
    ensures WellBounded(node, ops)
    ensures |objects| == 1 ==> node == Leaf(objects[0], ops.getBounds(objects[0]))
    ensures |objects| == 2 ==>
              node == Interior(Leaf(objects[0], ops.getBounds(objects[0])), Leaf(objects[1], ops.getBounds(objects[1])),
                               ops.union(ops.getBounds(objects[0]), ops.getBounds(objects[1])))
    ensures |objects| >= 3 ==> IsMedianSplit(objects, ops, node)
    decreases |objects|, 1
  {
    if |objects| == 1 {
      node := Leaf(objects[0], ops.getBounds(objects[0]));
    } else if |objects| == 2 {
      var left := RecursiveBuild([objects[0]], ops);
      var right := RecursiveBuild([objects[1]], ops);
      node := Interior(left, right, ops.union(left.bounds, right.bounds));
      assert objects == [objects[0]] + [objects[1]];
    } else {
      node := MedianSplit(objects, ops);
    }
  }

  /** `node` splits the objects at the median of their order on the axis of
      largest centroid spread: its left child holds `size / 2` of them, none
      of whose centroids lies above one on the right. */
  ghost predicate IsMedianSplit<O, B, R, D>(objects: seq<O>, ops: PrimitiveOps<O, B, R, D>, node: BvhNode<O, B>)
    requires |objects| >= 1
  {
    && SplitOrdered(node, ops.centroid, SplitAxis(objects, ops))
    && |Objects(node.left)| == |objects| / 2
  }

  /** The `else` branch of `recursiveBuild`: sort on the split axis, cut at
      `size / 2`, build both halves and join their bounds. */
  method MedianSplit<O, B, R, D>(objects: seq<O>, ops: PrimitiveOps<O, B, R, D>) returns (node: BvhNode<O, B>)
    requires |objects| >= 3
    ensures multiset(Objects(node)) == multiset(objects)
    ensures WellBounded(node, ops)
    ensures IsMedianSplit(objects, ops, node)
    decreases |objects|, 0
  {
    var pMin, pMax := CentroidBounds(objects, ops.centroid);
    var dim := ops.maxExtent(pMax.Minus(pMin));
    var sorted := SortByCentroid(objects, ops.centroid, dim);
    assert |sorted| == |objects| by {
      assert |multiset(sorted)| == |multiset(objects)|;
    }
    var mid := |objects| / 2;
    var left := RecursiveBuild(sorted[..mid], ops);
    var right := RecursiveBuild(sorted[mid..], ops);
    JoinHalves(objects, sorted, mid, left, right, ops, dim);
    node := Interior(left, right, ops.union(left.bounds, right.bounds));
  }

  /** Every object has the same centroid (the same object several times, or
      copies of one triangle). */
  ghost predicate AllCentroidsEqual<O>(objs: seq<O>, centroid: O -> Vec3) {
    forall i, j :: 0 <= i < |objs| && 0 <= j < |objs| ==> centroid(objs[i]) == centroid(objs[j])
  }

  /** With coincident centroids the centroid box is a point, no boundary is
      scored and the scan keeps `min_leftn == 0`. */
  lemma CoincidentCentroidsChooseNothing<O, B, R, D>(objects: seq<O>, ops: PrimitiveOps<O, B, R, D>, sorted: seq<O>, scored: nat, m: nat)
    requires |objects| >= 1 && SvhCut(objects, ops, sorted, scored, m)
    requires AllCentroidsEqual(objects, ops.centroid)
    ensures m == 0
  {
    var lo := LowCorner(objects, ops.centroid);
    var hi := HighCorner(objects, ops.centroid);
    var dim := ops.maxExtent(hi.Minus(lo));
    CornersAreTight(objects, ops.centroid, dim);
    var a :| 0 <= a < |objects| && ops.centroid(objects[a]).Coord(dim) == lo.Coord(dim);
    var b :| 0 <= b < |objects| && ops.centroid(objects[b]).Coord(dim) == hi.Coord(dim);
    assert ops.centroid(objects[a]) == ops.centroid(objects[b]);
    KeysInBox(objects, sorted, ops.centroid, dim);
    CoincidentKeysScoreNothing(Keys(sorted, ops.centroid, dim), lo.Coord(dim));
    assert scored == 0;
  }

  /** The surface area of the centroid box, the divisor of every SAH cost;
      it is zero when the centroids coincide or lie on one line. */
  ghost function CentroidArea<O, B, R, D>(objects: seq<O>, ops: PrimitiveOps<O, B, R, D>): real
    requires |objects| >= 1
  {
    ops.surfaceArea(HighCorner(objects, ops.centroid).Minus(LowCorner(objects, ops.centroid)))
  }

  /** With a flat centroid box every SAH cost is non-finite, so the scan keeps
      `min_leftn == 0`. */
  lemma FlatCentroidsChooseNothing<O, B, R, D>(objects: seq<O>, ops: PrimitiveOps<O, B, R, D>, sorted: seq<O>, scored: nat, m: nat)
    requires |objects| >= 1 && SvhCut(objects, ops, sorted, scored, m)
    requires CentroidArea(objects, ops) == 0.0
    ensures m == 0
  {
    var lo := LowCorner(objects, ops.centroid);
    var hi := HighCorner(objects, ops.centroid);
    var diag := hi.Minus(lo);
    var dim := ops.maxExtent(diag);
    ZeroAreaAcceptsNothing(Keys(sorted, ops.centroid, dim), lo.Coord(dim), hi.Coord(dim), diag, dim, scored, m);
  }

  /** `recursiveBuildSVH` as written: the scan's `min_leftn` is used as the
      cut even when it is `0`, so the empty left half recurses again
      without end. `fuel` bounds the recursion depth; `None` stands for
      running out of it. */
  method RecursiveBuildSvhAsWritten<O, B, R, D>(objects: seq<O>, ops: PrimitiveOps<O, B, R, D>, fuel: nat)
    returns (r: Option<BvhNode<O, B>>)
    ensures r.Some? ==> multiset(Objects(r.value)) == multiset(objects) && WellBounded(r.value, ops)
    ensures |objects| == 0 ==> r.None?
    ensures |objects| >= 3 && AllCentroidsEqual(objects, ops.centroid) ==> r.None?
    ensures |objects| >= 3 && CentroidArea(objects, ops) == 0.0 ==> r.None?
    decreases fuel, 1
  {
    if |objects| == 1 {
      r := Some(Leaf(objects[0], ops.getBounds(objects[0])));
    } else if |objects| == 2 {
      var left := Leaf(objects[0], ops.getBounds(objects[0]));
      var right := Leaf(objects[1], ops.getBounds(objects[1]));
      assert objects == [objects[0]] + [objects[1]];
      r := Some(Interior(left, right, ops.union(left.bounds, right.bounds)));
    } else if fuel == 0 {
      r := None;
    } else {
      r := SvhSplitAsWritten(objects, ops, fuel);
    }
  }

  /** The `else` branch of `recursiveBuildSVH` as written, reached for no
      objects as well as for three or more. */
  method SvhSplitAsWritten<O, B, R, D>(objects: seq<O>, ops: PrimitiveOps<O, B, R, D>, fuel: nat)
    returns (r: Option<BvhNode<O, B>>)
    requires fuel >= 1 && |objects| != 1 && |objects| != 2
    ensures r.Some? ==> multiset(Objects(r.value)) == multiset(objects) && WellBounded(r.value, ops)
    ensures |objects| == 0 ==> r.None?
    ensures |objects| >= 3 && AllCentroidsEqual(objects, ops.centroid) ==> r.None?
    ensures |objects| >= 3 && CentroidArea(objects, ops) == 0.0 ==> r.None?
    decreases fuel, 0
  {
    var sorted, scored, minLeftN := ChooseSvhCut(objects, ops);
    if |objects| >= 1 {
      SvhCutIsProper(objects, ops, sorted, scored, minLeftN);
      if AllCentroidsEqual(objects, ops.centroid) {
        CoincidentCentroidsChooseNothing(objects, ops, sorted, scored, minLeftN);
      }
      if CentroidArea(objects, ops) == 0.0 {
        FlatCentroidsChooseNothing(objects, ops, sorted, scored, minLeftN);
      }
    }
    assert |sorted| == |objects| by {
      assert |multiset(sorted)| == |multiset(objects)|;
    }
    var left := RecursiveBuildSvhAsWritten(sorted[..minLeftN], ops, fuel - 1);
    var right := RecursiveBuildSvhAsWritten(sorted[minLeftN..], ops, fuel - 1);
    if left.None? || right.None? {
      r := None;
    } else {
      assert sorted == sorted[..minLeftN] + sorted[minLeftN..];
      r := Some(Interior(left.value, right.value, ops.union(left.value.bounds, right.value.bounds)));
    }
  }

  /** `SplitMethod`, stored by `BVHAccel` but not consulted: the constructor
      always builds with the SAH builder, here its corrected form
      `RecursiveBuildSvh`. */
  datatype SplitMethod = Naive | Sah

  /** `BVHAccel`: the primitives, the capped leaf size and split method it was
      given, and the root built from the primitives, absent when there are none.
      The root is built with the corrected SAH builder; the builder as written
      does not return for three or more objects with coincident or collinear
      centroids (see `RecursiveBuildSvhAsWritten`). */
  class BvhAccel<O(!new), B, R, D> {
    const maxPrimsInNode: int
    const splitMethod: SplitMethod
    const primitives: seq<O>
    const ops: PrimitiveOps<O, B, R, D>
    const root: Option<BvhNode<O, B>>

    /** The tree holds exactly the primitives, with sound bounds. */
    ghost predicate Valid() {
      && (root.None? <==> |primitives| == 0)
      && (root.Some? ==> multiset(Objects(root.value)) == multiset(primitives) && WellBounded(root.value, ops))
    }

    constructor(p: seq<O>, maxPrims: int, split: SplitMethod, ops: PrimitiveOps<O, B, R, D>)
      ensures maxPrimsInNode == (if maxPrims < 255 then maxPrims else 255)
      ensures splitMethod == split && primitives == p && this.ops == ops
      ensures Valid()
    {
      var t: Option<BvhNode<O, B>> := None;
      if |p| != 0 {
        var built := RecursiveBuildSvh(p, ops);
        t := Some(built);
      }
      maxPrimsInNode := if maxPrims < 255 then maxPrims else 255;
      splitMethod := split;
      primitives := p;
      this.ops := ops;
      root := t;
    }

    /** `BVHAccel::Intersect`: the default no-hit without a root, the
        traversal from the root otherwise. */
    function Intersect(ray: R): (r: Intersection<O, D>)
      ensures root.None? ==> r == NoHit(ops.noHitDetail)
      ensures root.Some? ==> r == GetIntersection(root.value, ray, ops)
    {
      match root
      case None => NoHit(ops.noHitDetail)
      case Some(t) => GetIntersection(t, ray, ops)
    }
  }

  /** A built accelerator answers a ray query with the closest hit over all
      its primitives, provided the box tests never reject a box around a hit. */
  lemma IntersectIsClosestHit<O(!new), B(!new), R, D>(accel: BvhAccel<O, B, R, D>, ray: R)
    requires accel.Valid()
    requires HitsWellFormed(accel.primitives, ray, accel.ops)
    requires SoundBoxes(accel.ops, ray)
    ensures accel.Intersect(ray).happened <==>
              exists o :: o in accel.primitives && accel.ops.getIntersection(o, ray).happened
    ensures accel.Intersect(ray).happened ==>
              exists o :: o in accel.primitives && accel.Intersect(ray) == accel.ops.getIntersection(o, ray)
    ensures forall o :: o in accel.primitives && accel.ops.getIntersection(o, ray).happened ==>
              accel.Intersect(ray).distance <= accel.ops.getIntersection(o, ray).distance
  {
    if accel.root.Some? {
      var t := accel.root.value;
      assert forall o :: o in Objects(t) <==> o in accel.primitives by {
        assert forall o :: o in Objects(t) <==> o in multiset(Objects(t));
      }
      WellBoundedIsConservative(t, ray, accel.ops);
      TraversalMatchesLinearScan(t, ray, accel.ops);
    }
  }
}
