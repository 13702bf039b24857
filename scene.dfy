/** The scene queries of hw7/Scene.cpp: building the BVH over the scene's
    objects, the nearest-hit query through it, the area-weighted choice of a
    light in `sampleLight`, and the brute-force nearest-hit loop `trace`. */
module Scene {
  import opened Common
  import opened BvhTree
  import opened BvhBuild

  /** What `sampleLight` asks of an object: whether it emits, its area, and
      `Object::Sample`, which is given the caller's intersection and returns it
      with the fields it writes updated, together with the density. */
  datatype EmitterOps<!O, !D> = EmitterOps(
    hasEmit: O -> bool,
    getArea: O -> real,
    sample: (O, Intersection<O, D>) -> (Intersection<O, D>, real))

  /** The running `emit_area_sum` after objects `0 .. k-1`: the total area of
      the emitting ones. */
  function EmitArea<O, D>(objs: seq<O>, e: EmitterOps<O, D>, k: nat): real
    requires k <= |objs|
  {
    if k == 0 then 0.0
    else EmitArea(objs, e, k - 1) + (if e.hasEmit(objs[k - 1]) then e.getArea(objs[k - 1]) else 0.0)
  }

  /** Object `k` is the light the second loop of `sampleLight` stops at for
      the threshold `p`: it emits, `p` does not exceed the running sum that
      includes it, and `p` exceeded the running sum at every earlier emitter. */
  ghost predicate Chosen<O, D>(objs: seq<O>, e: EmitterOps<O, D>, p: real, k: int) {
    && 0 <= k < |objs|
    && e.hasEmit(objs[k])
    && p <= EmitArea(objs, e, k + 1)
    && forall j :: 0 <= j < k && e.hasEmit(objs[j]) ==> p > EmitArea(objs, e, j + 1)
  }

  /** `p` of `sampleLight`: the random factor `u` times the total emitting area. */
  function Threshold<O, D>(objs: seq<O>, e: EmitterOps<O, D>, u: real): real {
    u * EmitArea(objs, e, |objs|)
  }

  /** At most one object is chosen for a threshold. */
  lemma ChosenIsUnique<O, D>(objs: seq<O>, e: EmitterOps<O, D>, p: real, k1: int, k2: int)
    requires Chosen(objs, e, p, k1) && Chosen(objs, e, p, k2)
    ensures k1 == k2
  {
  }

  /** Emitters of non-negative area make the running sum non-decreasing. */
  ghost predicate NonNegativeAreas<O, D>(objs: seq<O>, e: EmitterOps<O, D>) {
    forall k :: 0 <= k < |objs| && e.hasEmit(objs[k]) ==> e.getArea(objs[k]) >= 0.0
  }

  lemma {:induction false} EmitAreaMonotone<O, D>(objs: seq<O>, e: EmitterOps<O, D>, i: nat, j: nat)
    requires i <= j <= |objs| && NonNegativeAreas(objs, e)
    ensures EmitArea(objs, e, i) <= EmitArea(objs, e, j)
  {
    if i < j {
      EmitAreaMonotone(objs, e, i, j - 1);
    }
  }

  /** With no emitter among objects `i .. j-1` the running sum does not move. */
  lemma {:induction false} EmitAreaFlat<O, D>(objs: seq<O>, e: EmitterOps<O, D>, i: nat, j: nat)
    requires i <= j <= |objs|
    requires forall k :: i <= k < j ==> !e.hasEmit(objs[k])
    ensures EmitArea(objs, e, i) == EmitArea(objs, e, j)
  {
    if i < j {
      EmitAreaFlat(objs, e, i, j - 1);
    }
  }

  /** Area-weighted choice: for a positive threshold and non-negative areas,
      an object is chosen exactly when it emits and the threshold falls in
      its own slice `(EmitArea(k), EmitArea(k + 1)]` of the total, a slice as
      long as its area. */
  lemma {:induction false} ChosenIffInSlice<O, D>(objs: seq<O>, e: EmitterOps<O, D>, p: real, k: nat)
    requires k < |objs| && NonNegativeAreas(objs, e) && p > 0.0
    ensures Chosen(objs, e, p, k) <==>
              e.hasEmit(objs[k]) && EmitArea(objs, e, k) < p <= EmitArea(objs, e, k + 1)
  {
    if e.hasEmit(objs[k]) && EmitArea(objs, e, k) < p <= EmitArea(objs, e, k + 1) {
      forall j | 0 <= j < k && e.hasEmit(objs[j])
        ensures p > EmitArea(objs, e, j + 1)
      {
        EmitAreaMonotone(objs, e, j + 1, k);
      }
    }
    if Chosen(objs, e, p, k) {
      if exists j :: 0 <= j < k && e.hasEmit(objs[j]) {
        var last := LastEmitterBefore(objs, e, k);
        EmitAreaFlat(objs, e, last + 1, k);
      } else {
        EmitAreaFlat(objs, e, 0, k);
      }
    }
  }

  /** The last emitter before `k`, when there is one. */
  lemma LastEmitterBefore<O, D>(objs: seq<O>, e: EmitterOps<O, D>, k: nat) returns (last: nat)
    requires k <= |objs|
    requires exists j :: 0 <= j < k && e.hasEmit(objs[j])
    ensures last < k && e.hasEmit(objs[last])
    ensures forall j :: last < j < k ==> !e.hasEmit(objs[j])
  {
    last := k - 1;
    while !e.hasEmit(objs[last])
      invariant last < k
      invariant forall j :: last < j < k ==> !e.hasEmit(objs[j])
      invariant exists j :: 0 <= j <= last && e.hasEmit(objs[j])
      decreases last
    {
      last := last - 1;
    }
  }

  /** Some light is always chosen when one exists, the areas are
      non-negative and the random factor lies in `[0, 1]`: the threshold
      never exceeds the total area. */
  lemma SomeLightIsChosen<O, D>(objs: seq<O>, e: EmitterOps<O, D>, u: real)
    requires NonNegativeAreas(objs, e) && 0.0 <= u <= 1.0
    requires exists k :: 0 <= k < |objs| && e.hasEmit(objs[k])
    ensures exists k :: Chosen(objs, e, Threshold(objs, e, u), k)
  {
    var total := EmitArea(objs, e, |objs|);
    var p := Threshold(objs, e, u);
    EmitAreaMonotone(objs, e, 0, |objs|);
    assert p <= total by {
      assert (1.0 - u) * total >= 0.0;
    }
    var last := LastEmitterBefore(objs, e, |objs|);
    EmitAreaFlat(objs, e, last + 1, |objs|);
    var k := 0;
    while !(e.hasEmit(objs[k]) && p <= EmitArea(objs, e, k + 1))
      invariant k <= last
      invariant forall j :: 0 <= j < k && e.hasEmit(objs[j]) ==> p > EmitArea(objs, e, j + 1)
      decreases last - k
    {
      k := k + 1;
    }
    assert Chosen(objs, e, p, k);
  }

  /** The brute-force nearest hit of `Scene::trace` over `objects`, with the
      object's own test `intersect` giving whether it is hit, its `tNearK`
      and its `indexK`. A hit counts when it is nearer than `tNear0`; the
      first nearest one wins. Without one, `*hitObject` is null and `tNear`
      and `index` keep their values. */
  method Trace<O, R>(ray: R, objects: seq<O>, intersect: (O, R) -> (bool, real, nat), tNear0: real, index0: nat)
    returns (found: bool, tNear: real, index: nat, hitObject: Option<O>)
    ensures found <==> hitObject.Some?
    ensures found <==> exists k :: 0 <= k < |objects| && intersect(objects[k], ray).0 && intersect(objects[k], ray).1 < tNear0
    ensures !found ==> tNear == tNear0 && index == index0
    ensures found ==>
              exists k :: 0 <= k < |objects| && hitObject == Some(objects[k]) &&
                intersect(objects[k], ray).0 && intersect(objects[k], ray).1 < tNear0 &&
                tNear == intersect(objects[k], ray).1 && index == intersect(objects[k], ray).2 &&
                (forall j :: 0 <= j < |objects| && intersect(objects[j], ray).0 && intersect(objects[j], ray).1 < tNear0 ==>
                   tNear <= intersect(objects[j], ray).1) &&
                (forall j :: 0 <= j < k && intersect(objects[j], ray).0 ==> intersect(objects[j], ray).1 > tNear)
  {
    hitObject := None;
    tNear, index := tNear0, index0;
    ghost var winner := 0;
    for k := 0 to |objects|
      invariant hitObject.Some? <==>
                  exists j :: 0 <= j < k && intersect(objects[j], ray).0 && intersect(objects[j], ray).1 < tNear0
      invariant hitObject.None? ==> tNear == tNear0 && index == index0
      invariant hitObject.Some? ==>
                  0 <= winner < k && hitObject == Some(objects[winner]) &&
                  intersect(objects[winner], ray).0 && intersect(objects[winner], ray).1 < tNear0 &&
                  tNear == intersect(objects[winner], ray).1 && index == intersect(objects[winner], ray).2 &&
                  (forall j :: 0 <= j < winner && intersect(objects[j], ray).0 ==> intersect(objects[j], ray).1 > tNear)
      invariant forall j :: 0 <= j < k && intersect(objects[j], ray).0 && intersect(objects[j], ray).1 < tNear0 ==>
                  tNear <= intersect(objects[j], ray).1
    {
      var r := intersect(objects[k], ray);
      if r.0 && r.1 < tNear {
        hitObject := Some(objects[k]);
        tNear := r.1;
        index := r.2;
        winner := k;
      }
    }
    found := hitObject.Some?;
  }

  /** `Scene`: the objects, the geometry and emission operations over them,
      and the BVH, absent until `buildBVH` runs. */
  class Scene<O(!new), B, R, D> {
    const objects: seq<O>
    const ops: PrimitiveOps<O, B, R, D>
    const lights: EmitterOps<O, D>
    var bvh: BvhAccel?<O, B, R, D>

    constructor(objects: seq<O>, ops: PrimitiveOps<O, B, R, D>, lights: EmitterOps<O, D>)
      ensures this.objects == objects && this.ops == ops && this.lights == lights && bvh == null
    {
      this.objects := objects;
      this.ops := ops;
      this.lights := lights;
      bvh := null;
    }

    /** `Scene::buildBVH`: a fresh accelerator over the objects, with leaf size 1
        and the naive split method requested, built with the corrected SAH
        builder of `BvhAccel`. */
    method BuildBvh()
      modifies this
      ensures bvh != null && fresh(bvh)
      ensures bvh.primitives == objects && bvh.ops == ops
      ensures bvh.maxPrimsInNode == 1 && bvh.splitMethod == Naive
      ensures bvh.Valid()
    {
      bvh := new BvhAccel(objects, 1, Naive, ops);
    }

    /** `Scene::intersect`: the query through the BVH. */
    function Intersect(ray: R): Intersection<O, D>
      reads this
      requires bvh != null
    {
      bvh.Intersect(ray)
    }

    /** `Scene::sampleLight`: with `u` for `get_random_float()`, the threshold
        `u` times the total emitting area picks the chosen light, whose sample
        is returned with its object set; when no light is chosen `pos` and `pdf`
        are left as they were passed in. */
    method SampleLight(u: real, pos0: Intersection<O, D>, pdf0: real) returns (pos: Intersection<O, D>, pdf: real)
      ensures forall k :: Chosen(objects, lights, Threshold(objects, lights, u), k) ==>
                pos == lights.sample(objects[k], pos0).0.(obj := Some(objects[k])) && pdf == lights.sample(objects[k], pos0).1
      ensures (forall k :: !Chosen(objects, lights, Threshold(objects, lights, u), k)) ==>
                pos == pos0 && pdf == pdf0
    {
      var emitAreaSum := 0.0;
      for k := 0 to |objects|
        invariant emitAreaSum == EmitArea(objects, lights, k)
      {
        if lights.hasEmit(objects[k]) {
          emitAreaSum := emitAreaSum + lights.getArea(objects[k]);
        }
      }
      var p := u * emitAreaSum;
      assert p == Threshold(objects, lights, u);
      emitAreaSum := 0.0;
      pos, pdf := pos0, pdf0;
      ghost var chosen := -1;
      var k := 0;
      while k < |objects|
        invariant 0 <= k <= |objects| && emitAreaSum == EmitArea(objects, lights, k)
        invariant chosen == -1 && pos == pos0 && pdf == pdf0
        invariant forall j :: 0 <= j < k && lights.hasEmit(objects[j]) ==> p > EmitArea(objects, lights, j + 1)
      {
        if lights.hasEmit(objects[k]) {
          emitAreaSum := emitAreaSum + lights.getArea(objects[k]);
          if p <= emitAreaSum {
            var s := lights.sample(objects[k], pos);
            pos := s.0.(obj := Some(objects[k]));
            pdf := s.1;
            chosen := k;
            assert Chosen(objects, lights, p, chosen);
            break;
          }
        }
        k := k + 1;
      }
      forall k' | Chosen(objects, lights, p, k')
        ensures chosen != -1 && k' == chosen
      {
        if chosen != -1 {
          ChosenIsUnique(objects, lights, p, k', chosen);
        }
      }
      if chosen != -1 {
        assert pos == lights.sample(objects[chosen], pos0).0.(obj := Some(objects[chosen]));
      }
    }
  }

  /** A built scene answers a ray with the closest hit over all its objects,
      provided the box tests never reject a box around a hit. */
  lemma SceneIntersectIsClosestHit<O(!new), B(!new), R, D>(scene: Scene<O, B, R, D>, ray: R)
    requires scene.bvh != null && scene.bvh.Valid()
    requires scene.bvh.primitives == scene.objects && scene.bvh.ops == scene.ops
    requires HitsWellFormed(scene.objects, ray, scene.ops) && SoundBoxes(scene.ops, ray)
    ensures scene.Intersect(ray).happened <==>
              exists o :: o in scene.objects && scene.ops.getIntersection(o, ray).happened
    ensures scene.Intersect(ray).happened ==>
              exists o :: o in scene.objects && scene.Intersect(ray) == scene.ops.getIntersection(o, ray)
    ensures forall o :: o in scene.objects && scene.ops.getIntersection(o, ray).happened ==>
              scene.Intersect(ray).distance <= scene.ops.getIntersection(o, ray).distance
  {
    IntersectIsClosestHit(scene.bvh, ray);
  }
}
