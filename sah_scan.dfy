/** The binned surface-area-heuristic scan of `BVHAccel::recursiveBuildSVH`
    (hw6/BVH.cpp): a cursor `i` over the objects' centroid keys on the split
    axis and a boundary `middle` that advances by one bin width each time a
    candidate cut is scored. Arithmetic is over the reals. */
module SahScan {
  import opened Common

  /** `B`, the number of bins. */
  const Bins: nat := 100

  /** `calS`: the surface area of a box with diagonal `d`. */
  function CalS(d: Vec3): real {
    (d.x * d.y + d.y * d.z + d.x * d.z) * 2.0
  }

  /** The diagonal `d` with its component on `dim` multiplied by `f`. */
  function ScaleAxis(d: Vec3, dim: Axis, f: real): Vec3 {
    if dim == 0 then Vec3(d.x * f, d.y, d.z)
    else if dim == 1 then Vec3(d.x, d.y * f, d.z)
    else Vec3(d.x, d.y, d.z * f)
  }

  /** A floating-point cost: a finite value, or the infinity or NaN that a
      division by a zero surface area yields (neither is `<` anything). */
  datatype Cost = Finite(value: real) | NotFinite

  /** `cur_c` for a cut that leaves `i` of `n` objects on the left at bin
      boundary number `index`. */
  function CandidateCost(n: nat, i: nat, index: nat, diag: Vec3, dim: Axis, sa: real): Cost
    requires i <= n
  {
    if sa == 0.0 then NotFinite
    else
      var f := index as real / Bins as real;
      var sLeft := CalS(ScaleAxis(diag, dim, f));
      var sRight := CalS(ScaleAxis(diag, dim, 1.0 - f));
      Finite(((i as real) * sLeft + ((n - i) as real) * sRight) / sa)
  }

  /** `cur_c < min_c` */
  predicate Beats(c: Cost, bound: real) {
    c.Finite? && c.value < bound
  }

  /** `intervel`, the bin width. */
  function Step(lo: real, hi: real): real {
    (hi - lo) / Bins as real
  }

  /** Bin boundary number `k`: the value of `middle` after `k` scored candidates. */
  function Boundary(lo: real, hi: real, k: nat): real {
    lo + (k as real) * Step(lo, hi)
  }

  /** The index of the first key strictly above `m`, or `|keys|` if none is. */
  function FirstAbove(keys: seq<real>, m: real): (r: nat)
    ensures r <= |keys|
    ensures r < |keys| ==> keys[r] > m
    ensures forall j :: 0 <= j < r ==> keys[j] <= m
  {
    if |keys| == 0 then 0
    else if keys[0] > m then 0
    else 1 + FirstAbove(keys[1..], m)
  }

  /** The left count at which boundary `k` is scored. */
  function Candidate(keys: seq<real>, lo: real, hi: real, k: nat): nat {
    FirstAbove(keys, Boundary(lo, hi, k))
  }

  /** Boundary `k` is scored when some key lies above it. */
  predicate Scored(keys: seq<real>, lo: real, hi: real, k: nat) {
    Candidate(keys, lo, hi, k) < |keys|
  }

  function CostAt(keys: seq<real>, lo: real, hi: real, diag: Vec3, dim: Axis, sa: real, k: nat): Cost {
    CandidateCost(|keys|, Candidate(keys, lo, hi, k), k, diag, dim, sa)
  }

  /** The costs of the scored boundaries, by boundary number. */
  ghost function CostOf(keys: seq<real>, lo: real, hi: real, diag: Vec3, dim: Axis, sa: real): nat -> Cost {
    (k: nat) => CostAt(keys, lo, hi, diag, dim, sa, k)
  }

  /** Boundary `k` of the first `scored` ones holds a least finite cost, below
      `FloatMax`, and every earlier boundary costs strictly more. */
  ghost predicate IsBestAt(cost: nat -> Cost, scored: nat, k: nat) {
    && Beats(cost(k), FloatMax)
    && (forall j :: 0 <= j < scored && cost(j).Finite? ==> cost(k).value <= cost(j).value)
    && (forall j :: 0 <= j < k && cost(j).Finite? ==> cost(k).value < cost(j).value)
  }

  /** `minLeftN` is what the scan keeps after scoring boundaries `0 .. scored-1`:
      `0` when no candidate beats the initial `FloatMax`; otherwise the left
      count of the candidate of least finite cost, the earliest one among
      equals. */
  ghost predicate IsSahChoice(keys: seq<real>, lo: real, hi: real, diag: Vec3, dim: Axis, sa: real,
                              scored: nat, minLeftN: nat)
  {
    var cost := CostOf(keys, lo, hi, diag, dim, sa);
    (minLeftN == 0 && forall k :: 0 <= k < scored ==> !Beats(cost(k), FloatMax))
    || exists k :: 0 <= k < scored && IsBestAt(cost, scored, k) && minLeftN == Candidate(keys, lo, hi, k)
  }

  lemma FirstAboveAt(keys: seq<real>, m: real, i: nat)
    requires i <= |keys|
    requires forall j :: 0 <= j < i ==> keys[j] <= m
    requires i < |keys| ==> keys[i] > m
    ensures FirstAbove(keys, m) == i
  {
  }

  /** A key inside `[lo, hi]` above boundary `k` shows `k < Bins`: boundary
      `Bins` is `hi` itself. */
  lemma BoundaryCapsIndex(lo: real, hi: real, k: nat, key: real)
    requires lo <= key <= hi && key > Boundary(lo, hi, k)
    ensures k < Bins
  {
  }

  lemma NextBoundary(lo: real, hi: real, k: nat)
    ensures Boundary(lo, hi, k + 1) == Boundary(lo, hi, k) + Step(lo, hi)
  {
  }

  /** A candidate below `bound`, where no earlier finite cost is below
      `bound`, is the new best. */
  lemma NewBest(cost: nat -> Cost, scored: nat, bound: real)
    requires Beats(cost(scored), bound) && bound <= FloatMax
    requires forall j :: 0 <= j < scored && cost(j).Finite? ==> bound <= cost(j).value
    ensures IsBestAt(cost, scored + 1, scored)
  {
  }

  /** A candidate that does not beat the best keeps it. */
  lemma BestStays(cost: nat -> Cost, scored: nat, k: nat)
    requires IsBestAt(cost, scored, k)
    requires !Beats(cost(scored), cost(k).value)
    ensures IsBestAt(cost, scored + 1, k)
  {
  }

  /** The scan loop of `recursiveBuildSVH` over the centroid keys of the
      objects on the split axis, between the centroid box bounds `lo` and `hi`
      on that axis. It returns `min_leftn` and the final `index`: boundaries
      `0 .. index-1` are exactly the scored ones, there are at most `Bins`
      of them, and `min_leftn` is the SAH choice among them. */
  method Scan(keys: seq<real>, lo: real, hi: real, diag: Vec3, dim: Axis, sa: real)
    returns (minLeftN: nat, index: nat)
    requires forall j :: 0 <= j < |keys| ==> lo <= keys[j] <= hi
    ensures index <= Bins
    ensures forall k :: 0 <= k < index ==> Scored(keys, lo, hi, k)
    ensures !Scored(keys, lo, hi, index)
    ensures minLeftN < |keys| || minLeftN == 0
    ensures IsSahChoice(keys, lo, hi, diag, dim, sa, index, minLeftN)
  {
    var n := |keys|;
    var intervel := Step(lo, hi);
    var middle := lo;
    var minC := FloatMax;
    minLeftN := 0;
    index := 0;
    var i := 0;
    ghost var best: int := -1;
    ghost var cost := CostOf(keys, lo, hi, diag, dim, sa);
    while i < n
      invariant 0 <= i <= n && index <= Bins
      invariant middle == Boundary(lo, hi, index)
      invariant forall j :: 0 <= j < i ==> keys[j] <= middle
      invariant forall k :: 0 <= k < index ==> Scored(keys, lo, hi, k)
      invariant minLeftN < n || minLeftN == 0
      invariant best == -1 ==>
                  minLeftN == 0 && minC == FloatMax && forall k :: 0 <= k < index ==> !Beats(cost(k), FloatMax)
      invariant best != -1 ==>
                  0 <= best < index && IsBestAt(cost, index, best) &&
                  minLeftN == Candidate(keys, lo, hi, best) && minC == cost(best).value
      decreases (n - i) + (Bins - index)
    {
      if keys[i] > middle {
        BoundaryCapsIndex(lo, hi, index, keys[i]);
        FirstAboveAt(keys, middle, i);
        var curC := CandidateCost(n, i, index, diag, dim, sa);
        assert curC == cost(index);
        if curC.Finite? && curC.value < minC {
          NewBest(cost, index, minC);
          minC := curC.value;
          minLeftN := i;
          best := index;
        } else if best != -1 {
          BestStays(cost, index, best);
        }
        NextBoundary(lo, hi, index);
        middle := middle + intervel;
        index := index + 1;
      } else {
        i := i + 1;
      }
    }
    FirstAboveAt(keys, middle, n);
  }

  /** With a tight box whose range on the axis is positive, the first
      boundary is always scored, and every scored boundary cuts the keys into
      two non-empty parts. */
  lemma PositiveRangeScoresNonEmptyCuts(keys: seq<real>, lo: real, hi: real)
    requires |keys| > 0 && keys[0] == lo && lo < hi
    requires forall j :: 0 <= j < |keys| ==> lo <= keys[j] <= hi
    requires exists j :: 0 <= j < |keys| && keys[j] == hi
    ensures Scored(keys, lo, hi, 0)
    ensures forall k :: Scored(keys, lo, hi, k) ==> 1 <= Candidate(keys, lo, hi, k) <= |keys| - 1
  {
    var j :| 0 <= j < |keys| && keys[j] == hi;
    assert Boundary(lo, hi, 0) == lo;
    assert keys[j] > Boundary(lo, hi, 0);
    forall k | Scored(keys, lo, hi, k)
      ensures 1 <= Candidate(keys, lo, hi, k)
    {
      assert (k as real) * Step(lo, hi) >= 0.0;
      assert keys[0] <= Boundary(lo, hi, k);
    }
  }

  /** When every key equals the lower bound (all centroids coincide on the
      axis), no boundary is scored. */
  lemma CoincidentKeysScoreNothing(keys: seq<real>, lo: real)
    requires forall j :: 0 <= j < |keys| ==> keys[j] == lo
    ensures !Scored(keys, lo, lo, 0)
  {
    assert Boundary(lo, lo, 0) == lo;
  }

  /** A zero surface area makes every candidate cost non-finite, so no
      candidate beats the initial `FloatMax`. */
  lemma ZeroAreaAcceptsNothing(keys: seq<real>, lo: real, hi: real, diag: Vec3, dim: Axis, scored: nat, minLeftN: nat)
    requires IsSahChoice(keys, lo, hi, diag, dim, 0.0, scored, minLeftN)
    ensures minLeftN == 0
  {
  }

  /** Over sorted keys whose box `[lo, hi]` is tight, the choice is `0` or a
      cut that leaves both sides non-empty, and it is `0` exactly when no
      scored boundary costs less than `FloatMax`. */
  lemma ChoiceIsProper(keys: seq<real>, lo: real, hi: real, diag: Vec3, dim: Axis, sa: real, scored: nat, minLeftN: nat)
    requires forall i, j :: 0 <= i < j < |keys| ==> keys[i] <= keys[j]
    requires forall j :: 0 <= j < |keys| ==> lo <= keys[j] <= hi
    requires exists j :: 0 <= j < |keys| && keys[j] == lo
    requires exists j :: 0 <= j < |keys| && keys[j] == hi
    requires forall k :: 0 <= k < scored ==> Scored(keys, lo, hi, k)
    requires !Scored(keys, lo, hi, scored)
    requires IsSahChoice(keys, lo, hi, diag, dim, sa, scored, minLeftN)
    ensures minLeftN == 0 || 1 <= minLeftN < |keys|
    ensures minLeftN == 0 <==> forall k :: 0 <= k < scored ==> !Beats(CostOf(keys, lo, hi, diag, dim, sa)(k), FloatMax)
  {
    if lo < hi {
      var a :| 0 <= a < |keys| && keys[a] == lo;
      assert keys[0] <= keys[a];
      PositiveRangeScoresNonEmptyCuts(keys, lo, hi);
    } else {
      CoincidentKeysScoreNothing(keys, lo);
      assert scored == 0;
    }
  }
}
