/** Shared vocabulary of the renderers: options, 3-vectors over the reals,
    the ray-query result record, the floating-point limits the code compares
    against, and the C++ float-to-int conversion. */
module Common {

  datatype Option<T> = None | Some(value: T)

  /** A coordinate axis, numbered as `Bounds3::maxExtent` numbers them. */
  type Axis = a: nat | a < 3

  /** `Vector3f` with real components. */
  datatype Vec3 = Vec3(x: real, y: real, z: real) {

    function Coord(a: Axis): real {
      if a == 0 then x else if a == 1 then y else z
    }

    function Plus(o: Vec3): Vec3 {
      Vec3(x + o.x, y + o.y, z + o.z)
    }

    function Minus(o: Vec3): Vec3 {
      Vec3(x - o.x, y - o.y, z - o.z)
    }

    function Times(s: real): Vec3 {
      Vec3(x * s, y * s, z * s)
    }
  }

  const Zero: Vec3 := Vec3(0.0, 0.0, 0.0)

  function Min(a: real, b: real): real { if a <= b then a else b }

  function Max(a: real, b: real): real { if a >= b then a else b }

  /** The componentwise minimum, the `pMin` of `Union` of two boxes or of a box and a point. */
  function MinV(a: Vec3, b: Vec3): (r: Vec3)
    ensures forall ax: Axis :: r.Coord(ax) == Min(a.Coord(ax), b.Coord(ax))
  {
    Vec3(Min(a.x, b.x), Min(a.y, b.y), Min(a.z, b.z))
  }

  /** The componentwise maximum, the `pMax` of `Union`. */
  function MaxV(a: Vec3, b: Vec3): (r: Vec3)
    ensures forall ax: Axis :: r.Coord(ax) == Max(a.Coord(ax), b.Coord(ax))
  {
    Vec3(Max(a.x, b.x), Max(a.y, b.y), Max(a.z, b.z))
  }

  /** `std::numeric_limits<float>::max()`, the initial `min_c` of the SAH scan. */
  const FloatMax: real := 340282346638528859811704183484516925440.0

  /** `std::numeric_limits<double>::max()`, the distance of a default `Intersection`. */
  const DoubleMax: real := 179769313486231570814527423731704356798070567525844996598917476803157260780028538760589558632766878171540458953514382464234321326889464182768467546703537516986049910576551282076245490090389328944075868508455133942304583236903222948165808559332123348274797826204144723168738177180919299881250404026184124858368.0

  /** `INT_MAX` of a 32-bit `int`. */
  const IntMax: int := 2147483647

  /** The result of a ray query. `detail` stands for the fields that are only
      carried along (coordinates, normal, emission, material). */
  datatype Intersection<O, D> = Intersection(happened: bool, distance: real, obj: Option<O>, detail: D)

  /** The default-constructed `Intersection`: no hit, distance `DoubleMax`, no object. */
  function NoHit<O, D>(detail: D): Intersection<O, D> {
    Intersection(false, DoubleMax, None, detail)
  }

  /** C++ conversion of a (finite, in-range) floating value to an integer:
      truncation toward zero. */
  function Trunc(r: real): (n: int)
    ensures r >= 0.0 ==> n as real <= r < n as real + 1.0
    ensures r < 0.0 ==> n as real - 1.0 < r <= n as real
  {
    if r >= 0.0 then r.Floor else -((-r).Floor)
  }
}
