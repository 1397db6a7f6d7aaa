/**
 The module signer's Ed25519: addition of points in extended coordinates, keys,
 signatures and their verification, as sections 5.1.4 to 5.1.7 of RFC 8032 give them.
 */
module Ed25519 {
  import opened Aead
  import Crc32c
  import opened DoubleAndAdd
  import opened Modular
  import opened Options

  type Bytes = Crc32c.Bytes

  /** A point in extended coordinates: `x / z`, `y / z`, and `t / z` their product. */
  datatype Point = Point(x: int, y: int, z: int, t: int)

  type Positive = n: int | n > 0 witness 1

  const TWO_256: int := 0x1_0000_0000_0000_0000_0000_0000_0000_0000_0000_0000_0000_0000_0000_0000_0000_0000

  /** An order that fits the thirty-two bytes of a signature's second half. */
  type Order = n: int | 0 < n <= TWO_256 witness 1

  /** The modulus of the field, the curve's constant, the order of the base, the base: what
      follows holds for any, the source's in section 5.1 of RFC 8032 among them. */
  datatype Params = Params(p: Positive, d: int, q: Order, base: Point)

  const ZERO := Point(0, 1, 1, 0)

  // ---- addition ----

  function Less(cv: Params, a: Point, b: Point): int {
    (a.y - a.x) * (b.y - b.x) % cv.p
  }

  function More(cv: Params, a: Point, b: Point): int {
    (a.y + a.x) * (b.y + b.x) % cv.p
  }

  function Twist(cv: Params, a: Point, b: Point): int {
    2 * a.t * b.t * cv.d % cv.p
  }

  function Scale(cv: Params, a: Point, b: Point): int {
    2 * a.z * b.z % cv.p
  }

  function Combine(cv: Params, u: int, v: int, w: int, s: int): Point {
    var e, f, g, h := v - u, s - w, s + w, v + u;
    Point(e * f % cv.p, g * h % cv.p, f * g % cv.p, e * h % cv.p)
  }

  /** `point_add`. */
  function PointAdd(cv: Params, a: Point, b: Point): Point {
    Combine(cv, Less(cv, a, b), More(cv, a, b), Twist(cv, a, b), Scale(cv, a, b))
  }

  /** `point_equal`. */
  predicate PointEqual(cv: Params, a: Point, b: Point) {
    (a.x * b.z - b.x * a.z) % cv.p == 0 && (a.y * b.z - b.y * a.z) % cv.p == 0
  }

  /** Coordinates that stand for a point: a denominator, and the product in `t`. */
  predicate Proper(cv: Params, a: Point) {
    !Same(cv.p, a.z, 0) && Same(cv.p, a.t * a.z, a.x * a.y)
  }

  lemma OuterCommutes(cv: Params, a: Point, b: Point)
    ensures Less(cv, a, b) == Less(cv, b, a) && More(cv, a, b) == More(cv, b, a)
  {
    assert (a.y - a.x) * (b.y - b.x) == (b.y - b.x) * (a.y - a.x);
    assert (a.y + a.x) * (b.y + b.x) == (b.y + b.x) * (a.y + a.x);
  }

  lemma InnerCommutes(cv: Params, a: Point, b: Point)
    ensures Twist(cv, a, b) == Twist(cv, b, a) && Scale(cv, a, b) == Scale(cv, b, a)
  {
    assert 2 * a.t * b.t * cv.d == 2 * b.t * a.t * cv.d;
    assert 2 * a.z * b.z == 2 * b.z * a.z;
  }

  lemma AddCommutes(cv: Params, a: Point, b: Point)
    ensures PointAdd(cv, a, b) == PointAdd(cv, b, a)
  {
    OuterCommutes(cv, a, b);
    InnerCommutes(cv, a, b);
  }

  lemma EqualSymmetric(cv: Params, a: Point, b: Point)
    requires PointEqual(cv, a, b)
    ensures PointEqual(cv, b, a)
  {
    SameSym(cv.p, a.x * b.z, b.x * a.z);
    SameSym(cv.p, a.y * b.z, b.y * a.z);
  }

  lemma MiddleCancels(cv: Params, x1: int, z1: int, x2: int, z2: int, x3: int, z3: int)
    requires Prime(cv.p) && !Same(cv.p, z2, 0) && Same(cv.p, x1 * z2, x2 * z1) && Same(cv.p, x2 * z3, x3 * z2)
    ensures Same(cv.p, x1 * z3, x3 * z1)
  {
    SameTimes(cv.p, x1 * z2, x2 * z1, z3);
    SameTimes(cv.p, x2 * z3, x3 * z2, z1);
    assert x2 * z1 * z3 == x2 * z3 * z1;
    assert x1 * z2 * z3 == x1 * z3 * z2 && x3 * z2 * z1 == x3 * z1 * z2;
    SameTrans(cv.p, x1 * z2 * z3, x2 * z1 * z3, x3 * z2 * z1);
    Cancel(cv.p, x1 * z3, x3 * z1, z2);
  }

  lemma EqualTransitive(cv: Params, a: Point, b: Point, c: Point)
    requires Prime(cv.p) && Proper(cv, b) && PointEqual(cv, a, b) && PointEqual(cv, b, c)
    ensures PointEqual(cv, a, c)
  {
    MiddleCancels(cv, a.x, a.z, b.x, b.z, c.x, c.z);
    MiddleCancels(cv, a.y, a.z, b.y, b.z, c.y, c.z);
  }

  // ---- the neutral element ----

  lemma NeutralParts(cv: Params, a: Point)
    ensures Same(cv.p, Less(cv, ZERO, a), a.y - a.x) && Same(cv.p, More(cv, ZERO, a), a.y + a.x)
    ensures Twist(cv, ZERO, a) == 0 && Same(cv.p, Scale(cv, ZERO, a), 2 * a.z)
  {
    assert (ZERO.y - ZERO.x) * (a.y - a.x) == a.y - a.x;
    assert (ZERO.y + ZERO.x) * (a.y + a.x) == a.y + a.x;
    assert 2 * ZERO.t * a.t * cv.d == 0;
    assert 2 * ZERO.z * a.z == 2 * a.z;
    SameMod(cv.p, a.y - a.x);
    SameMod(cv.p, a.y + a.x);
    SameMod(cv.p, 2 * a.z);
  }

  /** `e f : f g` is `x : z`, where `e`, `f`, `g` are `2x`, `2z`, `2z`. */
  lemma NeutralRatio(cv: Params, e: int, f: int, g: int, x: int, z: int)
    requires Same(cv.p, e, 2 * x) && Same(cv.p, f, 2 * z) && Same(cv.p, g, 2 * z)
    ensures Same(cv.p, e * f % cv.p * z, x * (f * g % cv.p))
  {
    SameMul(cv.p, e, 2 * x, f, 2 * z);
    SameMul(cv.p, f, 2 * z, g, 2 * z);
    SameMod(cv.p, e * f);
    SameMod(cv.p, f * g);
    SameTrans(cv.p, e * f % cv.p, e * f, 2 * x * (2 * z));
    SameTrans(cv.p, f * g % cv.p, f * g, 2 * z * (2 * z));
    SameTimes(cv.p, e * f % cv.p, 2 * x * (2 * z), z);
    SameTimes(cv.p, f * g % cv.p, 2 * z * (2 * z), x);
    assert 2 * x * (2 * z) * z == 2 * z * (2 * z) * x;
    SameSym(cv.p, f * g % cv.p * x, 2 * z * (2 * z) * x);
    SameTrans(cv.p, e * f % cv.p * z, 2 * x * (2 * z) * z, f * g % cv.p * x);
  }

  lemma CombineNeutral(cv: Params, u: int, v: int, s: int, a: Point)
    requires Same(cv.p, u, a.y - a.x) && Same(cv.p, v, a.y + a.x) && Same(cv.p, s, 2 * a.z)
    ensures PointEqual(cv, Combine(cv, u, v, 0, s), a)
  {
    SameAdd(cv.p, v, a.y + a.x, u, a.y - a.x);
    NeutralRatio(cv, v - u, s, s, a.x, a.z);
    NeutralRatio(cv, v + u, s, s, a.y, a.z);
    assert (v + u) * s == s * (v + u);
  }

  lemma AddNeutral(cv: Params, a: Point)
    ensures PointEqual(cv, PointAdd(cv, ZERO, a), a)
  {
    NeutralParts(cv, a);
    CombineNeutral(cv, Less(cv, ZERO, a), More(cv, ZERO, a), Scale(cv, ZERO, a), a);
  }

  // ---- sums of equal points ----

  /** Equal points are in proportion in the fourth coordinate too. */
  lemma FourthRatio(cv: Params, a: Point, b: Point)
    requires Prime(cv.p) && Proper(cv, a) && Proper(cv, b) && PointEqual(cv, a, b)
    ensures Ratio(cv.p, a.t, b.t, a.z, b.z)
  {
    var k := a.z * b.z;
    RatioMul(cv.p, a.x, b.x, a.y, b.y, a.z, b.z);
    SameTimes(cv.p, a.t * a.z, a.x * a.y, b.z * b.z);
    SameTimes(cv.p, b.t * b.z, b.x * b.y, a.z * a.z);
    SameTrans(cv.p, a.t * a.z * (b.z * b.z), a.x * a.y * (b.z * b.z), b.x * b.y * (a.z * a.z));
    SameSym(cv.p, b.t * b.z * (a.z * a.z), b.x * b.y * (a.z * a.z));
    SameTrans(cv.p, a.t * a.z * (b.z * b.z), b.x * b.y * (a.z * a.z), b.t * b.z * (a.z * a.z));
    Swap(a.t, a.z, b.z, b.z);
    Swap(b.t, b.z, a.z, a.z);
    assert b.z * a.z == k;
    NonzeroProduct(cv.p, a.z, b.z);
    Cancel(cv.p, a.t * b.z, b.t * a.z, k);
  }

  lemma EqualRatio(cv: Params, a: Point, b: Point)
    requires PointEqual(cv, a, b)
    ensures Ratio(cv.p, a.x, b.x, a.z, b.z) && Ratio(cv.p, a.y, b.y, a.z, b.z)
  {
  }

  lemma OuterRatio(cv: Params, a: Point, a': Point, b: Point)
    requires Ratio(cv.p, a.x, a'.x, a.z, a'.z) && Ratio(cv.p, a.y, a'.y, a.z, a'.z)
    ensures Ratio(cv.p, More(cv, a, b), More(cv, a', b), a.z, a'.z)
    ensures Ratio(cv.p, Less(cv, a, b), Less(cv, a', b), a.z, a'.z)
  {
    RatioAdd(cv.p, a.y, a'.y, a.x, a'.x, a.z, a'.z);
    ProductRatio(cv, a.y - a.x, a'.y - a'.x, b.y - b.x, a.z, a'.z);
    ProductRatio(cv, a.y + a.x, a'.y + a'.x, b.y + b.x, a.z, a'.z);
  }

  lemma TwistRatio(cv: Params, a: Point, a': Point, b: Point)
    requires Ratio(cv.p, a.t, a'.t, a.z, a'.z)
    ensures Ratio(cv.p, Twist(cv, a, b), Twist(cv, a', b), a.z, a'.z)
  {
    ProductRatio(cv, a.t, a'.t, 2 * b.t * cv.d, a.z, a'.z);
    assert 2 * a.t * b.t * cv.d == a.t * (2 * b.t * cv.d) && 2 * a'.t * b.t * cv.d == a'.t * (2 * b.t * cv.d);
  }

  lemma ScaleRatio(cv: Params, a: Point, a': Point, b: Point)
    ensures Ratio(cv.p, Scale(cv, a, b), Scale(cv, a', b), a.z, a'.z)
  {
    assert a.z * a'.z == a'.z * a.z;
    ProductRatio(cv, a.z, a'.z, 2 * b.z, a.z, a'.z);
    assert 2 * a.z * b.z == a.z * (2 * b.z) && 2 * a'.z * b.z == a'.z * (2 * b.z);
  }

  lemma ProductRatio(cv: Params, u: int, u': int, k: int, z: int, z': int)
    requires Ratio(cv.p, u, u', z, z')
    ensures Ratio(cv.p, u * k % cv.p, u' * k % cv.p, z, z')
  {
    RatioTimes(cv.p, u, u', k, z, z');
    RatioMod(cv.p, u * k, u' * k, z, z');
  }

  lemma SumRatio(cv: Params, e: int, e': int, f: int, f': int, z: int, z': int)
    requires Ratio(cv.p, e, e', z, z') && Ratio(cv.p, f, f', z, z')
    ensures Ratio(cv.p, e * f % cv.p, e' * f' % cv.p, z * z, z' * z')
  {
    RatioMul(cv.p, e, e', f, f', z, z');
    RatioMod(cv.p, e * f, e' * f', z * z, z' * z');
  }

  lemma CombineRespects(cv: Params, u: int, u': int, v: int, v': int, w: int, w': int, s: int, s': int, z: int, z': int)
    requires Prime(cv.p) && !Same(cv.p, z, 0) && !Same(cv.p, z', 0)
    requires Ratio(cv.p, u, u', z, z') && Ratio(cv.p, v, v', z, z')
    requires Ratio(cv.p, w, w', z, z') && Ratio(cv.p, s, s', z, z')
    ensures PointEqual(cv, Combine(cv, u, v, w, s), Combine(cv, u', v', w', s'))
  {
    var e, f, g, h := v - u, s - w, s + w, v + u;
    var e', f', g', h' := v' - u', s' - w', s' + w', v' + u';
    RatioAdd(cv.p, v, v', u, u', z, z');
    RatioAdd(cv.p, s, s', w, w', z, z');
    SumRatio(cv, e, e', f, f', z, z');
    SumRatio(cv, g, g', h, h', z, z');
    SumRatio(cv, f, f', g, g', z, z');
    NonzeroProduct(cv.p, z, z);
    NonzeroProduct(cv.p, z', z');
    Cross(cv.p, e * f % cv.p, e' * f' % cv.p, f * g % cv.p, f' * g' % cv.p, z * z, z' * z');
    Cross(cv.p, g * h % cv.p, g' * h' % cv.p, f * g % cv.p, f' * g' % cv.p, z * z, z' * z');
  }

  /** The sum does not depend on which coordinates stand for a point. */
  lemma AddRespects(cv: Params, a: Point, a': Point, b: Point)
    requires Prime(cv.p) && Proper(cv, a) && Proper(cv, a') && PointEqual(cv, a, a')
    ensures PointEqual(cv, PointAdd(cv, a, b), PointAdd(cv, a', b))
  {
    EqualRatio(cv, a, a');
    OuterRatio(cv, a, a', b);
    FourthRatio(cv, a, a');
    TwistRatio(cv, a, a', b);
    ScaleRatio(cv, a, a', b);
    CombineRespects(cv, Less(cv, a, b), Less(cv, a', b), More(cv, a, b), More(cv, a', b),
      Twist(cv, a, b), Twist(cv, a', b), Scale(cv, a, b), Scale(cv, a', b), a.z, a'.z);
  }

  // ---- the group ----

  function Adder(cv: Params): (Point, Point) -> Point {
    (a, b) => PointAdd(cv, a, b)
  }

  function Equality(cv: Params): (Point, Point) -> bool {
    (a, b) => PointEqual(cv, a, b)
  }

  function Curve(cv: Params, on: Point -> bool): Group<Point> {
    Group(Adder(cv), Equality(cv), ZERO, on)
  }

  /** What is taken of the field and the curve: the modulus is prime, sums of points of
      the curve are points of it, and adding them associates. */
  ghost predicate CurveFacts(cv: Params, on: Point -> bool) {
    && Prime(cv.p)
    && (forall a :: on(a) ==> Proper(cv, a))
    && ClosedUnder(Curve(cv, on))
    && Associates(Curve(cv, on))
  }

  lemma EqualRespected(cv: Params, on: Point -> bool)
    requires CurveFacts(cv, on)
    ensures Respects(Curve(cv, on))
  {
    var g := Curve(cv, on);
    forall x, y, z | Three(g, x, y, z) && g.eq(x, y)
      ensures (g.eq(y, z) ==> g.eq(x, z)) && g.eq(g.add(x, z), g.add(y, z))
    {
      AddRespects(cv, x, y, z);
      if g.eq(y, z) {
        EqualTransitive(cv, x, y, z);
      }
    }
  }

  /** With these, `point_add` is a commutative group law up to `point_equal`. */
  lemma CurveIsGroup(cv: Params, on: Point -> bool)
    requires CurveFacts(cv, on)
    ensures Laws(Curve(cv, on))
  {
    var g := Curve(cv, on);
    EqualRespected(cv, on);
    forall x, y | Two(g, x, y)
      ensures g.eq(g.add(x, y), g.add(y, x)) && g.eq(x, y) == g.eq(y, x)
    {
      AddCommutes(cv, x, y);
      if PointEqual(cv, x, y) {
        EqualSymmetric(cv, x, y);
      }
      if PointEqual(cv, y, x) {
        EqualSymmetric(cv, y, x);
      }
    }
    forall x | One(g, x)
      ensures g.eq(x, x) && g.eq(g.add(g.zero, x), x)
    {
      AddNeutral(cv, x);
    }
  }

  // ---- keys and signatures ----

  /** The hash, and the thirty-two bytes of a point and back. */
  datatype Scheme = Scheme(sha: Bytes -> Bytes, compress: Point -> Bytes, decompress: Bytes -> Option<Point>)

  datatype Secret = Secret(a: nat, prefix: Bytes)

  const BIT_254: nat := 0x4000000000000000000000000000000000000000000000000000000000000000

  ghost predicate Hashes(sc: Scheme) {
    forall b {:trigger sc.sha(b)} :: |sc.sha(b)| == 64
  }

  /** The order of the base, the bytes of points, and what decompresses. */
  ghost predicate Setting(cv: Params, sc: Scheme, on: Point -> bool) {
    && CurveFacts(cv, on)
    && Hashes(sc)
    && on(cv.base)
    && PointEqual(cv, Times(Curve(cv, on), cv.q, cv.base), ZERO)
    && (forall a {:trigger sc.compress(a)} :: on(a) ==> |sc.compress(a)| == 32 && Recovers(cv, sc, a))
    && (forall b {:trigger sc.decompress(b)} :: sc.decompress(b).Some? ==> on(sc.decompress(b).value))
  }

  ghost predicate Recovers(cv: Params, sc: Scheme, a: Point) {
    var d := sc.decompress(sc.compress(a));
    d.Some? && PointEqual(cv, d.value, a)
  }

  /** The low three bits and those from 254 up cleared, bit 254 set. */
  function Clamped(x: nat): (a: nat) {
    x % BIT_254 - x % 8 + BIT_254
  }

  /** A secret scalar is a multiple of eight with its highest bit 254. */
  lemma ClampShape(x: nat)
    ensures Clamped(x) % 8 == 0 && BIT_254 <= Clamped(x) < 2 * BIT_254
  {
  }

  function SecretExpand(sc: Scheme, seed: Bytes): Option<Secret>
    requires Hashes(sc)
  {
    if |seed| != 32 then None
    else
      var h := sc.sha(seed);
      Some(Secret(Clamped(FromLe(h[..32])), h[32..]))
  }

  function HashModQ(cv: Params, sc: Scheme, b: Bytes): (h: nat)
    ensures h < cv.q
  {
    FromLe(sc.sha(b)) % cv.q
  }

  /** `point_mul`, as `DoubleAndAdd.PointMul` computes it. */
  function Mul(cv: Params, n: nat, a: Point): Point {
    Ladder(Adder(cv), n, a, ZERO)
  }

  function Public(cv: Params, sc: Scheme, seed: Bytes): Option<Bytes>
    requires Hashes(sc)
  {
    match SecretExpand(sc, seed)
    case None => None
    case Some(k) => Some(sc.compress(Mul(cv, k.a, cv.base)))
  }

  /** `ed25519_sign`. */
  function Sign(cv: Params, sc: Scheme, seed: Bytes, msg: Bytes): Option<Bytes>
    requires Hashes(sc)
  {
    match SecretExpand(sc, seed)
    case None => None
    case Some(k) =>
      var pub := sc.compress(Mul(cv, k.a, cv.base));
      var r := HashModQ(cv, sc, k.prefix + msg);
      var rs := sc.compress(Mul(cv, r, cv.base));
      Some(rs + Le(Response(cv.q, r, HashModQ(cv, sc, rs + pub + msg), k.a), 32))
  }

  /** `ed25519_verify`. */
  predicate Verify(cv: Params, sc: Scheme, pub: Bytes, msg: Bytes, sig: Bytes) {
    if |pub| != 32 || |sig| != 64 then false
    else
      var a, r := sc.decompress(pub), sc.decompress(sig[..32]);
      if a.None? || r.None? then false
      else
        var s := FromLe(sig[32..]);
        if s >= cv.q then false
        else
          var h := HashModQ(cv, sc, sig[..32] + pub + msg);
          PointEqual(cv, Mul(cv, s, cv.base), PointAdd(cv, r.value, Mul(cv, h, a.value)))
  }

  /** A multiple of a point equal to `n` copies of the base. */
  lemma MulOfEqual(cv: Params, on: Point -> bool, h: nat, a: Point, n: nat)
    requires CurveFacts(cv, on) && on(a) && on(cv.base) && PointEqual(cv, a, Times(Curve(cv, on), n, cv.base))
    ensures on(Mul(cv, h, a)) && on(Times(Curve(cv, on), n, cv.base))
    ensures on(Times(Curve(cv, on), h, Times(Curve(cv, on), n, cv.base)))
    ensures PointEqual(cv, Mul(cv, h, a), Times(Curve(cv, on), h, Times(Curve(cv, on), n, cv.base)))
  {
    var g := Curve(cv, on);
    var b := Times(g, n, cv.base);
    CurveIsGroup(cv, on);
    TimesOn(g, n, cv.base);
    TimesOn(g, h, b);
    PointMulIsSum(g, h, a);
    TimesCong(g, h, a, b);
    Trans(g, Mul(cv, h, a), Times(g, h, a), Times(g, h, b));
  }

  /** What decompresses from the bytes of `n` copies of the base, as the loop makes them,
      is equal to them. */
  lemma Recovered(cv: Params, sc: Scheme, on: Point -> bool, n: nat) returns (d: Point)
    requires Setting(cv, sc, on)
    ensures |sc.compress(Mul(cv, n, cv.base))| == 32 && sc.decompress(sc.compress(Mul(cv, n, cv.base))) == Some(d)
    ensures on(d) && PointEqual(cv, d, Times(Curve(cv, on), n, cv.base))
  {
    var g := Curve(cv, on);
    CurveIsGroup(cv, on);
    PointMulIsSum(g, n, cv.base);
    var b := sc.compress(Mul(cv, n, cv.base));
    assert Recovers(cv, sc, Mul(cv, n, cv.base));
    d := sc.decompress(b).value;
    Trans(g, d, Mul(cv, n, cv.base), Times(g, n, cv.base));
  }

  /** The equation that is checked holds between what was signed, whichever coordinates
      the points come back with. */
  lemma EquationHolds(cv: Params, on: Point -> bool, r: nat, h: nat, a: nat, rp: Point, ap: Point)
    requires CurveFacts(cv, on) && on(cv.base) && PointEqual(cv, Times(Curve(cv, on), cv.q, cv.base), ZERO)
    requires on(rp) && PointEqual(cv, rp, Times(Curve(cv, on), r, cv.base))
    requires on(ap) && PointEqual(cv, ap, Times(Curve(cv, on), a, cv.base))
    ensures PointEqual(cv, Mul(cv, Response(cv.q, r, h, a), cv.base), PointAdd(cv, rp, Mul(cv, h, ap)))
  {
    var g := Curve(cv, on);
    var s := Response(cv.q, r, h, a);
    CurveIsGroup(cv, on);
    MulOfEqual(cv, on, h, ap, a);
    TimesOn(g, r, cv.base);
    var x, y := Times(g, r, cv.base), Times(g, h, Times(g, a, cv.base));
    Cong(g, rp, x, Mul(cv, h, ap), y);
    SignatureEquation(g, cv.q, cv.base, r, h, a);
    PointMulIsSum(g, s, cv.base);
    Trans(g, Mul(cv, s, cv.base), Times(g, s, cv.base), g.add(x, y));
    Sym(g, g.add(rp, Mul(cv, h, ap)), g.add(x, y));
    Trans(g, Mul(cv, s, cv.base), g.add(x, y), g.add(rp, Mul(cv, h, ap)));
  }

  lemma ThirtyTwoBytes()
    ensures Pow256(32) == TWO_256
  {
    assert Pow256(8) == 0x1_0000_0000_0000_0000;
    assert Pow256(16) == 0x1_0000_0000_0000_0000_0000_0000_0000_0000;
    assert Pow256(24) == 0x1_0000_0000_0000_0000_0000_0000_0000_0000_0000_0000_0000_0000;
  }

  lemma Halves(a: Bytes, b: Bytes)
    requires |a| == 32
    ensures (a + b)[..32] == a && (a + b)[32..] == b
  {
  }

  /** Every signature that is made is accepted under the public key of its seed. */
  lemma SignVerifies(cv: Params, sc: Scheme, on: Point -> bool, seed: Bytes, msg: Bytes)
    requires Setting(cv, sc, on) && |seed| == 32
    ensures Public(cv, sc, seed).Some? && Sign(cv, sc, seed, msg).Some?
    ensures Verify(cv, sc, Public(cv, sc, seed).value, msg, Sign(cv, sc, seed, msg).value)
  {
    var k := SecretExpand(sc, seed).value;
    var r := HashModQ(cv, sc, k.prefix + msg);
    var pub, rs := sc.compress(Mul(cv, k.a, cv.base)), sc.compress(Mul(cv, r, cv.base));
    var h := HashModQ(cv, sc, rs + pub + msg);
    var s := Response(cv.q, r, h, k.a);
    var ap := Recovered(cv, sc, on, k.a);
    var rp := Recovered(cv, sc, on, r);
    EquationHolds(cv, on, r, h, k.a, rp, ap);
    ThirtyTwoBytes();
    LeRoundTrip(s, 32);
    Halves(rs, Le(s, 32));
  }

  // ---- only one response ----

  /** No fewer than `q` copies of the base are neutral. */
  ghost predicate OrderIsQ(cv: Params, on: Point -> bool) {
    forall n: nat {:trigger Times(Curve(cv, on), n, cv.base)} :: 0 < n < cv.q ==>
      !PointEqual(cv, Times(Curve(cv, on), n, cv.base), ZERO)
  }

  lemma ByteInjective(x: bv8, y: bv8)
    requires x as nat == y as nat
    ensures x == y
  {
    assert (x as nat) as bv8 == x;
    assert (y as nat) as bv8 == y;
  }

  lemma DigitsInjective(x: bv8, m: nat, y: bv8, n: nat)
    requires x as nat + 256 * m == y as nat + 256 * n
    ensures x == y && m == n
  {
    LowDigit(x as nat, m, y as nat, n);
    ByteInjective(x, y);
  }

  lemma {:induction false} FromLeInjective(a: Bytes, b: Bytes)
    requires |a| == |b| && FromLe(a) == FromLe(b)
    ensures a == b
  {
    if a != [] {
      DigitsInjective(a[0], FromLe(a[1..]), b[0], FromLe(b[1..]));
      FromLeInjective(a[1..], b[1..]);
      assert a == [a[0]] + a[1..] && b == [b[0]] + b[1..];
    }
  }

  lemma LowDigit(x: nat, m: nat, y: nat, n: nat)
    requires x < 256 && y < 256 && x + 256 * m == y + 256 * n
    ensures x == y && m == n
  {
  }

  /** Two multiples of the base below `q` that the loop makes equal are the same one. */
  lemma EqualMultiples(cv: Params, on: Point -> bool, m: nat, n: nat)
    requires CurveFacts(cv, on) && on(cv.base) && OrderIsQ(cv, on)
    requires PointEqual(cv, Times(Curve(cv, on), cv.q, cv.base), ZERO)
    requires m <= n < cv.q && PointEqual(cv, Times(Curve(cv, on), m, cv.base), Times(Curve(cv, on), n, cv.base))
    ensures m == n
  {
    CurveIsGroup(cv, on);
    DifferenceNeutral(Curve(cv, on), cv.q, cv.base, m, n);
  }

  lemma SameMultiple(cv: Params, on: Point -> bool, m: nat, n: nat, w: Point)
    requires CurveFacts(cv, on) && on(cv.base) && on(w)
    requires PointEqual(cv, Mul(cv, m, cv.base), w) && PointEqual(cv, Mul(cv, n, cv.base), w)
    ensures PointEqual(cv, Times(Curve(cv, on), m, cv.base), Times(Curve(cv, on), n, cv.base))
  {
    var g := Curve(cv, on);
    CurveIsGroup(cv, on);
    PointMulIsSum(g, m, cv.base);
    PointMulIsSum(g, n, cv.base);
    Sym(g, Mul(cv, m, cv.base), Times(g, m, cv.base));
    Trans(g, Times(g, m, cv.base), Mul(cv, m, cv.base), w);
    Sym(g, Mul(cv, n, cv.base), w);
    Trans(g, Times(g, m, cv.base), w, Mul(cv, n, cv.base));
    Trans(g, Times(g, m, cv.base), Mul(cv, n, cv.base), Times(g, n, cv.base));
  }

  lemma Accepted(cv: Params, sc: Scheme, on: Point -> bool, pub: Bytes, msg: Bytes, rs: Bytes, s: Bytes)
    returns (w: Point)
    requires Setting(cv, sc, on) && |rs| == 32 && Verify(cv, sc, pub, msg, rs + s)
    ensures on(w) && |s| == 32 && FromLe(s) < cv.q && PointEqual(cv, Mul(cv, FromLe(s), cv.base), w)
    ensures sc.decompress(pub).Some? && sc.decompress(rs).Some?
    ensures w == PointAdd(cv, sc.decompress(rs).value,
      Mul(cv, HashModQ(cv, sc, rs + pub + msg), sc.decompress(pub).value))
  {
    Halves(rs, s);
    var a, r := sc.decompress(pub).value, sc.decompress(rs).value;
    var h := HashModQ(cv, sc, rs + pub + msg);
    w := PointAdd(cv, r, Mul(cv, h, a));
    CurveIsGroup(cv, on);
    PointMulIsSum(Curve(cv, on), h, a);
    Comm(Curve(cv, on), r, Mul(cv, h, a));
  }

  /** A message, a key and a first half have at most one second half that is accepted. */
  lemma ResponseUnique(cv: Params, sc: Scheme, on: Point -> bool, pub: Bytes, msg: Bytes, rs: Bytes, s: Bytes,
                       s': Bytes)
    requires Setting(cv, sc, on) && OrderIsQ(cv, on) && |rs| == 32
    requires Verify(cv, sc, pub, msg, rs + s) && Verify(cv, sc, pub, msg, rs + s')
    ensures s == s'
  {
    var w := Accepted(cv, sc, on, pub, msg, rs, s);
    var w' := Accepted(cv, sc, on, pub, msg, rs, s');
    var m, n := FromLe(s), FromLe(s');
    SameMultiple(cv, on, m, n, w);
    SameMultiple(cv, on, n, m, w);
    if m <= n {
      EqualMultiples(cv, on, m, n);
    } else {
      EqualMultiples(cv, on, n, m);
    }
    FromLeInjective(s, s');
  }
}
