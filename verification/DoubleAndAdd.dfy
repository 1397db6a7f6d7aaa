/**
 Multiples of an element under an addition that is a commutative group law up to an
 equality that is not identity, as addition of projective points is, and the
 double-and-add loop that computes them.
 */
module DoubleAndAdd {

  /** An addition, the equality it is read up to, its neutral element, and the elements
      the laws are about. */
  datatype Group<!T> = Group(add: (T, T) -> T, eq: (T, T) -> bool, zero: T, on: T -> bool)

  ghost predicate One<T>(g: Group<T>, x: T) {
    g.on(x)
  }

  ghost predicate Two<T>(g: Group<T>, x: T, y: T) {
    g.on(x) && g.on(y)
  }

  ghost predicate Three<T>(g: Group<T>, x: T, y: T, z: T) {
    g.on(x) && g.on(y) && g.on(z)
  }

  ghost predicate Commutes<T(!new)>(g: Group<T>) {
    forall x, y {:trigger Two(g, x, y)} :: Two(g, x, y) ==> g.eq(g.add(x, y), g.add(y, x)) && g.eq(x, y) == g.eq(y, x)
  }

  ghost predicate Neutral<T(!new)>(g: Group<T>) {
    forall x {:trigger One(g, x)} :: One(g, x) ==> g.eq(x, x) && g.eq(g.add(g.zero, x), x)
  }

  ghost predicate ClosedUnder<T(!new)>(g: Group<T>) {
    g.on(g.zero) && forall x, y {:trigger Two(g, x, y)} :: Two(g, x, y) ==> g.on(g.add(x, y))
  }

  ghost predicate Associates<T(!new)>(g: Group<T>) {
    forall x, y, z {:trigger Three(g, x, y, z)} :: Three(g, x, y, z) ==>
      g.eq(g.add(g.add(x, y), z), g.add(x, g.add(y, z)))
  }

  /** The equality is transitive and the addition respects it. */
  ghost predicate Respects<T(!new)>(g: Group<T>) {
    forall x, y, z {:trigger Three(g, x, y, z)} :: Three(g, x, y, z) && g.eq(x, y) ==>
      (g.eq(y, z) ==> g.eq(x, z)) && g.eq(g.add(x, z), g.add(y, z))
  }

  ghost predicate Laws<T(!new)>(g: Group<T>) {
    Commutes(g) && Neutral(g) && ClosedUnder(g) && Associates(g) && Respects(g)
  }

  // ---- the laws, one at a time ----

  lemma Refl<T(!new)>(g: Group<T>, x: T)
    requires Laws(g) && g.on(x)
    ensures g.eq(x, x) && g.eq(g.add(g.zero, x), x)
  {
    assert One(g, x);
  }

  lemma Sym<T(!new)>(g: Group<T>, x: T, y: T)
    requires Laws(g) && g.on(x) && g.on(y) && g.eq(x, y)
    ensures g.eq(y, x)
  {
    assert Two(g, x, y);
  }

  lemma Trans<T(!new)>(g: Group<T>, x: T, y: T, z: T)
    requires Laws(g) && g.on(x) && g.on(y) && g.on(z) && g.eq(x, y) && g.eq(y, z)
    ensures g.eq(x, z)
  {
    assert Three(g, x, y, z);
  }

  lemma Comm<T(!new)>(g: Group<T>, x: T, y: T)
    requires Laws(g) && g.on(x) && g.on(y)
    ensures g.on(g.add(x, y)) && g.on(g.add(y, x)) && g.eq(g.add(x, y), g.add(y, x))
  {
    assert Two(g, x, y) && Two(g, y, x);
  }

  lemma Assoc<T(!new)>(g: Group<T>, x: T, y: T, z: T)
    requires Laws(g) && g.on(x) && g.on(y) && g.on(z)
    ensures g.on(g.add(g.add(x, y), z)) && g.on(g.add(x, g.add(y, z)))
    ensures g.eq(g.add(g.add(x, y), z), g.add(x, g.add(y, z)))
  {
    assert Three(g, x, y, z) && Two(g, x, y) && Two(g, y, z) && Two(g, g.add(x, y), z) && Two(g, x, g.add(y, z));
  }

  lemma Left<T(!new)>(g: Group<T>, x: T, y: T, z: T)
    requires Laws(g) && g.on(x) && g.on(y) && g.on(z) && g.eq(x, y)
    ensures g.on(g.add(x, z)) && g.on(g.add(y, z)) && g.eq(g.add(x, z), g.add(y, z))
  {
    assert Three(g, x, y, z) && Two(g, x, z) && Two(g, y, z);
  }

  lemma Right<T(!new)>(g: Group<T>, x: T, y: T, z: T)
    requires Laws(g) && g.on(x) && g.on(y) && g.on(z) && g.eq(x, y)
    ensures g.on(g.add(z, x)) && g.on(g.add(z, y)) && g.eq(g.add(z, x), g.add(z, y))
  {
    Left(g, x, y, z);
    Comm(g, z, x);
    Comm(g, y, z);
    Trans(g, g.add(z, x), g.add(x, z), g.add(y, z));
    Trans(g, g.add(z, x), g.add(y, z), g.add(z, y));
  }

  lemma Cong<T(!new)>(g: Group<T>, x: T, x': T, y: T, y': T)
    requires Laws(g) && g.on(x) && g.on(x') && g.on(y) && g.on(y') && g.eq(x, x') && g.eq(y, y')
    ensures g.on(g.add(x, y)) && g.on(g.add(x', y')) && g.eq(g.add(x, y), g.add(x', y'))
  {
    Left(g, x, x', y);
    Right(g, y, y', x');
    Trans(g, g.add(x, y), g.add(x', y), g.add(x', y'));
  }

  lemma Unit<T(!new)>(g: Group<T>, x: T)
    requires Laws(g) && g.on(x)
    ensures g.on(g.add(x, g.zero)) && g.eq(g.add(x, g.zero), x) && g.eq(x, g.add(x, g.zero))
  {
    Refl(g, x);
    Comm(g, x, g.zero);
    Trans(g, g.add(x, g.zero), g.add(g.zero, x), x);
    Sym(g, g.add(x, g.zero), x);
  }

  // ---- multiples ----

  /** The sum of `n` copies of `x`. */
  function Times<T>(g: Group<T>, n: nat, x: T): T {
    if n == 0 then g.zero else g.add(Times(g, n - 1, x), x)
  }

  lemma {:induction false} TimesOn<T(!new)>(g: Group<T>, n: nat, x: T)
    requires Laws(g) && g.on(x)
    ensures g.on(Times(g, n, x))
  {
    if n > 0 {
      TimesOn(g, n - 1, x);
      assert Two(g, Times(g, n - 1, x), x);
    }
  }

  lemma {:induction false} TimesCong<T(!new)>(g: Group<T>, n: nat, x: T, y: T)
    requires Laws(g) && g.on(x) && g.on(y) && g.eq(x, y)
    ensures g.eq(Times(g, n, x), Times(g, n, y))
  {
    if n == 0 {
      Refl(g, g.zero);
    } else {
      TimesOn(g, n - 1, x);
      TimesOn(g, n - 1, y);
      TimesCong(g, n - 1, x, y);
      Cong(g, Times(g, n - 1, x), Times(g, n - 1, y), x, y);
    }
  }

  lemma {:induction false} TimesAdd<T(!new)>(g: Group<T>, m: nat, n: nat, x: T)
    requires Laws(g) && g.on(x)
    ensures g.eq(Times(g, m + n, x), g.add(Times(g, m, x), Times(g, n, x)))
    decreases n
  {
    var a, b := Times(g, m, x), Times(g, n, x);
    TimesOn(g, m, x);
    if n == 0 {
      Unit(g, a);
    } else {
      var b' := Times(g, n - 1, x);
      TimesAdd(g, m, n - 1, x);
      TimesOn(g, n - 1, x);
      TimesOn(g, m + n - 1, x);
      Comm(g, a, b');
      Left(g, Times(g, m + n - 1, x), g.add(a, b'), x);
      Assoc(g, a, b', x);
      Trans(g, Times(g, m + n, x), g.add(g.add(a, b'), x), g.add(a, b));
    }
  }

  lemma {:induction false} TimesTimes<T(!new)>(g: Group<T>, m: nat, n: nat, x: T)
    requires Laws(g) && g.on(x)
    ensures g.eq(Times(g, m * n, x), Times(g, n, Times(g, m, x)))
    decreases n
  {
    var y := Times(g, m, x);
    TimesOn(g, m, x);
    if n == 0 {
      Refl(g, g.zero);
    } else {
      TimesTimes(g, m, n - 1, x);
      TimesOn(g, m * (n - 1), x);
      TimesOn(g, n - 1, y);
      TimesAdd(g, m * (n - 1), m, x);
      assert m * (n - 1) + m == m * n;
      TimesOn(g, m * n, x);
      Left(g, Times(g, m * (n - 1), x), Times(g, n - 1, y), y);
      Trans(g, Times(g, m * n, x), g.add(Times(g, m * (n - 1), x), y), Times(g, n, y));
    }
  }

  lemma {:induction false} TimesZero<T(!new)>(g: Group<T>, n: nat)
    requires Laws(g)
    ensures g.eq(Times(g, n, g.zero), g.zero)
  {
    if n == 0 {
      Refl(g, g.zero);
    } else {
      TimesZero(g, n - 1);
      TimesOn(g, n - 1, g.zero);
      Unit(g, Times(g, n - 1, g.zero));
      Trans(g, Times(g, n, g.zero), Times(g, n - 1, g.zero), g.zero);
    }
  }

  lemma NeutralOn<T(!new)>(g: Group<T>, y: T, z: T)
    requires Laws(g) && g.on(y) && g.on(z) && g.eq(y, g.zero)
    ensures g.on(g.add(y, z)) && g.eq(g.add(y, z), z)
  {
    Left(g, y, g.zero, z);
    Refl(g, z);
    Trans(g, g.add(y, z), g.add(g.zero, z), z);
  }

  lemma TimesShift<T(!new)>(g: Group<T>, m: nat, r: nat, x: T)
    requires Laws(g) && g.on(x) && g.eq(Times(g, m, x), g.zero)
    ensures g.eq(Times(g, m + r, x), Times(g, r, x))
  {
    TimesOn(g, m, x);
    TimesOn(g, r, x);
    TimesOn(g, m + r, x);
    TimesAdd(g, m, r, x);
    NeutralOn(g, Times(g, m, x), Times(g, r, x));
    Trans(g, Times(g, m + r, x), g.add(Times(g, m, x), Times(g, r, x)), Times(g, r, x));
  }

  lemma TimesWhole<T(!new)>(g: Group<T>, q: nat, k: nat, x: T)
    requires Laws(g) && g.on(x) && g.eq(Times(g, q, x), g.zero)
    ensures g.eq(Times(g, q * k, x), g.zero)
  {
    var y := Times(g, q, x);
    TimesOn(g, q, x);
    TimesOn(g, q * k, x);
    TimesOn(g, k, y);
    TimesOn(g, k, g.zero);
    TimesTimes(g, q, k, x);
    TimesCong(g, k, y, g.zero);
    TimesZero(g, k);
    Trans(g, Times(g, q * k, x), Times(g, k, y), Times(g, k, g.zero));
    Trans(g, Times(g, q * k, x), Times(g, k, g.zero), g.zero);
  }

  /** A multiple of an element of order `q` depends on its factor modulo `q` only. */
  lemma TimesMod<T(!new)>(g: Group<T>, n: nat, q: nat, x: T)
    requires Laws(g) && g.on(x) && q > 0 && g.eq(Times(g, q, x), g.zero)
    ensures g.eq(Times(g, n, x), Times(g, n % q, x))
  {
    var k, r := n / q, n % q;
    TimesWhole(g, q, k, x);
    TimesShift(g, q * k, r, x);
    assert q * k + r == n;
  }

  // ---- the loop ----

  /** What the loop has still to do: `s` doublings-and-additions of `x` onto `acc`. */
  function Ladder<T>(add: (T, T) -> T, s: nat, x: T, acc: T): T
    decreases s
  {
    if s == 0 then acc
    else Ladder(add, s / 2, add(x, x), if s % 2 == 1 then add(acc, x) else acc)
  }

  /** `point_mul`. */
  method PointMul<T(!new)>(g: Group<T>, s0: nat, x0: T) returns (acc: T)
    ensures acc == Ladder(g.add, s0, x0, g.zero)
    ensures Laws(g) && g.on(x0) ==> g.eq(acc, Times(g, s0, x0))
  {
    acc := g.zero;
    var s, x := s0, x0;
    while s > 0
      invariant Ladder(g.add, s, x, acc) == Ladder(g.add, s0, x0, g.zero)
    {
      if s % 2 == 1 {
        acc := g.add(acc, x);
      }
      x := g.add(x, x);
      s := s / 2;
    }
    if Laws(g) && g.on(x0) {
      PointMulIsSum(g, s0, x0);
    }
  }

  /** Doubling the element halves the factor. */
  lemma TimesDouble<T(!new)>(g: Group<T>, k: nat, x: T)
    requires Laws(g) && g.on(x)
    ensures g.on(g.add(x, x)) && g.eq(Times(g, k, g.add(x, x)), Times(g, 2 * k, x))
  {
    var y, z := g.add(x, x), Times(g, 2, x);
    Comm(g, x, x);
    Refl(g, x);
    Comm(g, g.zero, x);
    Left(g, g.add(g.zero, x), x, x);
    assert Times(g, 1, x) == g.add(g.zero, x);
    assert z == g.add(g.add(g.zero, x), x);
    TimesOn(g, 2, x);
    Sym(g, z, y);
    TimesCong(g, k, y, z);
    TimesTimes(g, 2, k, x);
    TimesOn(g, k, y);
    TimesOn(g, k, z);
    TimesOn(g, 2 * k, x);
    Sym(g, Times(g, 2 * k, x), Times(g, k, z));
    Trans(g, Times(g, k, y), Times(g, k, z), Times(g, 2 * k, x));
  }

  /** One odd step: the element moves from the multiple to the accumulator. */
  lemma OddStep<T(!new)>(g: Group<T>, k: nat, x: T, acc: T)
    requires Laws(g) && g.on(x) && g.on(acc)
    ensures g.on(g.add(acc, x)) && g.on(g.add(x, x))
    ensures g.eq(g.add(g.add(acc, x), Times(g, k, g.add(x, x))), g.add(acc, Times(g, 2 * k + 1, x)))
  {
    var t, u := Times(g, k, g.add(x, x)), Times(g, 2 * k, x);
    TimesDouble(g, k, x);
    TimesOn(g, k, g.add(x, x));
    TimesOn(g, 2 * k, x);
    Comm(g, acc, x);
    Assoc(g, acc, x, t);
    Comm(g, x, t);
    Left(g, t, u, x);
    Trans(g, g.add(x, t), g.add(t, x), g.add(u, x));
    assert Times(g, 2 * k + 1, x) == g.add(u, x);
    Right(g, g.add(x, t), g.add(u, x), acc);
    Comm(g, g.add(acc, x), t);
    Trans(g, g.add(g.add(acc, x), t), g.add(acc, g.add(x, t)), g.add(acc, g.add(u, x)));
  }

  /** The loop adds `s` copies of `x`. */
  lemma {:induction false} LadderIsSum<T(!new)>(g: Group<T>, s: nat, x: T, acc: T)
    requires Laws(g) && g.on(x) && g.on(acc)
    ensures g.on(Ladder(g.add, s, x, acc)) && g.on(g.add(acc, Times(g, s, x)))
    ensures g.eq(Ladder(g.add, s, x, acc), g.add(acc, Times(g, s, x)))
    decreases s
  {
    var k, y := s / 2, g.add(x, x);
    TimesOn(g, s, x);
    Comm(g, acc, Times(g, s, x));
    if s == 0 {
      Unit(g, acc);
    } else if s % 2 == 1 {
      OddStep(g, k, x, acc);
      LadderIsSum(g, k, y, g.add(acc, x));
      Trans(g, Ladder(g.add, s, x, acc), g.add(g.add(acc, x), Times(g, k, y)), g.add(acc, Times(g, s, x)));
    } else {
      TimesDouble(g, k, x);
      TimesOn(g, k, y);
      LadderIsSum(g, k, y, acc);
      Right(g, Times(g, k, y), Times(g, s, x), acc);
      Trans(g, Ladder(g.add, s, x, acc), g.add(acc, Times(g, k, y)), g.add(acc, Times(g, s, x)));
    }
  }

  /** Double-and-add is repeated addition. */
  lemma PointMulIsSum<T(!new)>(g: Group<T>, s: nat, x: T)
    requires Laws(g) && g.on(x)
    ensures var r := Ladder(g.add, s, x, g.zero); g.on(r) && g.on(Times(g, s, x)) && g.eq(r, Times(g, s, x))
  {
    LadderIsSum(g, s, x, g.zero);
    TimesOn(g, s, x);
    Refl(g, Times(g, s, x));
    Trans(g, Ladder(g.add, s, x, g.zero), g.add(g.zero, Times(g, s, x)), Times(g, s, x));
  }

  // ---- signatures ----

  lemma TimesLinear<T(!new)>(g: Group<T>, base: T, r: nat, h: nat, a: nat)
    requires Laws(g) && g.on(base)
    ensures g.on(g.add(Times(g, r, base), Times(g, h, Times(g, a, base))))
    ensures g.eq(Times(g, r + h * a, base), g.add(Times(g, r, base), Times(g, h, Times(g, a, base))))
  {
    var m := a * h;
    assert m == h * a;
    var x, y, z := Times(g, r, base), Times(g, m, base), Times(g, h, Times(g, a, base));
    TimesOn(g, r + m, base);
    TimesOn(g, r, base);
    TimesOn(g, a, base);
    TimesOn(g, m, base);
    TimesOn(g, h, Times(g, a, base));
    TimesAdd(g, r, m, base);
    TimesTimes(g, a, h, base);
    Right(g, y, z, x);
    Trans(g, Times(g, r + m, base), g.add(x, y), g.add(x, z));
  }

  lemma TimesReduced<T(!new)>(g: Group<T>, q: nat, base: T, n: nat, w: T)
    requires Laws(g) && g.on(base) && q > 0 && g.eq(Times(g, q, base), g.zero)
    requires g.on(w) && g.eq(Times(g, n, base), w)
    ensures g.eq(Times(g, n % q, base), w)
  {
    TimesOn(g, n, base);
    TimesOn(g, n % q, base);
    TimesMod(g, n, q, base);
    Sym(g, Times(g, n, base), Times(g, n % q, base));
    Trans(g, Times(g, n % q, base), Times(g, n, base), w);
  }

  lemma ProductNat(h: nat, a: nat)
    ensures h * a >= 0
  {
  }

  /** The second half of a signature. */
  function Response(q: nat, r: nat, h: nat, a: nat): (s: nat)
    requires q > 0
    ensures s < q
  {
    ProductNat(h, a);
    (r + h * a) % q
  }

  /** The equation a signature is checked by: the response's multiple of the base is `r`
      copies and `h` times `a` copies. */
  lemma SignatureEquation<T(!new)>(g: Group<T>, q: nat, base: T, r: nat, h: nat, a: nat)
    requires Laws(g) && g.on(base) && q > 0 && g.eq(Times(g, q, base), g.zero)
    ensures var w := g.add(Times(g, r, base), Times(g, h, Times(g, a, base)));
      g.on(w) && g.eq(Times(g, Response(q, r, h, a), base), w)
  {
    TimesLinear(g, base, r, h, a);
    ProductNat(h, a);
    var n := r + h * a;
    assert Response(q, r, h, a) == n % q;
    TimesReduced(g, q, base, n, g.add(Times(g, r, base), Times(g, h, Times(g, a, base))));
  }

  /** The multiples of a base of order `q` have inverses, so equal ones differ by a
      neutral one. */
  lemma DifferenceNeutral<T(!new)>(g: Group<T>, q: nat, base: T, m: nat, n: nat)
    requires Laws(g) && g.on(base) && g.eq(Times(g, q, base), g.zero) && m <= n && m <= q
    requires g.eq(Times(g, m, base), Times(g, n, base))
    ensures g.eq(Times(g, n - m, base), g.zero)
  {
    var i := q - m;
    var x, y, z, w := Times(g, i, base), Times(g, m, base), Times(g, n, base), Times(g, i + n, base);
    TimesOn(g, i, base);
    TimesOn(g, m, base);
    TimesOn(g, n, base);
    TimesOn(g, q, base);
    TimesOn(g, n - m, base);
    TimesOn(g, i + n, base);
    TimesAdd(g, i, n, base);
    TimesAdd(g, i, m, base);
    Right(g, y, z, x);
    Trans(g, Times(g, q, base), g.add(x, y), g.add(x, z));
    Sym(g, w, g.add(x, z));
    Trans(g, Times(g, q, base), g.add(x, z), w);
    Sym(g, Times(g, q, base), w);
    Trans(g, w, Times(g, q, base), g.zero);
    TimesShift(g, q, n - m, base);
    assert q + (n - m) == i + n;
    Sym(g, w, Times(g, n - m, base));
    Trans(g, Times(g, n - m, base), w, g.zero);
  }
}
