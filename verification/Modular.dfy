/** Congruence modulo `m`, and ratios: pairs in the proportion `z : z'` modulo `m`. */
module Modular {

  predicate Same(m: int, a: int, b: int)
    requires m > 0
  {
    (a - b) % m == 0
  }

  lemma MultipleLow(m: int, j: int, r: int)
    requires m > 0 && m * j == r && 0 <= r < m
    ensures r == 0
  {
    assert j >= 1 ==> m * j >= m;
    assert j <= -1 ==> m * j <= -m;
  }

  lemma FromFactor(m: int, a: int, b: int, k: int)
    requires m > 0 && a - b == m * k
    ensures Same(m, a, b)
  {
    var x := a - b;
    assert m * (k - x / m) == m * k - m * (x / m);
    MultipleLow(m, k - x / m, x % m);
  }

  lemma Factor(m: int, a: int, b: int) returns (k: int)
    requires m > 0 && Same(m, a, b)
    ensures a - b == m * k
  {
    k := (a - b) / m;
  }

  lemma SameMod(m: int, a: int)
    requires m > 0
    ensures Same(m, a % m, a)
  {
    FromFactor(m, a % m, a, -(a / m));
  }

  lemma SameSym(m: int, a: int, b: int)
    requires m > 0 && Same(m, a, b)
    ensures Same(m, b, a)
  {
    var k := Factor(m, a, b);
    FromFactor(m, b, a, -k);
  }

  lemma SameTrans(m: int, a: int, b: int, c: int)
    requires m > 0 && Same(m, a, b) && Same(m, b, c)
    ensures Same(m, a, c)
  {
    var j := Factor(m, a, b);
    var k := Factor(m, b, c);
    assert m * (j + k) == m * j + m * k;
    FromFactor(m, a, c, j + k);
  }

  lemma SameAdd(m: int, a: int, b: int, c: int, d: int)
    requires m > 0 && Same(m, a, b) && Same(m, c, d)
    ensures Same(m, a + c, b + d) && Same(m, a - c, b - d)
  {
    var j := Factor(m, a, b);
    var k := Factor(m, c, d);
    assert m * (j + k) == m * j + m * k && m * (j - k) == m * j - m * k;
    FromFactor(m, a + c, b + d, j + k);
    FromFactor(m, a - c, b - d, j - k);
  }

  lemma Rearranged(m: int, a: int, b: int, c: int, d: int, j: int, k: int)
    requires a - b == m * j && c - d == m * k
    ensures a * c - b * d == m * (j * c + b * k)
  {
    calc {
      a * c - b * d;
      (a - b) * c + b * (c - d);
      (m * j) * c + b * (m * k);
      m * (j * c) + m * (b * k);
      m * (j * c + b * k);
    }
  }

  lemma SameMul(m: int, a: int, b: int, c: int, d: int)
    requires m > 0 && Same(m, a, b) && Same(m, c, d)
    ensures Same(m, a * c, b * d)
  {
    var j := Factor(m, a, b);
    var k := Factor(m, c, d);
    Rearranged(m, a, b, c, d, j, k);
    FromFactor(m, a * c, b * d, j * c + b * k);
  }

  lemma SameTimes(m: int, a: int, b: int, k: int)
    requires m > 0 && Same(m, a, b)
    ensures Same(m, a * k, b * k)
  {
    SameMul(m, a, b, k, k);
  }

  // ---- a prime modulus ----

  ghost predicate Vanishes(m: int, a: int, b: int)
    requires m > 0
  {
    Same(m, a * b, 0)
  }

  /** `m` divides a product only where it divides a factor. */
  ghost predicate Prime(m: int) {
    m > 0 && forall a, b {:trigger Vanishes(m, a, b)} :: Vanishes(m, a, b) ==> Same(m, a, 0) || Same(m, b, 0)
  }

  lemma Cancel(m: int, a: int, b: int, k: int)
    requires Prime(m) && !Same(m, k, 0) && Same(m, a * k, b * k)
    ensures Same(m, a, b)
  {
    assert (a - b) * k == a * k - b * k;
    assert Vanishes(m, a - b, k);
  }

  lemma NonzeroProduct(m: int, a: int, b: int)
    requires Prime(m) && !Same(m, a, 0) && !Same(m, b, 0)
    ensures !Same(m, a * b, 0)
  {
    assert Vanishes(m, a, b) == Same(m, a * b, 0);
  }

  // ---- ratios ----

  /** `a : a'` is `z : z'`. */
  predicate Ratio(m: int, a: int, a': int, z: int, z': int)
    requires m > 0
  {
    Same(m, a * z', a' * z)
  }

  lemma RatioMod(m: int, a: int, a': int, z: int, z': int)
    requires m > 0 && Ratio(m, a, a', z, z')
    ensures Ratio(m, a % m, a' % m, z, z')
  {
    SameMod(m, a);
    SameMod(m, a');
    SameTimes(m, a % m, a, z');
    SameTimes(m, a' % m, a', z);
    SameSym(m, a' % m * z, a' * z);
    SameTrans(m, a % m * z', a * z', a' * z);
    SameTrans(m, a % m * z', a' * z, a' % m * z);
  }

  lemma RatioAdd(m: int, a: int, a': int, b: int, b': int, z: int, z': int)
    requires m > 0 && Ratio(m, a, a', z, z') && Ratio(m, b, b', z, z')
    ensures Ratio(m, a + b, a' + b', z, z') && Ratio(m, a - b, a' - b', z, z')
  {
    SameAdd(m, a * z', a' * z, b * z', b' * z);
    assert (a + b) * z' == a * z' + b * z' && (a' + b') * z == a' * z + b' * z;
    assert (a - b) * z' == a * z' - b * z' && (a' - b') * z == a' * z - b' * z;
  }

  lemma RatioTimes(m: int, a: int, a': int, k: int, z: int, z': int)
    requires m > 0 && Ratio(m, a, a', z, z')
    ensures Ratio(m, a * k, a' * k, z, z')
  {
    SameTimes(m, a * z', a' * z, k);
    assert a * k * z' == a * z' * k && a' * k * z == a' * z * k;
  }

  lemma Swap(a: int, b: int, c: int, d: int)
    ensures a * b * (c * d) == a * c * (b * d)
  {
    assert b * (c * d) == c * (b * d);
    calc {
      a * b * (c * d);
      a * (b * (c * d));
      a * (c * (b * d));
      a * c * (b * d);
    }
  }

  lemma RatioMul(m: int, a: int, a': int, b: int, b': int, z: int, z': int)
    requires m > 0 && Ratio(m, a, a', z, z') && Ratio(m, b, b', z, z')
    ensures Ratio(m, a * b, a' * b', z * z, z' * z')
  {
    SameMul(m, a * z', a' * z, b * z', b' * z);
    Swap(a, z', b, z');
    Swap(a', z, b', z);
  }

  /** Two pairs in the same proportion are in each other's. */
  lemma Cross(m: int, a: int, a': int, b: int, b': int, z: int, z': int)
    requires Prime(m) && Ratio(m, a, a', z, z') && Ratio(m, b, b', z, z') && !Same(m, z, 0) && !Same(m, z', 0)
    ensures Same(m, a * b', a' * b)
  {
    SameSym(m, b * z', b' * z);
    SameMul(m, a * z', a' * z, b' * z, b * z');
    Swap(a, z', b', z);
    Swap(a', z, b, z');
    assert z * z' == z' * z;
    NonzeroProduct(m, z', z);
    Cancel(m, a * b', a' * b, z' * z);
  }
}
