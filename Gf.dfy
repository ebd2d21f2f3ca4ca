/**
 * Arithmetic in GF(2^bits) through the `exps`/`logs` tables, as `horner` and
 * `lagrange` perform it (src/js/shamir39.js:570-581, 669-692): addition is
 * exclusive or, and nonzero elements multiply by adding their logarithms
 * modulo `max`. With a primitive polynomial these operations form a field.
 */
module Gf {
  import opened NatBits
  import opened Field

  /** Settings built by `init` for a primitive polynomial. */
  predicate IsField(c: Config)
  {
    Valid(c) && Primitive(c.bits, c.poly)
  }

  /** `logs[v]` for a nonzero element; the unwritten entry `logs[0]` is never read. */
  function Log(c: Config, v: nat): (l: nat)
    requires Valid(c) && 1 <= v < c.size
    ensures l < c.size
  {
    LastPassBound(c.bits, c.poly, v, c.size);
    Entry(c, v);
    c.logs[v]
  }

  /**
   * The product of two elements as the source computes it:
   * `exps[(logs[a] + logs[b]) % max]`, and 0 when either factor is 0.
   */
  function Mul(c: Config, a: nat, b: nat): (r: nat)
    requires Valid(c) && a < c.size && b < c.size
    ensures r < c.size
    ensures r == 0 <==> a == 0 || b == 0
  {
    if a == 0 || b == 0 then 0
    else
      var k := (Log(c, a) + Log(c, b)) % c.max;
      PowerRange(c.bits, c.poly, k);
      Entry(c, k);
      c.exps[k]
  }

  /** Field addition, the source's `^` on two elements; it stays below `size`. */
  function Add(c: Config, a: nat, b: nat): (r: nat)
    requires Valid(c) && a < c.size && b < c.size
    ensures r < c.size
    ensures r == 0 <==> a == b
  {
    XorBound(a, b, c.bits);
    XorZeroIff(a, b);
    Xor(a, b)
  }

  /** 0 is the additive identity. */
  lemma AddZero(c: Config, a: nat)
    requires Valid(c) && a < c.size
    ensures Add(c, a, 0) == a && Add(c, 0, a) == a
  {
    XorZero(a);
  }

  /** `exps[k mod max]` for any integer exponent `k`. */
  function Exp(c: Config, k: int): (r: nat)
    requires Valid(c)
    ensures 1 <= r < c.size
  {
    PowerRange(c.bits, c.poly, k % c.max);
    Entry(c, k % c.max);
    c.exps[k % c.max]
  }

  // ---------------------------------------------------------------------
  // Exponents

  lemma ModShift(a: int, m: int, k: int)
    requires m > 0
    ensures (a + m * k) % m == a % m
  {
    DivModUnique(a + m * k, m, a / m + k, a % m);
  }

  /** Congruent summands give congruent sums. */
  lemma ModAdd(x: int, y: int, x2: int, y2: int, m: int)
    requires m > 0 && x % m == x2 % m && y % m == y2 % m
    ensures (x + y) % m == (x2 + y2) % m
  {
    var k := x / m - x2 / m + y / m - y2 / m;
    assert x + y == (x2 + y2) + m * k;
    ModShift(x2 + y2, m, k);
  }

  /** The logarithm of `exps[k]` is congruent to `k`. */
  lemma LogOfExp(c: Config, k: int)
    requires IsField(c)
    ensures Log(c, Exp(c, k)) % c.max == k % c.max
  {
    var e := k % c.max;
    if e == 0 {
      Entry(c, 0);
      WrapAround(c);
      DivModUnique(c.max, c.max, 1, 0);
    } else {
      LogExp(c, e);
      DivModUnique(e, c.max, 0, e);
    }
  }

  /** `exps[logs[a] mod max] == a` for every nonzero element. */
  lemma ExpOfLog(c: Config, a: nat)
    requires IsField(c) && 1 <= a < c.size
    ensures Exp(c, Log(c, a)) == a
  {
    ExpLog(c, a);
    WrapAround(c);
    Entry(c, 0);
    if Log(c, a) < c.max {
      DivModUnique(Log(c, a), c.max, 0, Log(c, a));
    } else {
      DivModUnique(c.max, c.max, 1, 0);
    }
  }

  /** Multiplying table powers adds exponents. */
  lemma ExpMul(c: Config, i: int, j: int)
    requires IsField(c)
    ensures Mul(c, Exp(c, i), Exp(c, j)) == Exp(c, i + j)
  {
    LogOfExp(c, i);
    LogOfExp(c, j);
    ModAdd(Log(c, Exp(c, i)), Log(c, Exp(c, j)), i, j, c.max);
  }

  lemma ExpZero(c: Config)
    requires Valid(c)
    ensures Exp(c, 0) == 1
  {
    Entry(c, 0);
  }

  /** A nonzero product is `max`-periodic multiplication by the generator. */
  lemma MulIsStepN(c: Config, a: nat, b: nat)
    requires IsField(c) && 1 <= a < c.size && b < c.size
    ensures Mul(c, a, b) == StepN(c.bits, c.poly, Log(c, a), b)
  {
    if b == 0 {
      StepNRange(c.bits, c.poly, Log(c, a), 0);
    } else {
      StepNMod(c.bits, c.poly, Log(c, a) + Log(c, b), 1);
      ExpLog(c, b);
      MulNonzero(c, a, b);
    }
  }

  /** The nonzero case of `MulIsStepN`, given that the step count may be reduced modulo `max`
      and that `exps` inverts `logs` at `b`. */
  lemma MulNonzero(c: Config, a: nat, b: nat)
    requires Valid(c) && 1 <= a < c.size && 1 <= b < c.size
    requires StepN(c.bits, c.poly, Log(c, a) + Log(c, b), 1)
          == StepN(c.bits, c.poly, (Log(c, a) + Log(c, b)) % c.max, 1)
    requires c.exps[Log(c, b)] == b
    ensures Mul(c, a, b) == StepN(c.bits, c.poly, Log(c, a), b)
  {
    var la, lb := Log(c, a), Log(c, b);
    var k := (la + lb) % c.max;
    assert Mul(c, a, b) == c.exps[k];
    Entry(c, k);
    StepNAdd(c.bits, c.poly, la, lb, 1);
    Entry(c, lb);
  }

  // ---------------------------------------------------------------------
  // Field laws

  lemma MulComm(c: Config, a: nat, b: nat)
    requires Valid(c) && a < c.size && b < c.size
    ensures Mul(c, a, b) == Mul(c, b, a)
  {
  }

  lemma MulOne(c: Config, b: nat)
    requires IsField(c) && b < c.size
    ensures Mul(c, 1, b) == b && Mul(c, b, 1) == b
  {
    WrapAround(c);
    MulIsStepN(c, 1, b);
    StepNMax(c.bits, c.poly, b);
  }

  /** Multiplication distributes over addition (exclusive or). */
  lemma MulDistrib(c: Config, a: nat, b: nat, d: nat)
    requires IsField(c) && a < c.size && b < c.size && d < c.size
    ensures Xor(b, d) < c.size
    ensures Mul(c, a, Xor(b, d)) == Xor(Mul(c, a, b), Mul(c, a, d))
  {
    XorBound(b, d, c.bits);
    if a == 0 {
      XorZero(0);
    } else {
      MulIsStepN(c, a, b);
      MulIsStepN(c, a, d);
      MulIsStepN(c, a, Xor(b, d));
      StepNLinear(c.bits, c.poly, Log(c, a), b, d);
    }
  }

  lemma MulAssoc(c: Config, a: nat, b: nat, d: nat)
    requires IsField(c) && a < c.size && b < c.size && d < c.size
    ensures Mul(c, Mul(c, a, b), d) == Mul(c, a, Mul(c, b, d))
  {
    if a != 0 && b != 0 && d != 0 {
      var la, lb := Log(c, a), Log(c, b);
      var ab, bd := Mul(c, a, b), Mul(c, b, d);
      assert ab == Exp(c, la + lb);
      LogOfExp(c, la + lb);
      MulIsStepN(c, ab, d);
      MulIsStepN(c, b, d);
      MulIsStepN(c, a, bd);
      StepNCongruent(c.bits, c.poly, Log(c, ab), la + lb, d);
      StepNAdd(c.bits, c.poly, la, lb, d);
    }
  }

  /** The multiplicative inverse of a nonzero element: `exps[-logs[a] mod max]`. */
  function Inv(c: Config, a: nat): (r: nat)
    requires Valid(c) && 1 <= a < c.size
    ensures 1 <= r < c.size
  {
    Exp(c, -(Log(c, a) as int))
  }

  lemma MulInv(c: Config, a: nat)
    requires IsField(c) && 1 <= a < c.size
    ensures Mul(c, a, Inv(c, a)) == 1
  {
    var l: int := Log(c, a);
    ExpOfLog(c, a);
    ExpMul(c, l, -l);
    assert l + -l == 0;
    ExpZero(c);
  }
}
