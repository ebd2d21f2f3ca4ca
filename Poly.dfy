/**
 * Polynomials over GF(2^bits), stored as `_getShares` stores its `coeffs`
 * (src/js/shamir39.js:549-567): the constant term, which is the secret
 * chunk, first. Evaluation follows `horner`; the remaining operations exist
 * to prove that `lagrange` recovers the polynomial's values.
 */
module Poly {
  import opened NatBits
  import opened Field
  import opened Gf

  /** Every coefficient is an element of the field. */
  predicate InField(c: Config, p: seq<nat>)
  {
    forall i :: 0 <= i < |p| ==> p[i] < c.size
  }

  /**
   * The value at `z`, accumulated from the highest coefficient down:
   * `fx = fx * z + coeffs[i]`.
   */
  function Eval(c: Config, p: seq<nat>, z: nat): (r: nat)
    requires Valid(c) && InField(c, p) && z < c.size
    ensures r < c.size
  {
    if p == [] then 0 else Add(c, Mul(c, z, Eval(c, p[1..], z)), p[0])
  }

  /** A constant polynomial has its constant everywhere. */
  lemma EvalConst(c: Config, a: nat, z: nat)
    requires Valid(c) && a < c.size && z < c.size
    ensures Eval(c, [a], z) == a
  {
    assert [a][1..] == [];
    XorZero(a);
  }

  /** At 0 a polynomial is its constant term: the secret chunk. */
  lemma EvalZero(c: Config, p: seq<nat>)
    requires Valid(c) && InField(c, p) && p != []
    ensures Eval(c, p, 0) == p[0]
  {
    XorZero(p[0]);
  }

  // ---------------------------------------------------------------------
  // Sums, multiples and linear factors

  /** The coefficient-wise sum; the shorter polynomial is extended with zeros. */
  function PAdd(c: Config, p: seq<nat>, q: seq<nat>): (r: seq<nat>)
    requires Valid(c) && InField(c, p) && InField(c, q)
    ensures InField(c, r)
    ensures |r| == if |p| < |q| then |q| else |p|
  {
    if p == [] then q
    else if q == [] then p
    else [Add(c, p[0], q[0])] + PAdd(c, p[1..], q[1..])
  }

  lemma {:induction false} EvalAdd(c: Config, p: seq<nat>, q: seq<nat>, z: nat)
    requires IsField(c) && InField(c, p) && InField(c, q) && z < c.size
    ensures Eval(c, PAdd(c, p, q), z) == Add(c, Eval(c, p, z), Eval(c, q, z))
  {
    if p == [] {
      XorZero(Eval(c, q, z));
    } else if q == [] {
      XorZero(Eval(c, p, z));
    } else {
      var r := PAdd(c, p, q);
      assert r[1..] == PAdd(c, p[1..], q[1..]);
      EvalAdd(c, p[1..], q[1..], z);
      var ep, eq := Eval(c, p[1..], z), Eval(c, q[1..], z);
      MulDistrib(c, z, ep, eq);
      XorMiddle(Mul(c, z, ep), Mul(c, z, eq), p[0], q[0]);
    }
  }

  /** Every coefficient multiplied by `k`. */
  function PScale(c: Config, k: nat, p: seq<nat>): (r: seq<nat>)
    requires Valid(c) && k < c.size && InField(c, p)
    ensures InField(c, r) && |r| == |p|
  {
    if p == [] then [] else [Mul(c, k, p[0])] + PScale(c, k, p[1..])
  }

  lemma {:induction false} EvalScale(c: Config, k: nat, p: seq<nat>, z: nat)
    requires IsField(c) && k < c.size && InField(c, p) && z < c.size
    ensures Eval(c, PScale(c, k, p), z) == Mul(c, k, Eval(c, p, z))
  {
    if p == [] {
    } else {
      var r := PScale(c, k, p);
      assert r[1..] == PScale(c, k, p[1..]);
      EvalScale(c, k, p[1..], z);
      var e := Eval(c, p[1..], z);
      MulSwap(c, z, k, e);
      MulDistrib(c, k, Mul(c, z, e), p[0]);
    }
  }

  /** `z * (k * e) == k * (z * e)`. */
  lemma MulSwap(c: Config, z: nat, k: nat, e: nat)
    requires IsField(c) && z < c.size && k < c.size && e < c.size
    ensures Mul(c, z, Mul(c, k, e)) == Mul(c, k, Mul(c, z, e))
  {
    MulAssoc(c, z, k, e);
    MulComm(c, z, k);
    MulAssoc(c, k, z, e);
  }

  /** One step of a sum of multiples: `p + k * q`. */
  lemma EvalAddScaled(c: Config, p: seq<nat>, k: nat, q: seq<nat>, z: nat, ep: nat, eq: nat)
    requires IsField(c) && InField(c, p) && k < c.size && InField(c, q) && z < c.size
    requires Eval(c, p, z) == ep && Eval(c, q, z) == eq
    ensures Eval(c, PAdd(c, p, PScale(c, k, q)), z) == Add(c, ep, Mul(c, k, eq))
  {
    EvalAdd(c, p, PScale(c, k, q), z);
    EvalScale(c, k, q, z);
  }

  /** The product with the linear factor `(z + r)`. */
  function PMulLin(c: Config, p: seq<nat>, r: nat): (q: seq<nat>)
    requires Valid(c) && InField(c, p) && r < c.size
    ensures InField(c, q) && |q| == |p| + 1
  {
    PAdd(c, [0] + p, PScale(c, r, p))
  }

  lemma EvalMulLin(c: Config, p: seq<nat>, r: nat, z: nat)
    requires IsField(c) && InField(c, p) && r < c.size && z < c.size
    ensures Eval(c, PMulLin(c, p, r), z) == Mul(c, Eval(c, p, z), Add(c, z, r))
  {
    var e := Eval(c, p, z);
    assert ([0] + p)[1..] == p;
    XorZero(Mul(c, z, e));
    EvalAdd(c, [0] + p, PScale(c, r, p), z);
    EvalScale(c, r, p, z);
    MulComm(c, e, z);
    MulComm(c, e, r);
    MulDistrib(c, e, z, r);
  }

  /** Multiplying by the linear factor `(z + x)` and the scalar `v`. */
  lemma EvalLinearFactor(c: Config, p: seq<nat>, x: nat, v: nat, z: nat, e: nat)
    requires IsField(c) && InField(c, p) && x < c.size && v < c.size && z < c.size
    requires Eval(c, p, z) == e
    ensures Eval(c, PScale(c, v, PMulLin(c, p, x)), z) == Mul(c, e, Mul(c, Add(c, z, x), v))
  {
    var m := PMulLin(c, p, x);
    var w := Add(c, z, x);
    EvalScale(c, v, m, z);
    EvalMulLin(c, p, x, z);
    MulSwap(c, v, e, w);
    MulComm(c, w, v);
  }

  // ---------------------------------------------------------------------
  // Division by a linear factor and roots

  /** The quotient of synthetic division by `(z + r)`. */
  function Quot(c: Config, p: seq<nat>, r: nat): (q: seq<nat>)
    requires Valid(c) && InField(c, p) && r < c.size
    ensures InField(c, q) && |q| == if p == [] then 0 else |p| - 1
  {
    if |p| <= 1 then [] else [Eval(c, p[1..], r)] + Quot(c, p[1..], r)
  }

  /** `p(z) == p(r) + (z + r) * q(z)` for the quotient `q`. */
  lemma {:induction false} EvalQuot(c: Config, p: seq<nat>, r: nat, z: nat)
    requires IsField(c) && InField(c, p) && r < c.size && z < c.size
    ensures Eval(c, p, z) == Add(c, Eval(c, p, r), Mul(c, Add(c, z, r), Eval(c, Quot(c, p, r), z)))
  {
    if |p| <= 1 {
      var e := Eval(c, p, r);
      XorZero(e);
      if p != [] {
        assert p[1..] == [];
        EvalConst(c, p[0], z);
        EvalConst(c, p[0], r);
      }
    } else {
      var tail := p[1..];
      var q := Quot(c, p, r);
      assert q[1..] == Quot(c, tail, r);
      EvalQuot(c, tail, r, z);
      var er, qz, s := Eval(c, tail, r), Eval(c, Quot(c, tail, r), z), Add(c, z, r);
      QuotStep(c, p[0], er, qz, z, r);
    }
  }

  /**
   * The algebra of one synthetic-division step: with `e(z) == er + s * qz`,
   * `z * e(z) + a == (r * er + a) + s * (z * qz + er)`.
   */
  lemma QuotStep(c: Config, a: nat, er: nat, qz: nat, z: nat, r: nat)
    requires IsField(c) && a < c.size && er < c.size && qz < c.size && z < c.size && r < c.size
    ensures Add(c, Mul(c, z, Add(c, er, Mul(c, Add(c, z, r), qz))), a)
         == Add(c, Add(c, Mul(c, r, er), a), Mul(c, Add(c, z, r), Add(c, Mul(c, z, qz), er)))
  {
    var s := Add(c, z, r);
    var sq := Mul(c, s, qz);
    var big, bz, br := Mul(c, z, sq), Mul(c, z, er), Mul(c, r, er);
    MulDistrib(c, z, er, sq);
    MulSwap(c, z, s, qz);
    MulDistrib(c, s, Mul(c, z, qz), er);
    MulComm(c, s, er);
    MulDistrib(c, er, z, r);
    MulComm(c, er, z);
    MulComm(c, er, r);
    XorRearrange(bz, big, a, br);
  }

  /** `(b + g) + a == (d + a) + (g + (b + d))` in characteristic 2. */
  lemma XorRearrange(b: nat, g: nat, a: nat, d: nat)
    ensures Xor(Xor(b, g), a) == Xor(Xor(d, a), Xor(g, Xor(b, d)))
  {
    var gb := Xor(g, b);
    assert Xor(g, Xor(b, d)) == Xor(d, gb) by {
      XorAssoc(g, b, d);
      XorComm(gb, d);
    }
    assert Xor(Xor(d, a), Xor(d, gb)) == Xor(a, Xor(d, Xor(d, gb))) by {
      XorComm(d, a);
      XorAssoc(a, d, Xor(d, gb));
    }
    assert Xor(d, Xor(d, gb)) == gb by {
      XorAssoc(d, d, gb);
      XorSelf(d);
      XorZero(gb);
    }
    assert Xor(a, gb) == Xor(Xor(b, g), a) by {
      XorComm(a, gb);
      XorComm(g, b);
    }
  }

  /** The entries of `rs` are pairwise different. */
  predicate Distinct(rs: seq<nat>)
  {
    forall i, j :: 0 <= i < j < |rs| ==> rs[i] != rs[j]
  }

  /**
   * A polynomial with no more coefficients than it has distinct roots is
   * zero everywhere.
   */
  lemma {:induction false} RootsVanish(c: Config, p: seq<nat>, rs: seq<nat>, z: nat)
    requires IsField(c) && InField(c, p) && z < c.size
    requires InField(c, rs) && Distinct(rs) && |p| <= |rs|
    requires forall k :: 0 <= k < |rs| ==> Eval(c, p, rs[k]) == 0
    ensures Eval(c, p, z) == 0
    decreases |rs|
  {
    if p != [] {
      var r := rs[0];
      var q := Quot(c, p, r);
      forall k | 0 <= k < |rs| - 1
        ensures Eval(c, q, rs[1..][k]) == 0
      {
        var t := rs[k + 1];
        EvalQuot(c, p, r, t);
        XorZero(Mul(c, Add(c, t, r), Eval(c, q, t)));
      }
      RootsVanish(c, q, rs[1..], z);
      EvalQuot(c, p, r, z);
      XorZero(0);
    }
  }
}
