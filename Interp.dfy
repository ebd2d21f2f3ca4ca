/**
 * Lagrange interpolation over GF(2^bits), in the form the source's
 * `lagrange` (src/js/shamir39.js:669-697) evaluates it: the value at `at` is
 * the sum over the points of `y[i]` times the basis product
 * `prod_{j != i} (at + x[j]) / (x[i] + x[j])`. The main result is that this
 * sum is the value of any polynomial through the points with no more
 * coefficients than there are points.
 */
module Interp {
  import opened NatBits
  import opened Field
  import opened Gf
  import opened Poly

  /** Points with distinct abscissae in the field; one ordinate per abscissa. */
  predicate Nodes(c: Config, xs: seq<nat>, ys: seq<nat>)
  {
    Valid(c) && InField(c, xs) && Distinct(xs) && InField(c, ys) && |ys| == |xs|
  }

  /** Distinct nodes differ by a nonzero element. */
  function Gap(c: Config, xs: seq<nat>, i: nat, j: nat): (r: nat)
    requires Valid(c) && InField(c, xs) && Distinct(xs) && i < |xs| && j < |xs| && i != j
    ensures 1 <= r < c.size
  {
    Add(c, xs[i], xs[j])
  }

  /** The basis product for point `i` over the factors `j < k`. */
  function Basis(c: Config, xs: seq<nat>, i: nat, at: nat, k: nat): (r: nat)
    requires Valid(c) && InField(c, xs) && Distinct(xs) && i < |xs| && at < c.size && k <= |xs|
    ensures r < c.size
  {
    if k == 0 then 1
    else
      var b := Basis(c, xs, i, at, k - 1);
      if k - 1 == i then b else Mul(c, b, Mul(c, Add(c, at, xs[k - 1]), Inv(c, Gap(c, xs, i, k - 1))))
  }

  /** At its own node the basis product is 1. */
  lemma {:induction false} BasisAtOwnNode(c: Config, xs: seq<nat>, i: nat, k: nat)
    requires IsField(c) && InField(c, xs) && Distinct(xs) && i < |xs| && k <= |xs|
    ensures Basis(c, xs, i, xs[i], k) == 1
  {
    if k > 0 {
      BasisAtOwnNode(c, xs, i, k - 1);
      if k - 1 != i {
        var g := Gap(c, xs, i, k - 1);
        MulInv(c, g);
        MulOne(c, Mul(c, g, Inv(c, g)));
      }
    }
  }

  /** At another node `m` the basis product vanishes once the factor for `m` is in. */
  lemma {:induction false} BasisAtOtherNode(c: Config, xs: seq<nat>, i: nat, m: nat, k: nat)
    requires Valid(c) && InField(c, xs) && Distinct(xs) && i < |xs| && m < k <= |xs| && m != i
    ensures Basis(c, xs, i, xs[m], k) == 0
  {
    if k - 1 == m {
      var z := Add(c, xs[m], xs[m]);
      assert z == 0;
    } else {
      BasisAtOtherNode(c, xs, i, m, k - 1);
    }
  }

  /** The basis product is a polynomial in `at` with one coefficient per point. */
  lemma {:induction false} BasisPolyExists(c: Config, xs: seq<nat>, i: nat, k: nat) returns (b: seq<nat>)
    requires IsField(c) && InField(c, xs) && Distinct(xs) && i < |xs| && k <= |xs|
    ensures InField(c, b) && |b| == if i < k then k else k + 1
    ensures forall z: nat :: z < c.size ==> Eval(c, b, z) == Basis(c, xs, i, z, k)
  {
    if k == 0 {
      b := [1];
      forall z: nat | z < c.size
        ensures Eval(c, b, z) == Basis(c, xs, i, z, k)
      {
        EvalConst(c, 1, z);
      }
    } else {
      var b0 := BasisPolyExists(c, xs, i, k - 1);
      b := BasisPolyStep(c, xs, i, k - 1, b0);
    }
  }

  /** The basis polynomial over the first `j + 1` points, from the one over the first `j`. */
  lemma BasisPolyStep(c: Config, xs: seq<nat>, i: nat, j: nat, b0: seq<nat>) returns (b: seq<nat>)
    requires IsField(c) && InField(c, xs) && Distinct(xs) && i < |xs| && j < |xs|
    requires InField(c, b0) && |b0| == if i < j then j else j + 1
    requires forall z: nat :: z < c.size ==> Eval(c, b0, z) == Basis(c, xs, i, z, j)
    ensures InField(c, b) && |b| == if i < j + 1 then j + 1 else j + 2
    ensures forall z: nat :: z < c.size ==> Eval(c, b, z) == Basis(c, xs, i, z, j + 1)
  {
    if j == i {
      b := b0;
    } else {
      b := PScale(c, Inv(c, Gap(c, xs, i, j)), PMulLin(c, b0, xs[j]));
    }
    forall z: nat | z < c.size
      ensures Eval(c, b, z) == Basis(c, xs, i, z, j + 1)
    {
      BasisPolyPoint(c, xs, i, j, b0, b, z);
    }
  }

  /** Factor `j` of the basis product, at one `z`: skipped at its own node, else a scaled linear factor. */
  lemma BasisPolyPoint(c: Config, xs: seq<nat>, i: nat, j: nat, b0: seq<nat>, b: seq<nat>, z: nat)
    requires IsField(c) && InField(c, xs) && Distinct(xs) && i < |xs| && j < |xs| && z < c.size
    requires InField(c, b0) && Eval(c, b0, z) == Basis(c, xs, i, z, j)
    requires j == i ==> b == b0
    requires j != i ==> b == PScale(c, Inv(c, Gap(c, xs, i, j)), PMulLin(c, b0, xs[j]))
    ensures Eval(c, b, z) == Basis(c, xs, i, z, j + 1)
  {
    if j != i {
      EvalLinearFactor(c, b0, xs[j], Inv(c, Gap(c, xs, i, j)), z, Basis(c, xs, i, z, j));
    }
  }

  /** The interpolated value at `at` from the first `k` points. */
  function LagSum(c: Config, xs: seq<nat>, ys: seq<nat>, at: nat, k: nat): (r: nat)
    requires Nodes(c, xs, ys) && at < c.size && k <= |xs|
    ensures r < c.size
  {
    if k == 0 then 0
    else Add(c, LagSum(c, xs, ys, at, k - 1), Mul(c, ys[k - 1], Basis(c, xs, k - 1, at, |xs|)))
  }

  /** The interpolated value is a polynomial in `at` with no more coefficients than points. */
  lemma {:induction false} LagPolyExists(c: Config, xs: seq<nat>, ys: seq<nat>, k: nat) returns (l: seq<nat>)
    requires IsField(c) && Nodes(c, xs, ys) && k <= |xs|
    ensures InField(c, l) && |l| <= |xs|
    ensures forall z: nat :: z < c.size ==> Eval(c, l, z) == LagSum(c, xs, ys, z, k)
  {
    if k == 0 {
      l := [];
    } else {
      var j: nat := k - 1;
      var l0 := LagPolyExists(c, xs, ys, j);
      var b := BasisPolyExists(c, xs, j, |xs|);
      var y := ys[j];
      l := PAdd(c, l0, PScale(c, y, b));
      forall z: nat | z < c.size
        ensures Eval(c, l, z) == LagSum(c, xs, ys, z, k)
      {
        LagPolyPoint(c, xs, ys, j, k, l0, b, z);
      }
    }
  }

  /** One more point adds `ys[j]` times its basis polynomial, at every `z`. */
  lemma LagPolyPoint(c: Config, xs: seq<nat>, ys: seq<nat>, j: nat, k: nat, l0: seq<nat>, b: seq<nat>, z: nat)
    requires IsField(c) && Nodes(c, xs, ys) && j < |xs| && k == j + 1 && InField(c, l0) && InField(c, b) && z < c.size
    requires Eval(c, l0, z) == LagSum(c, xs, ys, z, j) && Eval(c, b, z) == Basis(c, xs, j, z, |xs|)
    ensures Eval(c, PAdd(c, l0, PScale(c, ys[j], b)), z) == LagSum(c, xs, ys, z, k)
  {
    LagSumStep(c, xs, ys, z, j);
    EvalAddScaled(c, l0, ys[j], b, z, LagSum(c, xs, ys, z, j), Basis(c, xs, j, z, |xs|));
  }

  /** At a node, the first `k` points give that node's ordinate if it is among them, else 0. */
  lemma {:induction false} LagSumAtNode(c: Config, xs: seq<nat>, ys: seq<nat>, m: nat, k: nat)
    requires IsField(c) && Nodes(c, xs, ys) && m < |xs| && k <= |xs|
    ensures LagSum(c, xs, ys, xs[m], k) == if m < k then ys[m] else 0
  {
    if k > 0 {
      var j: nat := k - 1;
      LagSumAtNode(c, xs, ys, m, j);
      if j == m {
        LagSumOwnTerm(c, xs, ys, m);
        AddZero(c, ys[m]);
      } else {
        LagSumOtherTerm(c, xs, ys, m, j);
      }
    }
  }

  /** The term of point `m` at its own node is `ys[m]`. */
  lemma LagSumOwnTerm(c: Config, xs: seq<nat>, ys: seq<nat>, m: nat)
    requires IsField(c) && Nodes(c, xs, ys) && m < |xs|
    ensures LagSum(c, xs, ys, xs[m], m + 1) == Add(c, LagSum(c, xs, ys, xs[m], m), ys[m])
  {
    LagSumStep(c, xs, ys, xs[m], m);
    BasisAtOwnNode(c, xs, m, |xs|);
    MulOne(c, ys[m]);
  }

  /** The term of any other point `j` vanishes at node `m`. */
  lemma LagSumOtherTerm(c: Config, xs: seq<nat>, ys: seq<nat>, m: nat, j: nat)
    requires Nodes(c, xs, ys) && m < |xs| && j < |xs| && j != m
    ensures LagSum(c, xs, ys, xs[m], j + 1) == LagSum(c, xs, ys, xs[m], j)
  {
    var s := LagSum(c, xs, ys, xs[m], j);
    LagSumStep(c, xs, ys, xs[m], j);
    BasisAtOtherNode(c, xs, j, m, |xs|);
    assert Mul(c, ys[j], Basis(c, xs, j, xs[m], |xs|)) == 0;
    AddZero(c, s);
  }

  /** Adding point `j` adds its term. */
  lemma LagSumStep(c: Config, xs: seq<nat>, ys: seq<nat>, at: nat, j: nat)
    requires Nodes(c, xs, ys) && at < c.size && j < |xs|
    ensures LagSum(c, xs, ys, at, j + 1) == Add(c, LagSum(c, xs, ys, at, j), Mul(c, ys[j], Basis(c, xs, j, at, |xs|)))
  {
  }

  /**
   * Interpolation recovers the polynomial: when every point lies on `p` and
   * `p` has no more coefficients than there are points, the sum at any
   * `at` is `p`'s value there.
   */
  lemma Interpolate(c: Config, p: seq<nat>, xs: seq<nat>, ys: seq<nat>, at: nat)
    requires IsField(c) && Nodes(c, xs, ys) && InField(c, p) && |p| <= |xs| && at < c.size
    requires forall k :: 0 <= k < |xs| ==> ys[k] == Eval(c, p, xs[k])
    ensures LagSum(c, xs, ys, at, |xs|) == Eval(c, p, at)
  {
    var n := |xs|;
    var l := LagPolyExists(c, xs, ys, n);
    var d := PAdd(c, l, p);
    forall k | 0 <= k < n
      ensures Eval(c, d, xs[k]) == 0
    {
      EvalAdd(c, l, p, xs[k]);
      LagSumAtNode(c, xs, ys, k, n);
    }
    RootsVanish(c, d, xs, at);
    EvalAdd(c, l, p, at);
  }
}
