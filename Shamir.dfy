/**
 * The secret-sharing core of src/js/shamir39.js: evaluating the random
 * polynomial at the share ids (`_getShares`, `horner`) and interpolating it
 * back (`lagrange`). A secret of `bits` bits is the constant coefficient of a
 * polynomial of `threshold` coefficients; each share is its value at one id.
 */
module Shamir {
  import opened NatBits
  import opened Field
  import opened Gf
  import opened Poly
  import opened Interp

  /** One share of one `bits`-wide chunk: the id `x` and the value `y` there. */
  datatype Point = Point(x: nat, y: nat)

  // ---------------------------------------------------------------------
  // Evaluation

  /**
   * `horner(x, coeffs)`: from the highest coefficient down, `fx = fx * x +
   * coeffs[i]`, where a zero `fx` is replaced by the coefficient instead of
   * being multiplied through the tables. The ids are at least 1, so
   * `logs[0]` is never read (the `Log` preconditions check this).
   */
  method Horner(c: Config, x: nat, coeffs: seq<nat>) returns (fx: nat)
    requires Valid(c) && 1 <= x < c.size && InField(c, coeffs)
    ensures fx == Eval(c, coeffs, x)
  {
    var logx := Log(c, x);
    fx := 0;
    var i := |coeffs|;
    while i > 0
      invariant 0 <= i <= |coeffs|
      invariant fx == Eval(c, coeffs[i..], x)
    {
      i := i - 1;
      fx := HornerStep(c, x, logx, coeffs, i, fx);
    }
    assert coeffs[0..] == coeffs;
  }

  /** One pass of the `horner` loop: multiply by `x` through the tables, then add coefficient `i`. */
  method HornerStep(c: Config, x: nat, logx: nat, coeffs: seq<nat>, i: nat, fx: nat) returns (next: nat)
    requires Valid(c) && 1 <= x < c.size && logx == Log(c, x) && InField(c, coeffs) && i < |coeffs|
    requires fx == Eval(c, coeffs[i + 1..], x)
    ensures next == Eval(c, coeffs[i..], x)
  {
    EvalSuffix(c, coeffs, i, x);
    if fx == 0 {
      XorZero(coeffs[i]);
      next := coeffs[i];
    } else {
      next := Add(c, c.exps[(logx + Log(c, fx)) % c.max], coeffs[i]);
    }
  }

  /** Peeling the lowest coefficient off a suffix of `coeffs`. */
  lemma EvalSuffix(c: Config, coeffs: seq<nat>, i: nat, x: nat)
    requires Valid(c) && InField(c, coeffs) && i < |coeffs| && x < c.size
    ensures Eval(c, coeffs[i..], x) == Add(c, Mul(c, x, Eval(c, coeffs[i + 1..], x)), coeffs[i])
  {
    assert coeffs[i..][1..] == coeffs[i + 1..];
  }

  /**
   * `_getShares(secret, numShares, threshold)`: the coefficients are the
   * secret followed by `threshold - 1` random draws (passed in as `draws`),
   * and share `i` is the point at id `i + 1`.
   */
  method GetShares(c: Config, secret: nat, numShares: nat, threshold: nat, draws: seq<nat>)
    returns (shares: seq<Point>)
    requires Valid(c) && secret < c.size && numShares <= c.max
    requires |draws| + 1 == threshold && InField(c, draws)
    ensures |shares| == numShares
    ensures forall i :: 0 <= i < numShares ==> shares[i] == Point(i + 1, Eval(c, [secret] + draws, i + 1))
  {
    var coeffs := [secret] + draws;
    shares := [];
    var i := 1;
    while i < numShares + 1
      invariant 1 <= i <= numShares + 1
      invariant |shares| == i - 1
      invariant forall k :: 0 <= k < i - 1 ==> shares[k] == Point(k + 1, Eval(c, coeffs, k + 1))
    {
      var y := Horner(c, i, coeffs);
      shares := shares + [Point(i, y)];
      i := i + 1;
    }
  }

  // ---------------------------------------------------------------------
  // Interpolation as the source computes it

  /**
   * The value of `product` in `lagrange` for point `i` with ordinate `y`
   * after the inner loop has looked at the first `j` abscissae: it starts at
   * `logs[y]`, adds `logs[at ^ x[j]] - logs[x[i] ^ x[j]]` modulo `max` for
   * every other point, and becomes -1 for good once `at` is one of them.
   * The dividend is never negative, so JavaScript's `%` agrees with Dafny's.
   */
  function Product(c: Config, at: nat, xs: seq<nat>, i: nat, y: nat, j: nat): (r: int)
    requires Valid(c) && InField(c, xs) && Distinct(xs) && i < |xs| && 1 <= y < c.size
    requires at < c.size && j <= |xs|
    ensures -1 <= r <= c.max
  {
    if j == 0 then Log(c, y) as int
    else
      var pr := Product(c, at, xs, i, y, j - 1);
      if pr == -1 || j - 1 == i then pr
      else if at == xs[j - 1] then -1
      else
        var la, lg := Log(c, Add(c, at, xs[j - 1])), Log(c, Gap(c, xs, i, j - 1));
        assert pr + la - lg + c.max >= 0;
        (pr + la - lg + c.max) % c.max
  }

  /**
   * The sum `lagrange` has accumulated after the first `k` points: points
   * whose ordinate is 0 (or missing) are skipped, and so are points whose
   * product ended at -1.
   */
  function LagrangeSum(c: Config, at: nat, xs: seq<nat>, ys: seq<nat>, k: nat): (r: nat)
    requires Nodes(c, xs, ys) && at < c.size && k <= |xs|
    ensures r < c.size
  {
    if k == 0 then 0
    else
      var s := LagrangeSum(c, at, xs, ys, k - 1);
      if ys[k - 1] == 0 then s
      else
        var pr := Product(c, at, xs, k - 1, ys[k - 1], |xs|);
        if pr == -1 then s
        else
          ExpsRange(c, pr);
          Add(c, s, c.exps[pr])
  }

  /** `lagrange(at, x, y)`, with the inner loop's `break` once `at` is another abscissa. */
  method Lagrange(c: Config, at: nat, xs: seq<nat>, ys: seq<nat>) returns (sum: nat)
    requires Nodes(c, xs, ys) && at < c.size
    ensures sum == LagrangeSum(c, at, xs, ys, |xs|)
    ensures IsField(c) ==> sum == LagSum(c, xs, ys, at, |xs|)
  {
    var n := |xs|;
    sum := 0;
    var i := 0;
    while i < n
      invariant 0 <= i <= n
      invariant sum == LagrangeSum(c, at, xs, ys, i)
    {
      if ys[i] != 0 {
        var product := PointProduct(c, at, xs, i, ys[i]);
        if product != -1 {
          ExpsRange(c, product);
          sum := Add(c, sum, c.exps[product]);
        }
      }
      i := i + 1;
    }
    if IsField(c) {
      LagrangeIsLagSum(c, at, xs, ys, n);
    }
  }

  /**
   * The inner loop of `lagrange` for point `i`: the logarithm of its term,
   * or -1 once `at` turns out to be another abscissa.
   */
  method PointProduct(c: Config, at: nat, xs: seq<nat>, i: nat, y: nat) returns (product: int)
    requires Valid(c) && InField(c, xs) && Distinct(xs) && i < |xs| && 1 <= y < c.size && at < c.size
    ensures product == Product(c, at, xs, i, y, |xs|)
  {
    var n := |xs|;
    product := Log(c, y);
    var j := 0;
    while j < n
      invariant 0 <= j <= n
      invariant product != -1 && product == Product(c, at, xs, i, y, j)
    {
      if i != j {
        if at == xs[j] {
          product := -1;
          ProductSticky(c, at, xs, i, y, j + 1, n);
          return;
        }
        product := (product + Log(c, Add(c, at, xs[j])) - Log(c, Gap(c, xs, i, j)) + c.max) % c.max;
      }
      j := j + 1;
    }
  }

  /** Once the product is -1 it stays -1. */
  lemma {:induction false} ProductSticky(c: Config, at: nat, xs: seq<nat>, i: nat, y: nat, j: nat, n: nat)
    requires Valid(c) && InField(c, xs) && Distinct(xs) && i < |xs| && 1 <= y < c.size
    requires at < c.size && j <= n <= |xs|
    requires Product(c, at, xs, i, y, j) == -1
    ensures Product(c, at, xs, i, y, n) == -1
    decreases n - j
  {
    if j < n {
      ProductSticky(c, at, xs, i, y, j + 1, n);
    }
  }

  // ---------------------------------------------------------------------
  // The source's interpolation is Lagrange's

  /** A table power with exponent in `0..max` is `exps` read directly. */
  lemma ExpsIsExp(c: Config, k: nat)
    requires IsField(c) && k <= c.max
    ensures c.exps[k] == Exp(c, k)
  {
    if k == c.max {
      WrapAround(c);
      Entry(c, 0);
      DivModUnique(k, c.max, 1, 0);
    } else {
      DivModUnique(k, c.max, 0, k);
    }
  }

  /**
   * One step of the product in log space is one factor of the basis product:
   * adding `logs[w] - logs[g]` multiplies by `w / g`.
   */
  lemma ProductStep(c: Config, pr: nat, y: nat, b: nat, w: nat, g: nat)
    requires IsField(c) && pr <= c.max && 1 <= y < c.size && b < c.size
    requires 1 <= w < c.size && 1 <= g < c.size
    requires c.exps[pr] == Mul(c, y, b)
    ensures c.exps[(pr + Log(c, w) - Log(c, g) + c.max) % c.max] == Mul(c, y, Mul(c, b, Mul(c, w, Inv(c, g))))
  {
    var la, lg: int := Log(c, w), Log(c, g);
    var t := pr + la - lg;
    ModShift(t, c.max, 1);
    assert t + c.max * 1 == pr + la - lg + c.max;
    ExpsIsExp(c, pr);
    ExpMul(c, pr, la - lg);
    assert pr + (la - lg) == t;
    ExpMul(c, la, -lg);
    assert la + -lg == la - lg;
    ExpOfLog(c, w);
    MulAssoc(c, y, b, Mul(c, w, Inv(c, g)));
  }

  /**
   * The product in log space tracks `y` times the basis product: it is -1
   * exactly when the basis product is 0 (`at` is another abscissa), and
   * otherwise `exps[product]` is `y * Basis`.
   */
  lemma {:induction false} ProductIsBasis(c: Config, at: nat, xs: seq<nat>, i: nat, y: nat, j: nat)
    requires IsField(c) && InField(c, xs) && Distinct(xs) && i < |xs| && 1 <= y < c.size
    requires at < c.size && j <= |xs|
    ensures Product(c, at, xs, i, y, j) == -1 <==> Basis(c, xs, i, at, j) == 0
    ensures Product(c, at, xs, i, y, j) != -1 ==>
      c.exps[Product(c, at, xs, i, y, j)] == Mul(c, y, Basis(c, xs, i, at, j))
  {
    if j == 0 {
      ExpOfLog(c, y);
      ExpsIsExp(c, Log(c, y));
      MulOne(c, y);
    } else {
      ProductIsBasis(c, at, xs, i, y, j - 1);
      ProductBasisStep(c, at, xs, i, y, j);
    }
  }

  /** One more abscissa keeps the product and the basis product in step. */
  lemma ProductBasisStep(c: Config, at: nat, xs: seq<nat>, i: nat, y: nat, j: nat)
    requires IsField(c) && InField(c, xs) && Distinct(xs) && i < |xs| && 1 <= y < c.size
    requires at < c.size && 0 < j <= |xs|
    requires Product(c, at, xs, i, y, j - 1) == -1 <==> Basis(c, xs, i, at, j - 1) == 0
    requires Product(c, at, xs, i, y, j - 1) != -1 ==>
      c.exps[Product(c, at, xs, i, y, j - 1)] == Mul(c, y, Basis(c, xs, i, at, j - 1))
    ensures Product(c, at, xs, i, y, j) == -1 <==> Basis(c, xs, i, at, j) == 0
    ensures Product(c, at, xs, i, y, j) != -1 ==>
      c.exps[Product(c, at, xs, i, y, j)] == Mul(c, y, Basis(c, xs, i, at, j))
  {
    var pr := Product(c, at, xs, i, y, j - 1);
    if pr != -1 && j - 1 != i && at != xs[j - 1] {
      ProductMoves(c, at, xs, i, y, j);
    }
  }

  /** Past another abscissa that is not `at`, the product moves by that factor's logarithm. */
  lemma ProductMoves(c: Config, at: nat, xs: seq<nat>, i: nat, y: nat, j: nat)
    requires IsField(c) && InField(c, xs) && Distinct(xs) && i < |xs| && 1 <= y < c.size
    requires at < c.size && 0 < j <= |xs| && j - 1 != i && at != xs[j - 1]
    requires Product(c, at, xs, i, y, j - 1) != -1
    requires c.exps[Product(c, at, xs, i, y, j - 1)] == Mul(c, y, Basis(c, xs, i, at, j - 1))
    ensures Product(c, at, xs, i, y, j) != -1 && Basis(c, xs, i, at, j) != 0
    ensures c.exps[Product(c, at, xs, i, y, j)] == Mul(c, y, Basis(c, xs, i, at, j))
  {
    var pr := Product(c, at, xs, i, y, j - 1);
    var b := Basis(c, xs, i, at, j - 1);
    var w, g := Add(c, at, xs[j - 1]), Gap(c, xs, i, j - 1);
    assert Basis(c, xs, i, at, j) == Mul(c, b, Mul(c, w, Inv(c, g)));
    ProductStep(c, pr, y, b, w, g);
    var next := (pr + Log(c, w) - Log(c, g) + c.max) % c.max;
    assert Product(c, at, xs, i, y, j) == next;
    ExpsRange(c, next);
  }

  /** Point `j`'s contribution to the source's sum is its Lagrange term. */
  lemma LagrangeTerm(c: Config, at: nat, xs: seq<nat>, ys: seq<nat>, j: nat)
    requires IsField(c) && Nodes(c, xs, ys) && at < c.size && j < |xs|
    requires LagrangeSum(c, at, xs, ys, j) == LagSum(c, xs, ys, at, j)
    ensures LagrangeSum(c, at, xs, ys, j + 1) == LagSum(c, xs, ys, at, j + 1)
  {
    var s := LagSum(c, xs, ys, at, j);
    var y := ys[j];
    var b := Basis(c, xs, j, at, |xs|);
    var pr := if y == 0 then -1 else Product(c, at, xs, j, y, |xs|);
    if y != 0 {
      ProductFacts(c, at, xs, j, y, pr, b);
    }
    if pr != -1 {
      ExpsRange(c, pr);
    }
    LagSumStep(c, xs, ys, at, j);
    assert LagrangeSum(c, at, xs, ys, j + 1) == if pr == -1 then s else Add(c, s, c.exps[pr]);
    TermMatches(c, s, y, pr, b);
  }

  /** `ProductIsBasis` over all the abscissas, with the logarithm and the basis value as plain values. */
  lemma ProductFacts(c: Config, at: nat, xs: seq<nat>, i: nat, y: nat, pr: int, b: nat)
    requires IsField(c) && InField(c, xs) && Distinct(xs) && i < |xs| && 1 <= y < c.size && at < c.size
    requires pr == Product(c, at, xs, i, y, |xs|) && b == Basis(c, xs, i, at, |xs|)
    ensures pr == -1 <==> b == 0
    ensures pr != -1 ==> 0 <= pr < c.size && c.exps[pr] == Mul(c, y, b)
  {
    ProductIsBasis(c, at, xs, i, y, |xs|);
  }

  /** A skipped term is a zero term, and a kept one is `y` times the basis value. */
  lemma TermMatches(c: Config, s: nat, y: nat, pr: int, b: nat)
    requires Valid(c) && s < c.size && y < c.size && b < c.size && -1 <= pr <= c.max
    requires y == 0 ==> pr == -1
    requires y != 0 ==> (pr == -1 <==> b == 0) && (pr != -1 ==> c.exps[pr] == Mul(c, y, b))
    ensures (if pr == -1 then s else Add(c, s, c.exps[pr])) == Add(c, s, Mul(c, y, b))
  {
    if pr == -1 {
      AddZero(c, s);
    }
  }

  /** The source's sum over the first `k` points is the Lagrange sum. */
  lemma {:induction false} LagrangeIsLagSum(c: Config, at: nat, xs: seq<nat>, ys: seq<nat>, k: nat)
    requires IsField(c) && Nodes(c, xs, ys) && at < c.size && k <= |xs|
    ensures LagrangeSum(c, at, xs, ys, k) == LagSum(c, xs, ys, at, k)
  {
    if k > 0 {
      var j: nat := k - 1;
      LagrangeIsLagSum(c, at, xs, ys, j);
      LagrangeTerm(c, at, xs, ys, j);
    }
  }

  /**
   * `lagrange(at, x, y)` on points of a polynomial with no more coefficients
   * than points is the polynomial's value at `at`.
   */
  lemma LagrangeEvaluates(c: Config, p: seq<nat>, xs: seq<nat>, ys: seq<nat>, at: nat)
    requires IsField(c) && Nodes(c, xs, ys) && InField(c, p) && |p| <= |xs| && at < c.size
    requires forall k :: 0 <= k < |xs| ==> ys[k] == Eval(c, p, xs[k])
    ensures LagrangeSum(c, at, xs, ys, |xs|) == Eval(c, p, at)
  {
    LagrangeIsLagSum(c, at, xs, ys, |xs|);
    Interpolate(c, p, xs, ys, at);
  }

  /**
   * The property the scheme exists for: `lagrange(0, x, y)` on at least
   * `threshold` points with distinct ids, all on the share polynomial,
   * returns its constant coefficient, the secret.
   */
  lemma RecoverSecret(c: Config, secret: nat, draws: seq<nat>, xs: seq<nat>, ys: seq<nat>)
    requires IsField(c) && secret < c.size && InField(c, draws) && Nodes(c, xs, ys)
    requires |draws| + 1 <= |xs|
    requires forall k :: 0 <= k < |xs| ==> ys[k] == Eval(c, [secret] + draws, xs[k])
    ensures LagrangeSum(c, 0, xs, ys, |xs|) == secret
  {
    LagrangeEvaluates(c, [secret] + draws, xs, ys, 0);
    EvalZero(c, [secret] + draws);
  }

  /**
   * Any `threshold` or more distinct shares out of those `_getShares`
   * produced give back the secret: `sel` lists the positions of the shares
   * used, in any order, and `xs`, `ys` are their ids and values.
   */
  lemma ThresholdRecovers(c: Config, secret: nat, draws: seq<nat>, shares: seq<Point>,
                          sel: seq<nat>, xs: seq<nat>, ys: seq<nat>)
    requires IsField(c) && secret < c.size && InField(c, draws) && |shares| <= c.max
    requires forall i :: 0 <= i < |shares| ==> shares[i] == Point(i + 1, Eval(c, [secret] + draws, i + 1))
    requires Distinct(sel) && |draws| + 1 <= |sel|
    requires |xs| == |sel| && |ys| == |sel|
    requires forall k :: 0 <= k < |sel| ==> sel[k] < |shares| && xs[k] == shares[sel[k]].x && ys[k] == shares[sel[k]].y
    ensures Nodes(c, xs, ys) && LagrangeSum(c, 0, xs, ys, |xs|) == secret
  {
    assert forall k :: 0 <= k < |sel| ==> xs[k] == sel[k] + 1;
    RecoverSecret(c, secret, draws, xs, ys);
  }
}
