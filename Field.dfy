/**
 * The Galois field GF(2^bits) as `init` builds it (src/js/shamir39.js:330-354):
 * `exps[i]` is the i-th power of the generator, obtained by repeated doubling
 * reduced by the primitive polynomial for `bits`, and `logs` inverts it.
 */
module Field {
  import opened Wrappers
  import opened NatBits

  const MinBits: nat := 3
  const MaxBits: nat := 20
  /** The width used when `init` is called without one. */
  const DefaultBits: nat := 8

  /**
   * Primitive polynomials for GF(2^n) in decimal form, without their x^n term,
   * indexed by n. Entries 0 and 1 are null in the source and never read.
   */
  const PrimitivePolynomials: seq<nat> :=
    [0, 0, 1, 3, 3, 5, 3, 3, 29, 17, 9, 5, 83, 27, 43, 3, 45, 9, 39, 39, 9, 5, 3, 33, 27, 9, 71, 39, 9, 5, 83]

  predicate ValidBits(bits: nat)
  {
    MinBits <= bits <= MaxBits
  }

  /**
   * An admissible reduction polynomial for GF(2^bits), without its x^bits
   * term: odd (its constant term is 1) and below 2^bits.
   */
  predicate Reducer(bits: nat, p: nat)
  {
    ValidBits(bits) && p % 2 == 1 && p < Pow2(bits)
  }

  /** The reduction polynomial `init` picks for `bits`. */
  function Polynomial(bits: nat): (p: nat)
    requires ValidBits(bits)
    ensures Reducer(bits, p)
  {
    var p := PrimitivePolynomials[bits];
    if bits < 7 then
      assert p in [3, 5];
      assert Pow2(3) == 8;
      Pow2Monotone(3, bits);
      p
    else
      assert p in [3, 5, 9, 17, 27, 29, 39, 43, 45, 83];
      assert Pow2(7) == 128;
      Pow2Monotone(7, bits);
      p
  }

  /** `max`, the largest element of GF(2^bits) and the order of its multiplicative group. */
  function Max(bits: nat): (m: nat)
    requires ValidBits(bits)
    ensures m >= 7 && m + 1 == Pow2(bits)
  {
    assert Pow2(3) == 8;
    Pow2Monotone(3, bits);
    Pow2(bits) - 1
  }

  /** One pass of the table loop as written: `x <<= 1`, then on overflow `x ^= primitive; x &= max`. */
  function Step(bits: nat, p: nat, x: nat): nat
    requires Reducer(bits, p)
  {
    var y := 2 * x;
    if y >= Pow2(bits) then And(Xor(y, p), Pow2(bits) - 1) else y
  }

  /**
   * Multiplication by the generator in GF(2^bits): doubling, and on overflow
   * replacing the carried-out digit by the polynomial's low terms.
   */
  function Double(bits: nat, p: nat, x: nat): nat
    requires Reducer(bits, p)
  {
    if 2 * x < Pow2(bits) then 2 * x else Xor(2 * x - Pow2(bits), p)
  }

  /** `k` multiplications by the generator starting from `x`. */
  function StepN(bits: nat, p: nat, k: nat, x: nat): nat
    requires Reducer(bits, p)
  {
    if k == 0 then x else Double(bits, p, StepN(bits, p, k - 1, x))
  }

  /** The value of `x` when the table loop starts pass `i`, which it stores in `exps[i]`. */
  function Power(bits: nat, p: nat, i: nat): nat
    requires Reducer(bits, p)
  {
    StepN(bits, p, i, 1)
  }

  /**
   * `logs[v]` after the first `k` passes of the table loop: the last pass
   * whose value was `v`, or 0 (an entry never written) when there was none.
   */
  function LastPass(bits: nat, p: nat, v: nat, k: nat): nat
    requires Reducer(bits, p)
  {
    if k == 0 then 0 else if Power(bits, p, k - 1) == v then k - 1 else LastPass(bits, p, v, k - 1)
  }

  /** The field settings `init` stores in `config`: width, size, largest element and tables. */
  datatype Config = Config(bits: nat, poly: nat, size: nat, max: nat, exps: seq<nat>, logs: seq<nat>)

  /** The settings `init(bits)` produces for a valid width. */
  function Tables(bits: nat, p: nat): (c: Config)
    requires Reducer(bits, p)
    ensures c.bits == bits && c.poly == p && c.size == Pow2(bits) && c.max == c.size - 1
    ensures |c.exps| == c.size && |c.logs| == c.size
  {
    var size := Pow2(bits);
    Config(bits, p, size, size - 1, seq(size, i requires 0 <= i => Power(bits, p, i)), seq(size, v requires 0 <= v => LastPass(bits, p, v, size)))
  }

  /** The first `n` entries of both tables hold what the loop of `init` leaves there. */
  predicate Filled(c: Config, n: nat)
    requires Reducer(c.bits, c.poly) && n <= |c.exps| && n <= |c.logs|
  {
    n == 0 ||
    (Filled(c, n - 1) && c.exps[n - 1] == Power(c.bits, c.poly, n - 1)
     && c.logs[n - 1] == LastPass(c.bits, c.poly, n - 1, c.size))
  }

  /** A settings record that `init` could have produced (see `ValidIsTables`). */
  predicate Valid(c: Config)
  {
    Reducer(c.bits, c.poly) && c.size == Pow2(c.bits) && c.max == c.size - 1
    && |c.exps| == c.size && |c.logs| == c.size && Filled(c, c.size)
  }

  lemma {:induction false} FilledEntry(c: Config, n: nat, i: nat)
    requires Reducer(c.bits, c.poly) && n <= |c.exps| && n <= |c.logs| && Filled(c, n) && i < n
    ensures c.exps[i] == Power(c.bits, c.poly, i) && c.logs[i] == LastPass(c.bits, c.poly, i, c.size)
  {
    if i < n - 1 {
      FilledEntry(c, n - 1, i);
    }
  }

  /** Entry `i` of each table. */
  lemma Entry(c: Config, i: nat)
    requires Valid(c) && i < c.size
    ensures c.exps[i] == Power(c.bits, c.poly, i) && c.logs[i] == LastPass(c.bits, c.poly, i, c.size)
  {
    FilledEntry(c, c.size, i);
  }

  lemma {:induction false} FilledAll(c: Config, n: nat)
    requires Reducer(c.bits, c.poly) && n <= |c.exps| && n <= |c.logs|
    requires forall i :: 0 <= i < n ==> c.exps[i] == Power(c.bits, c.poly, i)
    requires forall i :: 0 <= i < n ==> c.logs[i] == LastPass(c.bits, c.poly, i, c.size)
    ensures Filled(c, n)
  {
    if n > 0 {
      FilledAll(c, n - 1);
    }
  }

  /** The valid settings are exactly the tables `init` builds. */
  lemma ValidIsTables(c: Config)
    ensures Valid(c) <==> Reducer(c.bits, c.poly) && c == Tables(c.bits, c.poly)
  {
    if Valid(c) {
      var t := Tables(c.bits, c.poly);
      forall i | 0 <= i < c.size
        ensures c.exps[i] == t.exps[i] && c.logs[i] == t.logs[i]
      {
        Entry(c, i);
      }
      assert c.exps == t.exps;
      assert c.logs == t.logs;
    }
    if Reducer(c.bits, c.poly) && c == Tables(c.bits, c.poly) {
      FilledAll(c, c.size);
    }
  }

  /**
   * `init(bits)`: a width of 0 stands for "not supplied" and selects the
   * default; any other width outside 3..20 is an error.
   */
  method Init(bits: nat) returns (r: Result<Config, string>)
    ensures bits != 0 && !ValidBits(bits) ==> r.Err?
    ensures bits == 0 ==> r == Ok(Tables(DefaultBits, Polynomial(DefaultBits)))
    ensures ValidBits(bits) ==> r == Ok(Tables(bits, Polynomial(bits)))
    ensures r.Ok? ==> Valid(r.value)
  {
    if bits != 0 && !ValidBits(bits) {
      return Err("Number of bits must be an integer between 3 and 20, inclusive.");
    }
    var b := if bits == 0 then DefaultBits else bits;
    var primitive := Polynomial(b);
    var c := BuildTables(b, primitive);
    ValidIsTables(c);
    return Ok(c);
  }

  /** The table loop of `init`: pass `i` stores `x` in `exps[i]` and `i` in `logs[x]`. */
  method BuildTables(b: nat, p: nat) returns (c: Config)
    requires Reducer(b, p)
    ensures c == Tables(b, p)
  {
    var size := Pow2(b);
    var max := size - 1;
    var exps := new nat[size](_ => 0);
    var logs := new nat[size](_ => 0);
    var x := 1;
    var i := 0;
    while i < size
      invariant 0 <= i <= size
      invariant x == Power(b, p, i)
      invariant forall k :: 0 <= k < i ==> exps[k] == Power(b, p, k)
      invariant forall v :: 0 <= v < size ==> logs[v] == LastPass(b, p, v, i)
    {
      PowerRange(b, p, i);
      exps[i] := x;
      logs[x] := i;
      StepIsDouble(b, p, x);
      x := Step(b, p, x);
      i := i + 1;
    }
    TablesFilled(b, p, exps[..], logs[..]);
    c := Config(b, p, size, max, exps[..], logs[..]);
  }

  /** Arrays filled as the loop of `init` fills them are the tables. */
  lemma TablesFilled(bits: nat, p: nat, exps: seq<nat>, logs: seq<nat>)
    requires Reducer(bits, p) && |exps| == Pow2(bits) && |logs| == Pow2(bits)
    requires forall k :: 0 <= k < Pow2(bits) ==> exps[k] == Power(bits, p, k)
    requires forall v :: 0 <= v < Pow2(bits) ==> logs[v] == LastPass(bits, p, v, Pow2(bits))
    ensures Config(bits, p, Pow2(bits), Max(bits), exps, logs) == Tables(bits, p)
  {
  }

  // ---------------------------------------------------------------------
  // One pass of the loop

  /** The loop's shift and reduction multiply by the generator: the mask clears exactly the carried-out digit. */
  lemma StepIsDouble(bits: nat, p: nat, x: nat)
    requires Reducer(bits, p) && x < Pow2(bits)
    ensures Step(bits, p, x) == Double(bits, p, x)
  {
    if 2 * x >= Pow2(bits) {
      OverflowReduce(2 * x, p, bits);
    }
  }

  /** Clearing digit `n` of an overflowed value: `(y ^ p) & (2^n - 1)` for `2^n <= y < 2^(n+1)`. */
  lemma OverflowReduce(y: nat, p: nat, n: nat)
    requires Pow2(n) <= y < 2 * Pow2(n) && p < Pow2(n)
    ensures And(Xor(y, p), Pow2(n) - 1) == Xor(y - Pow2(n), p)
  {
    var l := y - Pow2(n);
    CarryOut(y, p, l, n);
    XorBound(l, p, n);
    AndLow(Xor(y, p), Xor(l, p), n);
  }

  lemma AndLow(v: nat, low: nat, n: nat)
    requires v == Pow2(n) + low && low < Pow2(n)
    ensures And(v, Pow2(n) - 1) == low
  {
    AndMask(low, n);
  }

  lemma DoubleRange(bits: nat, p: nat, x: nat)
    requires Reducer(bits, p) && x < Pow2(bits)
    ensures Double(bits, p, x) < Pow2(bits)
  {
    if 2 * x >= Pow2(bits) {
      XorBound(2 * x - Pow2(bits), p, bits);
    }
  }

  /** Doubling maps nonzero elements to nonzero elements and zero to zero. */
  lemma DoubleNonzero(bits: nat, p: nat, x: nat)
    requires Reducer(bits, p) && x < Pow2(bits)
    ensures Double(bits, p, x) == 0 <==> x == 0
  {
    DoubleRange(bits, p, x);
    if 2 * x >= Pow2(bits) {
      assert Pow2(bits) == 2 * Pow2(bits - 1);
      EvenXorOdd(2 * x, Pow2(bits), Pow2(bits - 1), p);
    }
  }

  lemma EvenXorOdd(y: nat, size: nat, half: nat, p: nat)
    requires size == 2 * half && y >= size && y % 2 == 0 && p % 2 == 1
    ensures Xor(y - size, p) != 0
  {
    XorDigits(y - size, p);
  }

  /** Doubling is linear over GF(2): it commutes with exclusive or. */
  lemma DoubleLinear(bits: nat, p: nat, a: nat, b: nat)
    requires Reducer(bits, p) && a < Pow2(bits) && b < Pow2(bits)
    ensures Double(bits, p, Xor(a, b)) == Xor(Double(bits, p, a), Double(bits, p, b))
  {
    var size := Pow2(bits);
    if 2 * a < size && 2 * b < size {
      XorDouble(a, b);
      XorBound(2 * a, 2 * b, bits);
      DoubleNoOverflow(bits, p, Xor(a, b));
      DoubleNoOverflow(bits, p, a);
      DoubleNoOverflow(bits, p, b);
    } else if 2 * a >= size && 2 * b < size {
      LinearOneCarry(bits, p, a, b);
    } else if 2 * a < size {
      LinearOneCarry(bits, p, b, a);
      XorComm(a, b);
      XorComm(Double(bits, p, a), Double(bits, p, b));
    } else {
      LinearTwoCarries(bits, p, a, b);
    }
  }

  lemma LinearOneCarry(bits: nat, p: nat, a: nat, b: nat)
    requires Reducer(bits, p) && a < Pow2(bits) && b < Pow2(bits)
    requires 2 * a >= Pow2(bits) && 2 * b < Pow2(bits)
    ensures Double(bits, p, Xor(a, b)) == Xor(Double(bits, p, a), Double(bits, p, b))
  {
    var la := 2 * a - Pow2(bits);
    var m := Xor(la, 2 * b);
    XorDouble(a, b);
    CarryOut(2 * a, 2 * b, la, bits);
    DoubleOverflow(bits, p, Xor(a, b), m);
    DoubleOverflow(bits, p, a, la);
    XorRegroup(la, 2 * b, p);
  }

  lemma DoubleOverflow(bits: nat, p: nat, x: nat, m: nat)
    requires Reducer(bits, p) && 2 * x == Pow2(bits) + m
    ensures Double(bits, p, x) == Xor(m, p)
  {
  }

  /** Exclusive or of a value with a carry into digit `n` and one without. */
  lemma CarryOut(a: nat, b: nat, la: nat, n: nat)
    requires a == Pow2(n) + la && la < Pow2(n) && b < Pow2(n)
    ensures Xor(a, b) == Pow2(n) + Xor(la, b)
  {
    XorSplit(a, b, 1, la, 0, b, n);
    XorZero(1);
  }

  lemma XorRegroup(a: nat, b: nat, p: nat)
    ensures Xor(Xor(a, b), p) == Xor(Xor(a, p), b)
  {
    XorAssoc(a, b, p);
    XorComm(b, p);
    XorAssoc(a, p, b);
  }

  lemma LinearTwoCarries(bits: nat, p: nat, a: nat, b: nat)
    requires Reducer(bits, p) && a < Pow2(bits) && b < Pow2(bits)
    requires 2 * a >= Pow2(bits) && 2 * b >= Pow2(bits)
    ensures Double(bits, p, Xor(a, b)) == Xor(Double(bits, p, a), Double(bits, p, b))
  {
    var la, lb := 2 * a - Pow2(bits), 2 * b - Pow2(bits);
    XorDouble(a, b);
    CarryBoth(2 * a, 2 * b, la, lb, bits);
    XorBound(la, lb, bits);
    DoubleNoOverflow(bits, p, Xor(a, b));
    DoubleOverflow(bits, p, a, la);
    DoubleOverflow(bits, p, b, lb);
    XorMiddle(la, p, lb, p);
    XorSelf(p);
    XorZero(Xor(la, lb));
  }

  lemma DoubleNoOverflow(bits: nat, p: nat, x: nat)
    requires Reducer(bits, p) && 2 * x < Pow2(bits)
    ensures Double(bits, p, x) == 2 * x
  {
  }

  /** Exclusive or of two values that both carry into digit `n`. */
  lemma CarryBoth(a: nat, b: nat, la: nat, lb: nat, n: nat)
    requires a == Pow2(n) + la && b == Pow2(n) + lb && la < Pow2(n) && lb < Pow2(n)
    ensures Xor(a, b) == Xor(la, lb)
  {
    XorSplit(a, b, 1, la, 1, lb, n);
    XorSelf(1);
  }

  /** Doubling is one to one. */
  lemma DoubleInjective(bits: nat, p: nat, a: nat, b: nat)
    requires Reducer(bits, p) && a < Pow2(bits) && b < Pow2(bits)
    requires Double(bits, p, a) == Double(bits, p, b)
    ensures a == b
  {
    DoubleLinear(bits, p, a, b);
    XorSelf(Double(bits, p, a));
    XorBound(a, b, bits);
    DoubleNonzero(bits, p, Xor(a, b));
    XorZeroIff(a, b);
  }

  lemma {:induction false} StepNRange(bits: nat, p: nat, k: nat, x: nat)
    requires Reducer(bits, p) && x < Pow2(bits)
    ensures StepN(bits, p, k, x) < Pow2(bits)
    ensures StepN(bits, p, k, x) == 0 <==> x == 0
  {
    if k > 0 {
      StepNRange(bits, p, k - 1, x);
      DoubleRange(bits, p, StepN(bits, p, k - 1, x));
      DoubleNonzero(bits, p, StepN(bits, p, k - 1, x));
    }
  }

  lemma {:induction false} StepNLinear(bits: nat, p: nat, k: nat, a: nat, b: nat)
    requires Reducer(bits, p) && a < Pow2(bits) && b < Pow2(bits)
    ensures StepN(bits, p, k, Xor(a, b)) == Xor(StepN(bits, p, k, a), StepN(bits, p, k, b))
  {
    if k > 0 {
      var j: nat := k - 1;
      var sa, sb := StepN(bits, p, j, a), StepN(bits, p, j, b);
      StepNLinear(bits, p, j, a, b);
      StepNRange(bits, p, j, a);
      StepNRange(bits, p, j, b);
      DoubleLinear(bits, p, sa, sb);
      assert StepN(bits, p, k, Xor(a, b)) == Double(bits, p, Xor(sa, sb));
    }
  }

  lemma {:induction false} StepNAdd(bits: nat, p: nat, m: nat, n: nat, x: nat)
    requires Reducer(bits, p)
    ensures StepN(bits, p, m + n, x) == StepN(bits, p, m, StepN(bits, p, n, x))
  {
    if m > 0 {
      StepNAdd(bits, p, m - 1, n, x);
    }
  }

  /** Every table entry lies in 1..max. */
  lemma PowerRange(bits: nat, p: nat, i: nat)
    requires Reducer(bits, p)
    ensures 1 <= Power(bits, p, i) < Pow2(bits)
  {
    StepNRange(bits, p, i, 1);
  }

  // ---------------------------------------------------------------------
  // Primitivity

  /**
   * The polynomial for `bits` is primitive: the first `max` powers of the
   * generator are pairwise distinct.
   */
  predicate Primitive(bits: nat, p: nat)
    requires Reducer(bits, p)
  {
    forall i, j :: 0 <= i < j < Max(bits) ==> Power(bits, p, i) != Power(bits, p, j)
  }

  /** The polynomial for three bits, x^3 + x + 1, is primitive. */
  lemma PrimitiveThree()
    ensures Primitive(3, 3)
  {
    assert Pow2(3) == 8;
    assert Double(3, 3, 1) == 2;
    assert Double(3, 3, 2) == 4;
    assert Double(3, 3, 4) == 3 by {
      assert Xor(0, 3) == 3;
    }
    assert Double(3, 3, 3) == 6;
    assert Double(3, 3, 6) == 7 by {
      assert Xor(4, 3) == 7;
    }
    assert Double(3, 3, 7) == 5 by {
      assert Xor(6, 3) == 5;
    }
    assert Power(3, 3, 0) == 1;
    assert Power(3, 3, 1) == 2;
    assert Power(3, 3, 2) == 4;
    assert Power(3, 3, 3) == 3;
    assert Power(3, 3, 4) == 6;
    assert Power(3, 3, 5) == 7;
    assert Power(3, 3, 6) == 5;
  }

  function PowersBelow(bits: nat, p: nat, k: nat): set<nat>
    requires Reducer(bits, p)
  {
    set i | 0 <= i < k :: Power(bits, p, i)
  }

  function Range(lo: nat, hi: nat): set<nat>
    decreases hi - lo
  {
    if lo < hi then {lo} + Range(lo + 1, hi) else {}
  }

  lemma {:induction false} RangeMembers(lo: nat, hi: nat, v: nat)
    ensures v in Range(lo, hi) <==> lo <= v < hi
    decreases hi - lo
  {
    if lo < hi {
      RangeMembers(lo + 1, hi, v);
    }
  }

  lemma {:induction false} PowersBelowCard(bits: nat, p: nat, k: nat)
    requires Reducer(bits, p) && Primitive(bits, p) && k <= Max(bits)
    ensures |PowersBelow(bits, p, k)| == k
  {
    if k > 0 {
      PowersBelowCard(bits, p, k - 1);
      assert PowersBelow(bits, p, k) == PowersBelow(bits, p, k - 1) + {Power(bits, p, k - 1)};
      assert Power(bits, p, k - 1) !in PowersBelow(bits, p, k - 1);
    }
  }

  lemma {:induction false} RangeCard(lo: nat, hi: nat)
    requires lo <= hi
    ensures |Range(lo, hi)| == hi - lo
    decreases hi - lo
  {
    if lo < hi {
      RangeCard(lo + 1, hi);
      RangeMembers(lo + 1, hi, lo);
    }
  }

  lemma {:induction false} SubsetCard<T>(a: set<T>, b: set<T>)
    requires a <= b && |a| == |b|
    ensures a == b
  {
    if a != {} {
      var x :| x in a;
      SubsetCard(a - {x}, b - {x});
    }
  }

  /** With a primitive polynomial every nonzero element is a power of the generator. */
  lemma PowerSurjective(bits: nat, p: nat, v: nat)
    requires Reducer(bits, p) && Primitive(bits, p) && 1 <= v < Pow2(bits)
    ensures exists i :: 0 <= i < Max(bits) && Power(bits, p, i) == v
  {
    var max := Max(bits);
    PowersBelowCard(bits, p, max);
    RangeCard(1, Pow2(bits));
    forall u | u in PowersBelow(bits, p, max)
      ensures u in Range(1, Pow2(bits))
    {
      var i :| 0 <= i < max && u == Power(bits, p, i);
      PowerRange(bits, p, i);
      RangeMembers(1, Pow2(bits), u);
    }
    RangeMembers(1, Pow2(bits), v);
    SubsetCard(PowersBelow(bits, p, max), Range(1, Pow2(bits)));
    assert v in PowersBelow(bits, p, max);
  }

  /** The loop's last pass meets 1 again: the generator has order `max`. */
  lemma PowerMax(bits: nat, p: nat)
    requires Reducer(bits, p) && Primitive(bits, p)
    ensures Power(bits, p, Max(bits)) == 1
  {
    var max := Max(bits);
    PowerRange(bits, p, max);
    PowerSurjective(bits, p, Power(bits, p, max));
    var j :| 0 <= j < max && Power(bits, p, j) == Power(bits, p, max);
    if j > 0 {
      PowerNoEarlyReturn(bits, p, j);
    }
  }

  /** No pass strictly between the first and the `max`-th meets the `max`-th value. */
  lemma PowerNoEarlyReturn(bits: nat, p: nat, j: nat)
    requires Reducer(bits, p) && Primitive(bits, p) && 0 < j < Max(bits)
    ensures Power(bits, p, j) != Power(bits, p, Max(bits))
  {
    var max := Max(bits);
    var u, w := Power(bits, p, j - 1), Power(bits, p, max - 1);
    assert u != w;
    PowerRange(bits, p, j - 1);
    PowerRange(bits, p, max - 1);
    assert Power(bits, p, j) == Double(bits, p, u);
    assert Power(bits, p, max) == Double(bits, p, w);
    if Double(bits, p, u) == Double(bits, p, w) {
      DoubleInjective(bits, p, u, w);
      assert false;
    }
  }

  /** Multiplying `max` times by the generator is the identity. */
  lemma StepNMax(bits: nat, p: nat, x: nat)
    requires Reducer(bits, p) && Primitive(bits, p) && x < Pow2(bits)
    ensures StepN(bits, p, Max(bits), x) == x
  {
    var max := Max(bits);
    if x == 0 {
      StepNRange(bits, p, max, 0);
    } else {
      PowerSurjective(bits, p, x);
      var j :| 0 <= j < max && Power(bits, p, j) == x;
      StepNAdd(bits, p, max, j, 1);
      StepNAdd(bits, p, j, max, 1);
      PowerMax(bits, p);
    }
  }

  /** Powers of the generator repeat with period `max`. */
  lemma StepNMod(bits: nat, p: nat, k: nat, x: nat)
    requires Reducer(bits, p) && Primitive(bits, p) && x < Pow2(bits)
    ensures StepN(bits, p, k, x) == StepN(bits, p, k % Max(bits), x)
    decreases k
  {
    var max := Max(bits);
    if k >= max {
      var k' := k - max;
      StepNAdd(bits, p, k', max, x);
      assert k' + max == k;
      StepNMax(bits, p, x);
      StepNMod(bits, p, k', x);
      ModSub(k, max);
    } else {
      DivModUnique(k, max, 0, k);
    }
  }

  /** Exponents congruent modulo `max` act alike. */
  lemma StepNCongruent(bits: nat, p: nat, i: nat, j: nat, x: nat)
    requires Reducer(bits, p) && Primitive(bits, p) && x < Pow2(bits)
    requires i % Max(bits) == j % Max(bits)
    ensures StepN(bits, p, i, x) == StepN(bits, p, j, x)
  {
    StepNMod(bits, p, i, x);
    StepNMod(bits, p, j, x);
  }

  // ---------------------------------------------------------------------
  // The logs table

  /** The entry `logs[v]` the loop leaves is a pass that produced `v`, if any did. */
  lemma {:induction false} LastPassFound(bits: nat, p: nat, v: nat, k: nat, j: nat)
    requires Reducer(bits, p) && j < k && Power(bits, p, j) == v
    ensures j <= LastPass(bits, p, v, k) < k && Power(bits, p, LastPass(bits, p, v, k)) == v
  {
    if Power(bits, p, k - 1) != v {
      LastPassFound(bits, p, v, k - 1, j);
    }
  }

  /** An entry of `logs` is 0 or a pass number. */
  lemma {:induction false} LastPassBound(bits: nat, p: nat, v: nat, k: nat)
    requires Reducer(bits, p)
    ensures LastPass(bits, p, v, k) == 0 || LastPass(bits, p, v, k) < k
  {
    if k > 0 && Power(bits, p, k - 1) != v {
      LastPassBound(bits, p, v, k - 1);
    }
  }

  /** Before the wrap-around pass, the entry is the unique pass that produced `v`. */
  lemma {:induction false} LastPassUnique(bits: nat, p: nat, v: nat, k: nat, j: nat)
    requires Reducer(bits, p) && Primitive(bits, p)
    requires j < k <= Max(bits) && Power(bits, p, j) == v
    ensures LastPass(bits, p, v, k) == j
  {
    if k - 1 != j {
      LastPassUnique(bits, p, v, k - 1, j);
    }
  }

  /** Every table value lies in 1..max. */
  lemma ExpsRange(c: Config, i: nat)
    requires Valid(c) && i < c.size
    ensures 1 <= c.exps[i] <= c.max
  {
    Entry(c, i);
    PowerRange(c.bits, c.poly, i);
  }

  /** `exps[logs[x]] == x` for every nonzero element, and `logs[x]` is at most `max`. */
  lemma ExpLog(c: Config, x: nat)
    requires Valid(c) && Primitive(c.bits, c.poly) && 1 <= x <= c.max
    ensures c.logs[x] <= c.max && c.exps[c.logs[x]] == x
  {
    PowerSurjective(c.bits, c.poly, x);
    var j :| 0 <= j < c.max && Power(c.bits, c.poly, j) == x;
    LastPassFound(c.bits, c.poly, x, c.size, j);
    Entry(c, x);
    Entry(c, c.logs[x]);
  }

  /** `logs[exps[i]] == i` for 1 <= i < max. */
  lemma LogExp(c: Config, i: nat)
    requires Valid(c) && Primitive(c.bits, c.poly) && 1 <= i < c.max
    ensures c.exps[i] < c.size && c.logs[c.exps[i]] == i
  {
    var v := Power(c.bits, c.poly, i);
    PowerRange(c.bits, c.poly, i);
    PowerMax(c.bits, c.poly);
    assert Power(c.bits, c.poly, c.max) != v by {
      assert Power(c.bits, c.poly, 0) == 1;
    }
    LastPassUnique(c.bits, c.poly, v, c.max, i);
    Entry(c, i);
    Entry(c, v);
  }

  /** The loop runs `size` times, so the wrap-around pass stores `exps[max] == 1` and `logs[1] == max`. */
  lemma WrapAround(c: Config)
    requires Valid(c) && Primitive(c.bits, c.poly)
    ensures c.exps[c.max] == 1 && c.logs[1] == c.max
  {
    PowerMax(c.bits, c.poly);
    Entry(c, c.max);
    Entry(c, 1);
  }
}
