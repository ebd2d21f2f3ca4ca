/**
 * Bitwise operators on natural numbers. JavaScript's `^`, `&` and `<<` work on
 * 32-bit integers; every operand in the modelled code is below 2^21, so they
 * agree with these definitions on unbounded naturals.
 */
module NatBits {

  function Pow2(n: nat): (p: nat)
    ensures p >= 1
  {
    if n == 0 then 1 else 2 * Pow2(n - 1)
  }

  /** Bitwise exclusive or: JavaScript's `a ^ b` for non-negative operands. */
  function Xor(a: nat, b: nat): nat
    decreases a + b
  {
    if a == 0 && b == 0 then 0 else 2 * Xor(a / 2, b / 2) + (a % 2 + b % 2) % 2
  }

  /** Bitwise and: JavaScript's `a & b` for non-negative operands. */
  function And(a: nat, b: nat): nat
    decreases a + b
  {
    if a == 0 && b == 0 then 0 else 2 * And(a / 2, b / 2) + (a % 2) * (b % 2)
  }

  lemma Pow2Add(m: nat, n: nat)
    ensures Pow2(m + n) == Pow2(m) * Pow2(n)
  {
    if m > 0 {
      Pow2Add(m - 1, n);
    }
  }

  lemma Pow2Monotone(m: nat, n: nat)
    requires m <= n
    ensures Pow2(m) <= Pow2(n)
  {
    if m < n {
      Pow2Monotone(m, n - 1);
    }
  }

  lemma XorZero(a: nat)
    ensures Xor(a, 0) == a && Xor(0, a) == a
    decreases a
  {
    if a != 0 {
      XorZero(a / 2);
    }
  }

  lemma XorComm(a: nat, b: nat)
    ensures Xor(a, b) == Xor(b, a)
    decreases a + b
  {
    if a != 0 || b != 0 {
      XorComm(a / 2, b / 2);
    }
  }

  lemma {:induction false} XorSelf(a: nat)
    ensures Xor(a, a) == 0
    decreases a
  {
    if a != 0 {
      XorSelf(a / 2);
    }
  }

  /** The lowest digit of `a ^ b` and the remaining digits. */
  lemma XorDigits(a: nat, b: nat)
    ensures Xor(a, b) % 2 == (a % 2 + b % 2) % 2
    ensures Xor(a, b) / 2 == Xor(a / 2, b / 2)
  {
  }

  lemma {:induction false} XorAssoc(a: nat, b: nat, c: nat)
    ensures Xor(Xor(a, b), c) == Xor(a, Xor(b, c))
    decreases a + b + c
  {
    if a == 0 || b == 0 || c == 0 {
      XorAssocZero(a, b, c);
    } else {
      XorAssoc(a / 2, b / 2, c / 2);
      XorAssocStep(a, b, c);
    }
  }

  /** Associativity when one operand is zero. */
  lemma XorAssocZero(a: nat, b: nat, c: nat)
    requires a == 0 || b == 0 || c == 0
    ensures Xor(Xor(a, b), c) == Xor(a, Xor(b, c))
  {
    if a == 0 {
      XorZero(b);
      XorZero(Xor(b, c));
    } else if b == 0 {
      XorZero(a);
      XorZero(c);
    } else {
      XorZero(Xor(a, b));
      XorZero(b);
    }
  }

  /** Associativity of the lowest digit, given it for the higher digits. */
  lemma {:induction false} XorAssocStep(a: nat, b: nat, c: nat)
    requires Xor(Xor(a / 2, b / 2), c / 2) == Xor(a / 2, Xor(b / 2, c / 2))
    ensures Xor(Xor(a, b), c) == Xor(a, Xor(b, c))
  {
    XorAssocLow(a, b, c);
    XorAssocHigh(a, b, c);
    SameDigits(Xor(Xor(a, b), c), Xor(a, Xor(b, c)));
  }

  /** Both groupings have the same last digit. */
  lemma {:induction false} XorAssocLow(a: nat, b: nat, c: nat)
    ensures Xor(Xor(a, b), c) % 2 == Xor(a, Xor(b, c)) % 2
  {
    var ab, bc := Xor(a, b), Xor(b, c);
    XorLow(a, b);
    XorLow(ab, c);
    XorLow(b, c);
    XorLow(a, bc);
    ParityChain(a, b, c, ab, bc, Xor(ab, c), Xor(a, bc));
  }

  /** Last digits of two groupings of three numbers agree, stated over plain values. */
  lemma ParityChain(a: nat, b: nat, c: nat, ab: nat, bc: nat, l: nat, r: nat)
    requires ab % 2 == (a % 2 + b % 2) % 2 && bc % 2 == (b % 2 + c % 2) % 2
    requires l % 2 == (ab % 2 + c % 2) % 2 && r % 2 == (a % 2 + bc % 2) % 2
    ensures l % 2 == r % 2
  {
    ParityAssoc(l % 2, r % 2, ab % 2, bc % 2, a % 2, b % 2, c % 2);
  }

  /** The last digit of an exclusive or. */
  lemma {:induction false} XorLow(a: nat, b: nat)
    ensures Xor(a, b) % 2 == (a % 2 + b % 2) % 2
  {
    XorDigits(a, b);
  }

  /** Both groupings have the same remaining digits, given associativity on them. */
  lemma {:induction false} XorAssocHigh(a: nat, b: nat, c: nat)
    requires Xor(Xor(a / 2, b / 2), c / 2) == Xor(a / 2, Xor(b / 2, c / 2))
    ensures Xor(Xor(a, b), c) / 2 == Xor(a, Xor(b, c)) / 2
  {
    var ab, bc := Xor(a, b), Xor(b, c);
    XorDigits(a, b);
    XorDigits(ab, c);
    XorDigits(b, c);
    XorDigits(a, bc);
  }

  /** Exclusive or commutes with doubling (a left shift by one). */
  lemma XorDouble(a: nat, b: nat)
    ensures Xor(2 * a, 2 * b) == 2 * Xor(a, b)
  {
    if a != 0 || b != 0 {
      assert (2 * a) / 2 == a && (2 * b) / 2 == b;
    }
  }

  /** Regrouping four operands of exclusive or. */
  lemma XorMiddle(a: nat, b: nat, c: nat, d: nat)
    ensures Xor(Xor(a, b), Xor(c, d)) == Xor(Xor(a, c), Xor(b, d))
  {
    XorAssoc(a, b, Xor(c, d));
    XorAssoc(b, c, d);
    XorComm(b, c);
    XorAssoc(c, b, d);
    XorAssoc(a, c, Xor(b, d));
  }

  lemma {:induction false} XorZeroIff(a: nat, b: nat)
    ensures Xor(a, b) == 0 <==> a == b
    decreases a + b
  {
    if a == b {
      XorSelf(a);
    } else if a != 0 || b != 0 {
      XorDigits(a, b);
      if a % 2 == b % 2 {
        XorZeroIff(a / 2, b / 2);
      }
    }
  }

  /** Exclusive or never sets a digit above the operands' width. */
  lemma {:induction false} XorBound(a: nat, b: nat, n: nat)
    requires a < Pow2(n) && b < Pow2(n)
    ensures Xor(a, b) < Pow2(n)
    decreases n
  {
    if n == 0 {
      assert a == 0 && b == 0;
    } else if a != 0 || b != 0 {
      XorBound(a / 2, b / 2, n - 1);
    }
  }

  /**
   * Exclusive or works digit by digit: splitting both operands at digit `n`
   * splits the result there too.
   */
  lemma {:induction false} XorSplit(a: nat, b: nat, ha: nat, la: nat, hb: nat, lb: nat, n: nat)
    requires la < Pow2(n) && lb < Pow2(n)
    requires a == ha * Pow2(n) + la && b == hb * Pow2(n) + lb
    ensures Xor(a, b) == Xor(ha, hb) * Pow2(n) + Xor(la, lb)
    decreases n
  {
    if n == 0 {
      assert Pow2(n) == 1 && la == 0 && lb == 0;
      XorZero(0);
      SplitBase(a, b, ha, hb, Xor(a, b), Xor(ha, hb), Xor(la, lb), Pow2(n));
    } else {
      var m: nat := n - 1;
      var p, q := Pow2(m), Pow2(n);
      assert q == 2 * p;
      HalfSplit(a, ha, la, p, q);
      HalfSplit(b, hb, lb, p, q);
      var a2, b2 := a / 2, b / 2;
      XorSplit(a2, b2, ha, la / 2, hb, lb / 2, m);
      XorDigits(a, b);
      XorDigits(la, lb);
      SplitArith(Xor(a, b), Xor(a2, b2), Xor(ha, hb), p, q, Xor(la / 2, lb / 2), Xor(la, lb), (la % 2 + lb % 2) % 2);
    }
  }

  /** The base case of `XorSplit`: with `q == 1` the high parts are the numbers themselves. */
  lemma SplitBase(a: nat, b: nat, ha: nat, hb: nat, v: nat, x: nat, l: nat, q: nat)
    requires q == 1 && a == ha * q && b == hb * q && l == 0 && (a == ha && b == hb ==> v == x)
    ensures v == x * q + l
  {
  }

  /** Halving `h * q + l` with `l < q == 2 * p` halves the low part and keeps its last digit. */
  lemma HalfSplit(a: nat, h: nat, l: nat, p: nat, q: nat)
    requires q == 2 * p && l < q && a == h * q + l
    ensures a / 2 == h * p + l / 2 && a % 2 == l % 2 && l / 2 < p
  {
    MulTwice(h, p, q);
  }

  lemma ParityAssoc(l: nat, r: nat, ab: nat, bc: nat, x: nat, y: nat, z: nat)
    requires x < 2 && y < 2 && z < 2
    requires ab == (x + y) % 2 && bc == (y + z) % 2
    requires l == (ab + z) % 2 && r == (x + bc) % 2
    ensures l == r
  {
  }

  /** Numbers with the same last binary digit and the same remaining digits are equal. */
  lemma SameDigits(l: nat, r: nat)
    requires l % 2 == r % 2 && l / 2 == r / 2
    ensures l == r
  {
  }

  lemma SplitArith(v: nat, v2: nat, x: nat, p: nat, q: nat, low: nat, l: nat, bit: nat)
    requires v == 2 * v2 + bit && v2 == x * p + low && l == 2 * low + bit && q == 2 * p
    ensures v == x * q + l
  {
  }

  lemma MulTwice(x: nat, p: nat, q: nat)
    requires q == 2 * p
    ensures x * q == 2 * (x * p)
  {
  }

  /** Division with remainder has one answer. */
  lemma DivModUnique(a: int, d: int, q: int, r: int)
    requires d > 0 && 0 <= r < d && a == d * q + r
    ensures a / d == q && a % d == r
  {
    var k := q - a / d;
    assert d * k == a % d - r;
    if k >= 1 {
      assert false;
    } else if k <= -1 {
      assert false;
    }
  }

  lemma ModSub(n: nat, b: nat)
    requires 1 <= b <= n
    ensures (n - b) % b == n % b
  {
    DivModUnique(n, b, (n - b) / b + 1, (n - b) % b);
  }

  lemma DivModTwo(a: nat, p: nat)
    requires p >= 1
    ensures a % (2 * p) == 2 * ((a / 2) % p) + a % 2
    ensures (a % (2 * p)) % 2 == a % 2 && (a % (2 * p)) / 2 == (a / 2) % p
  {
    var q := (a / 2) / p;
    var r := (a / 2) % p;
    assert a / 2 == p * q + r;
    assert a == (2 * p) * q + (2 * r + a % 2);
    DivModUnique(a, 2 * p, q, 2 * r + a % 2);
    DivModUnique(a % (2 * p), 2, r, a % 2);
  }

  lemma DivDivTwo(a: nat, p: nat)
    requires p >= 1
    ensures a / (2 * p) == (a / 2) / p
  {
    var q := (a / 2) / p;
    var r := (a / 2) % p;
    assert a / 2 == p * q + r;
    assert a == (2 * p) * q + (2 * r + a % 2);
    DivModUnique(a, 2 * p, q, 2 * r + a % 2);
  }

  /** Masking `2^n + l` with `2^n - 1` leaves the low part `l`. */
  lemma {:induction false} AndMask(l: nat, n: nat)
    requires l < Pow2(n)
    ensures And(Pow2(n) + l, Pow2(n) - 1) == l
    decreases n
  {
    if n == 0 {
      assert And(1, 0) == 2 * And(0, 0) + 0;
    } else {
      var q := Pow2(n - 1);
      assert Pow2(n) == 2 * q;
      var a, m := Pow2(n) + l, Pow2(n) - 1;
      HalveArith(q, l, a, m);
      assert And(a, m) == 2 * And(a / 2, m / 2) + (a % 2) * (m % 2);
      AndMask(l / 2, n - 1);
    }
  }

  lemma HalveArith(q: nat, l: nat, a: nat, m: nat)
    requires q >= 1 && l < 2 * q && a == 2 * q + l && m == 2 * q - 1
    ensures a / 2 == q + l / 2 && a % 2 == l % 2
    ensures m / 2 == q - 1 && m % 2 == 1
    ensures l / 2 < q && 2 * (l / 2) + l % 2 == l
  {
  }

  lemma {:induction false} AndZero(a: nat)
    ensures And(a, 0) == 0
    decreases a
  {
    if a != 0 {
      AndZero(a / 2);
    }
  }
}
