/**
 * The bit-string codec: binary digit strings, left padding, conversion
 * between numbers, binary strings and hexadecimal strings, and the
 * right-to-left chunker that cuts a binary string into field elements
 * (src/js/shamir39.js, `lpad`, `padLeft`, `hex2bin`, `bin2hex`, `split`).
 */
module Bits {
  import opened Wrappers
  import opened NatBits

  /** A string of binary digits, most significant first; `true` is the digit '1'. */
  type Bits = seq<bool>

  function Zeros(n: nat): (z: Bits)
    ensures |z| == n && forall i :: 0 <= i < n ==> !z[i]
  {
    seq(n, _ => false)
  }

  /** The number a binary string denotes; `parseInt(s, 2)` for a nonempty `s`. */
  function Value(s: Bits): nat
  {
    if s == [] then 0 else 2 * Value(s[..|s| - 1]) + (if s[|s| - 1] then 1 else 0)
  }

  /** `parseInt(s, 2)`, which is NaN (here `None`) on the empty string. */
  function ParseBinary(s: Bits): Option<nat>
  {
    if s == [] then None else Some(Value(s))
  }

  /** The `n`-digit binary form of `v` (of `v` modulo 2^n when `v` does not fit). */
  function ToBits(v: nat, n: nat): (s: Bits)
    ensures |s| == n
  {
    if n == 0 then [] else ToBits(v / 2, n - 1) + [v % 2 == 1]
  }

  /** `v.toString(2)`: the shortest binary form of `v`, which is "0" for zero. */
  function Binary(v: nat): (s: Bits)
    ensures |s| >= 1
  {
    if v < 2 then [v == 1] else Binary(v / 2) + [v % 2 == 1]
  }

  /** The value of `lpad(s, n)`: zeros in front of `s` up to length `n`. */
  function LeftPad(s: Bits, n: nat): Bits
  {
    if |s| < n then Zeros(n - |s|) + s else s
  }

  /** `lpad(s, n)`: prepend zeros one at a time while `s` is shorter than `n`. */
  method Lpad(s: Bits, n: nat) returns (r: Bits)
    ensures |r| == if |s| < n then n else |s|
    ensures r == Zeros(|r| - |s|) + s
    ensures r == LeftPad(s, n)
  {
    r := s;
    while |r| < n
      invariant |s| <= |r| <= if |s| < n then n else |s|
      invariant r == Zeros(|r| - |s|) + s
      decreases n - |r|
    {
      assert [false] + r == Zeros(|r| + 1 - |s|) + s;
      r := [false] + r;
    }
    assert Zeros(0) + s == s;
  }

  /**
   * `padLeft(s, b)`: the fewest zeros (fewer than `b`) in front of `s` that
   * make its length a multiple of `b`.
   */
  function PadLeft(s: Bits, b: nat): (r: Bits)
    requires b >= 1
    ensures |r| % b == 0
    ensures |s| <= |r| < |s| + b
  {
    var missing := |s| % b;
    if missing != 0 then
      PadLength(|s|, b);
      Zeros(b - missing) + s
    else
      s
  }

  /** The padding `padLeft` adds is all zeros. */
  lemma PadLeftZeros(s: Bits, b: nat)
    requires b >= 1
    ensures PadLeft(s, b) == Zeros(|PadLeft(s, b)| - |s|) + s
  {
    if |s| % b == 0 {
      assert Zeros(0) + s == s;
    }
  }

  lemma PadLength(n: nat, b: nat)
    requires b >= 1 && n % b != 0
    ensures (n + (b - n % b)) % b == 0
  {
    var q := n / b;
    assert n + (b - n % b) == b * (q + 1);
    DivModUnique(n + (b - n % b), b, q + 1, 0);
  }

  /** `Math.ceil(n / b) * b`: the least multiple of `b` that is at least `n`. */
  function CeilMul(n: nat, b: nat): nat
    requires b >= 1
  {
    ((n + b - 1) / b) * b
  }

  /** `lpad(s, Math.ceil(|s| / b) * b)` pads exactly as `padLeft(s, b)` does. */
  lemma LpadIsPadLeft(s: Bits, b: nat)
    requires b >= 1
    ensures |s| <= CeilMul(|s|, b) == |PadLeft(s, b)|
    ensures LeftPad(s, CeilMul(|s|, b)) == PadLeft(s, b)
  {
    var q, r := |s| / b, |s| % b;
    assert |s| == b * q + r;
    if r == 0 {
      DivModUnique(|s| + b - 1, b, q, b - 1);
      assert CeilMul(|s|, b) == q * b;
    } else {
      DivModUnique(|s| + b - 1, b, q + 1, r - 1);
      assert CeilMul(|s|, b) == (q + 1) * b == |s| + (b - r);
    }
  }

  // ---------------------------------------------------------------------
  // Facts about values of binary strings

  lemma {:induction false} ValueBound(s: Bits)
    ensures Value(s) < Pow2(|s|)
  {
    if s != [] {
      ValueBound(s[..|s| - 1]);
    }
  }

  lemma {:induction false} ValueZeros(n: nat)
    ensures Value(Zeros(n)) == 0
  {
    if n > 0 {
      assert Zeros(n)[..n - 1] == Zeros(n - 1);
      ValueZeros(n - 1);
    }
  }

  /** The value of a concatenation: the left part is shifted by the right part's width. */
  lemma {:induction false} ValueConcat(a: Bits, b: Bits)
    ensures Value(a + b) == Value(a) * Pow2(|b|) + Value(b)
    decreases |b|
  {
    if b == [] {
      assert a + b == a;
    } else {
      var c := a + b;
      assert c[..|c| - 1] == a + b[..|b| - 1];
      ValueConcat(a, b[..|b| - 1]);
      MulTwice(Value(a), Pow2(|b| - 1), Pow2(|b|));
    }
  }

  /** Leading zeros do not change the value of a binary string. */
  lemma LeadingZeros(n: nat, s: Bits)
    ensures Value(Zeros(n) + s) == Value(s)
  {
    ValueConcat(Zeros(n), s);
    ValueZeros(n);
  }

  /** `ToBits` inverts `Value` on numbers that fit. */
  lemma {:induction false} ValueOfToBits(v: nat, n: nat)
    requires v < Pow2(n)
    ensures Value(ToBits(v, n)) == v
  {
    if n > 0 {
      ValueOfToBits(v / 2, n - 1);
      var s := ToBits(v, n);
      assert s[..n - 1] == ToBits(v / 2, n - 1);
    }
  }

  /** `Value` inverts `ToBits`: a binary string is its own value written in its own width. */
  lemma {:induction false} ToBitsOfValue(s: Bits)
    ensures ToBits(Value(s), |s|) == s
  {
    if s != [] {
      var n := |s|;
      ToBitsOfValue(s[..n - 1]);
      var v := Value(s);
      assert v / 2 == Value(s[..n - 1]);
      assert s == s[..n - 1] + [s[n - 1]];
    }
  }

  /** Writing a number in a wider field only adds zeros in front. */
  lemma {:induction false} ToBitsWiden(v: nat, m: nat, n: nat)
    requires m <= n && v < Pow2(m)
    ensures ToBits(v, n) == Zeros(n - m) + ToBits(v, m)
    decreases n
  {
    if n == m {
    } else if m == 0 {
      assert v == 0;
      ToBitsZero(n);
    } else {
      ToBitsWiden(v / 2, m - 1, n - 1);
      assert Zeros(n - m) + ToBits(v / 2, m - 1) + [v % 2 == 1] == Zeros(n - m) + ToBits(v, m);
    }
  }

  lemma {:induction false} ToBitsZero(n: nat)
    ensures ToBits(0, n) == Zeros(n)
  {
    if n > 0 {
      ToBitsZero(n - 1);
      assert Zeros(n - 1) + [false] == Zeros(n);
    }
  }

  /** `v.toString(2)` is `v` written in exactly its own width, with no leading zero. */
  lemma {:induction false} BinaryIsToBits(v: nat)
    ensures v < Pow2(|Binary(v)|)
    ensures Binary(v) == ToBits(v, |Binary(v)|)
    ensures |Binary(v)| > 1 ==> Pow2(|Binary(v)| - 1) <= v
  {
    if v >= 2 {
      BinaryIsToBits(v / 2);
    }
  }

  /** `lpad(v.toString(2), n)` is the `n`-digit form of `v` whenever `v` fits in `n` digits. */
  lemma LpadBinary(v: nat, n: nat)
    requires n >= 1 && v < Pow2(n)
    ensures LeftPad(Binary(v), n) == ToBits(v, n)
  {
    var m := |Binary(v)|;
    BinaryFits(v, n);
    ToBitsWiden(v, m, n);
  }

  /** A number below 2^n needs at most `n` binary digits. */
  lemma BinaryFits(v: nat, n: nat)
    requires n >= 1 && v < Pow2(n)
    ensures |Binary(v)| <= n
    ensures Binary(v) == ToBits(v, |Binary(v)|) && v < Pow2(|Binary(v)|)
  {
    var m := |Binary(v)|;
    BinaryIsToBits(v);
    if m > 1 {
      Pow2Order(m - 1, n);
    }
  }

  /** Only a smaller exponent gives a smaller power. */
  lemma Pow2Order(a: nat, b: nat)
    ensures Pow2(a) < Pow2(b) ==> a < b
  {
    if b <= a {
      Pow2Monotone(b, a);
    }
  }

  /** `padLeft(v.toString(2), n)` is the `n`-digit form of `v` whenever `v` fits in `n` digits. */
  lemma PadLeftBinary(v: nat, n: nat)
    requires n >= 1 && v < Pow2(n)
    ensures PadLeft(Binary(v), n) == ToBits(v, n)
  {
    var m := |Binary(v)|;
    BinaryFits(v, n);
    ToBitsWiden(v, m, n);
    var r := PadLeft(Binary(v), n);
    MultipleBetween(|r|, n);
  }

  /** The only multiple of `n` in `1..2n-1` is `n`. */
  lemma MultipleBetween(x: nat, n: nat)
    requires n >= 1 && x % n == 0 && 1 <= x < 2 * n
    ensures x == n
  {
    if x < n {
      DivModUnique(x, n, 0, x);
    } else {
      DivModUnique(x, n, 1, x - n);
    }
  }

  lemma ValueOfBinary(v: nat)
    ensures Value(Binary(v)) == v
  {
    BinaryIsToBits(v);
    ValueOfToBits(v, |Binary(v)|);
  }

  // ---------------------------------------------------------------------
  // Hexadecimal strings

  /** `parseInt(c, 16)` of one character: NaN (here `None`) unless it is a hex digit. */
  function HexDigitValue(c: char): (d: Option<nat>)
    ensures d.Some? ==> d.value < 16
  {
    if '0' <= c <= '9' then Some(c as nat - '0' as nat)
    else if 'a' <= c <= 'f' then Some(c as nat - 'a' as nat + 10)
    else if 'A' <= c <= 'F' then Some(c as nat - 'A' as nat + 10)
    else None
  }

  /** `v.toString(16)` of one hex digit, lower case. */
  function HexChar(v: nat): (c: char)
    requires v < 16
    ensures HexDigitValue(c) == Some(v)
  {
    if v < 10 then ('0' as int + v) as char else ('a' as int + v - 10) as char
  }

  predicate IsLowerHex(h: string)
  {
    forall i :: 0 <= i < |h| ==> '0' <= h[i] <= '9' || 'a' <= h[i] <= 'f'
  }

  /** The value of `hex2bin(h)`: four digits per hex character, or a failure on a non-hex character. */
  function HexToBits(h: string): (r: Option<Bits>)
    ensures r.Some? <==> forall i :: 0 <= i < |h| ==> HexDigitValue(h[i]).Some?
    ensures r.Some? ==> |r.value| == 4 * |h|
  {
    if h == [] then Some([])
    else
      var rest := HexToBits(h[1..]);
      assert forall i :: 1 <= i < |h| ==> h[i] == h[1..][i - 1];
      match HexDigitValue(h[0])
      case None => None
      case Some(d) => if rest.None? then None else Some(ToBits(d, 4) + rest.value)
  }

  /** What `hex2bin` throws on a character that is not a hex digit. */
  const HexError := "Invalid hex character."

  /** `hex2bin(h)`: from the last character to the first, prepend each digit's four bits. */
  method Hex2Bin(h: string) returns (r: Option<Bits>)
    ensures r == HexToBits(h)
  {
    var bin: Bits := [];
    var i := |h|;
    while i > 0
      invariant 0 <= i <= |h|
      invariant HexToBits(h[i..]) == Some(bin)
    {
      var num := HexDigitValue(h[i - 1]);
      if num.None? {
        return None;
      }
      PadLeftBinary(num.value, 4);
      bin := PadLeft(Binary(num.value), 4) + bin;
      assert h[i - 1..][1..] == h[i..];
      i := i - 1;
    }
    assert h[0..] == h;
    return Some(bin);
  }

  /** One hex character per four digits of a string whose length is a multiple of four. */
  function NibblesToHex(t: Bits): (h: string)
    requires |t| % 4 == 0
    ensures |h| == |t| / 4
    ensures IsLowerHex(h)
  {
    if t == [] then []
    else
      ValueBound(t[..4]);
      [HexChar(Value(t[..4]))] + NibblesToHex(t[4..])
  }

  /** The value of `bin2hex(s)`: left-pad to a multiple of four digits, then one hex character per four. */
  function BitsToHex(s: Bits): (h: string)
  {
    NibblesToHex(PadLeft(s, 4))
  }

  /** Hex digits of two strings of whole hex digits are the first's followed by the second's. */
  lemma {:induction false} NibblesAppend(a: Bits, b: Bits)
    requires |a| % 4 == 0 && |b| % 4 == 0
    ensures NibblesToHex(a + b) == NibblesToHex(a) + NibblesToHex(b)
    decreases |a|
  {
    if a != [] {
      NibblesAppend(a[4..], b);
      assert (a + b)[..4] == a[..4] && (a + b)[4..] == a[4..] + b;
    } else {
      assert a + b == b;
    }
  }

  /** `j` hex digits '0'. */
  function ZeroDigits(j: nat): (h: string)
    ensures |h| == j && forall i :: 0 <= i < j ==> h[i] == '0'
  {
    seq(j, _ => '0')
  }

  /** Whole hex digits of zeros in front of whole hex digits are written as '0' digits in front. */
  lemma {:induction false} ZeroDigitsHex(j: nat, a: Bits)
    requires |a| % 4 == 0
    ensures BitsToHex(Zeros(4 * j) + a) == ZeroDigits(j) + BitsToHex(a)
    decreases j
  {
    if j > 0 {
      ZeroDigitsHex(j - 1, a);
      var w' := Zeros(4 * (j - 1)) + a;
      assert Zeros(4 * j) + a == Zeros(4) + w';
      ZeroNibbleFront(w');
      assert ZeroDigits(j) == ['0'] + ZeroDigits(j - 1);
    } else {
      assert Zeros(4 * j) + a == a;
    }
  }

  /** Four zeros in front of whole hex digits are written as one '0' in front. */
  lemma ZeroNibbleFront(w: Bits)
    requires |w| % 4 == 0
    ensures BitsToHex(Zeros(4) + w) == ['0'] + BitsToHex(w)
  {
    var v := Zeros(4) + w;
    assert PadLeft(w, 4) == w;
    assert PadLeft(v, 4) == v;
    assert v[..4] == Zeros(4) && v[4..] == w;
    ValueZeros(4);
    assert NibblesToHex(v) == [HexChar(0)] + NibblesToHex(w);
  }

  /** `bin2hex(s)`: left-pad to whole groups of four digits, then write them in hex. */
  method Bin2Hex(s: Bits) returns (hex: string)
    ensures hex == BitsToHex(s)
  {
    var t := PadLeft(s, 4);
    hex := NibblesFromRight(t);
  }

  /** The loop of `bin2hex`: from the right, prepend the hex character of each group of four digits. */
  method NibblesFromRight(t: Bits) returns (hex: string)
    requires |t| % 4 == 0
    ensures hex == NibblesToHex(t)
  {
    hex := "";
    var i := |t|;
    while i >= 4
      invariant 0 <= i <= |t| && i % 4 == 0 && (|t| - i) % 4 == 0
      invariant hex == NibblesToHex(t[i..])
    {
      var num := Value(t[i - 4..i]);
      NibblesStep(t, i);
      hex := [HexChar(num)] + hex;
      i := i - 4;
    }
    assert t[0..] == t;
  }

  /** The hex form of a suffix starts with the character of its first four digits. */
  lemma NibblesStep(t: Bits, i: nat)
    requires 4 <= i <= |t| && (|t| - i) % 4 == 0
    ensures (|t| - (i - 4)) % 4 == 0 && (i % 4 == 0 ==> (i - 4) % 4 == 0) && Value(t[i - 4..i]) < 16
    ensures NibblesToHex(t[i - 4..]) == [HexChar(Value(t[i - 4..i]))] + NibblesToHex(t[i..])
  {
    ValueBound(t[i - 4..i]);
    SliceParts(t, i - 4, i);
  }

  /** A suffix cut at `j` splits into the slice up to `j` and the suffix from `j`. */
  lemma SliceParts<T>(t: seq<T>, i: nat, j: nat)
    requires i <= j <= |t|
    ensures t[i..][..j - i] == t[i..j] && t[i..][j - i..] == t[j..]
  {
  }

  lemma {:induction false} NibblesRoundTrip(t: Bits)
    requires |t| % 4 == 0
    ensures HexToBits(NibblesToHex(t)) == Some(t)
    decreases |t|
  {
    if t != [] {
      NibblesRoundTrip(t[4..]);
      var h := NibblesToHex(t);
      assert h[1..] == NibblesToHex(t[4..]);
      ValueBound(t[..4]);
      ToBitsOfValue(t[..4]);
      assert t == t[..4] + t[4..];
    }
  }

  /** `hex2bin(bin2hex(s))` gives back `s`, left-padded to a multiple of four digits. */
  lemma BinHexRoundTrip(s: Bits)
    ensures HexToBits(BitsToHex(s)) == Some(PadLeft(s, 4))
    ensures |s| % 4 == 0 ==> HexToBits(BitsToHex(s)) == Some(s)
  {
    NibblesRoundTrip(PadLeft(s, 4));
  }

  /** `h` is hex that `bin2hex` writes: it reads as bits, and those are written back as `h`. */
  predicate WrittenHex(h: string)
  {
    HexToBits(h).Some? && BitsToHex(HexToBits(h).value) == h
  }

  /** `bin2hex(hex2bin(h))` gives back a lower-case hex string `h`. */
  lemma HexBinRoundTrip(h: string)
    requires IsLowerHex(h)
    ensures HexToBits(h).Some? && BitsToHex(HexToBits(h).value) == h
    ensures WrittenHex(h)
  {
    NibblesOfHex(h);
    var t := HexToBits(h).value;
    assert PadLeft(t, 4) == t;
  }

  lemma {:induction false} NibblesOfHex(h: string)
    requires IsLowerHex(h)
    ensures HexToBits(h).Some? && NibblesToHex(HexToBits(h).value) == h
    decreases |h|
  {
    if h != [] {
      assert IsLowerHex(h[1..]);
      NibblesOfHex(h[1..]);
      var d := HexDigitValue(h[0]).value;
      var rest := HexToBits(h[1..]).value;
      assert HexToBits(h).value == ToBits(d, 4) + rest;
      NibblesCons(d, rest);
      HexCharOfDigit(h[0]);
      assert [h[0]] + h[1..] == h;
    }
  }

  /** A lower-case hex digit is the character of its own value. */
  lemma HexCharOfDigit(c: char)
    requires '0' <= c <= '9' || 'a' <= c <= 'f'
    ensures HexDigitValue(c).Some? && HexChar(HexDigitValue(c).value) == c
  {
  }

  /** The first four digits become the first hex character. */
  lemma NibblesCons(d: nat, rest: Bits)
    requires d < 16 && |rest| % 4 == 0
    ensures NibblesToHex(ToBits(d, 4) + rest) == [HexChar(d)] + NibblesToHex(rest)
  {
    var t := ToBits(d, 4) + rest;
    assert t[..4] == ToBits(d, 4) && t[4..] == rest;
    ValueOfToBits(d, 4);
  }

  // ---------------------------------------------------------------------
  // The chunker

  /**
   * The value of `split(s)` with `bits`-digit chunks: chunk 0 is the
   * rightmost `bits` digits, and the leftover prefix (1 to `bits` digits)
   * is the last chunk.
   */
  function Chunks(s: Bits, bits: nat): (parts: seq<nat>)
    requires bits >= 1 && |s| >= 1
    ensures |parts| >= 1
    ensures forall k :: 0 <= k < |parts| ==> parts[k] < Pow2(bits)
    decreases |s|
  {
    if |s| <= bits then
      ValueBound(s);
      Pow2Monotone(|s|, bits);
      [Value(s)]
    else
      ValueBound(s[|s| - bits..]);
      [Value(s[|s| - bits..])] + Chunks(s[..|s| - bits], bits)
  }

  /** Chunks written back, most significant first, each in `bits` digits. */
  function Assemble(parts: seq<nat>, bits: nat): Bits
  {
    if parts == [] then [] else Assemble(parts[1..], bits) + ToBits(parts[0], bits)
  }

  /**
   * `split(s, padLength)`: optionally left-pad `s` to a multiple of
   * `padLength`, then cut `bits`-digit chunks off the right end while more
   * than `bits` digits are left, and finally take what is left.
   */
  method SplitChunks(s: Bits, padLength: nat, bits: nat) returns (parts: seq<nat>)
    requires bits >= 1 && |s| >= 1
    ensures parts == Chunks(if padLength > 0 then PadLeft(s, padLength) else s, bits)
  {
    var str := s;
    if padLength > 0 {
      str := PadLeft(s, padLength);
    }
    parts := ChunkFromRight(str, bits);
  }

  /** The loop of `split`: push the rightmost `bits` digits while more than `bits` are left, then the rest. */
  method ChunkFromRight(str: Bits, bits: nat) returns (parts: seq<nat>)
    requires bits >= 1 && |str| >= 1
    ensures parts == Chunks(str, bits)
  {
    parts := [];
    var i := |str|;
    assert str[..i] == str;
    while i > bits
      invariant 1 <= i <= |str|
      invariant parts + Chunks(str[..i], bits) == Chunks(str, bits)
    {
      ChunksStep(str, i, bits);
      parts := parts + [Value(str[i - bits..i])];
      i := i - bits;
    }
    parts := parts + [Value(str[..i])];
  }

  /** Chunking a prefix of `str` peels its last `bits` digits off first. */
  lemma ChunksStep(str: Bits, i: nat, bits: nat)
    requires 1 <= bits < i <= |str|
    ensures Chunks(str[..i], bits) == [Value(str[i - bits..i])] + Chunks(str[..i - bits], bits)
  {
    assert str[..i][i - bits..] == str[i - bits..i];
    assert str[..i][..i - bits] == str[..i - bits];
  }

  /** The chunks, written back in `bits` digits each, rebuild the left-padded input. */
  lemma {:induction false} ChunksAssemble(s: Bits, bits: nat)
    requires bits >= 1 && |s| >= 1
    ensures Assemble(Chunks(s, bits), bits) == PadLeft(s, bits)
    decreases |s|
  {
    if |s| <= bits {
      LastChunkAssemble(s, bits);
    } else {
      var hi, lo := s[..|s| - bits], s[|s| - bits..];
      ChunksAssemble(hi, bits);
      ChunksAssembleStep(s, bits);
      PadLeftSplit(hi, lo, bits);
      assert s == hi + lo;
    }
  }

  /** Assembling the chunks of `s` appends its last `bits` digits to the assembly of the rest. */
  lemma ChunksAssembleStep(s: Bits, bits: nat)
    requires 1 <= bits < |s|
    ensures Assemble(Chunks(s, bits), bits) == Assemble(Chunks(s[..|s| - bits], bits), bits) + s[|s| - bits..]
  {
    var n := |s|;
    var hi, lo := s[..n - bits], s[n - bits..];
    var rest := Chunks(hi, bits);
    assert |lo| == bits;
    calc {
      Assemble(Chunks(s, bits), bits);
      Assemble([Value(lo)] + rest, bits);
      { AssembleCons(Value(lo), rest, bits); }
      Assemble(rest, bits) + ToBits(Value(lo), bits);
      { ToBitsOfValue(lo); }
      Assemble(rest, bits) + lo;
    }
  }

  lemma AssembleCons(v: nat, rest: seq<nat>, bits: nat)
    ensures Assemble([v] + rest, bits) == Assemble(rest, bits) + ToBits(v, bits)
  {
    assert ([v] + rest)[1..] == rest;
  }

  lemma LastChunkAssemble(s: Bits, bits: nat)
    requires 1 <= |s| <= bits
    ensures Assemble(Chunks(s, bits), bits) == PadLeft(s, bits)
  {
    ToBitsOfValue(s);
    ValueBound(s);
    ToBitsWiden(Value(s), |s|, bits);
    assert Assemble(Chunks(s, bits), bits) == ToBits(Value(s), bits);
    MultipleBetween(|PadLeft(s, bits)|, bits);
  }

  /** Padding a string followed by a whole chunk pads the string alone. */
  lemma PadLeftSplit(hi: Bits, lo: Bits, bits: nat)
    requires bits >= 1 && |lo| == bits
    ensures PadLeft(hi + lo, bits) == PadLeft(hi, bits) + lo
  {
    ModSub(|hi| + bits, bits);
  }

  /** A chunk appended at the end of the list is written in front of the others. */
  lemma {:induction false} AssembleSnoc(parts: seq<nat>, v: nat, bits: nat)
    ensures Assemble(parts + [v], bits) == ToBits(v, bits) + Assemble(parts, bits)
    decreases |parts|
  {
    if parts != [] {
      assert (parts + [v])[1..] == parts[1..] + [v];
      AssembleSnoc(parts[1..], v, bits);
    }
  }

  /** The chunker reads back exactly the chunks a string was assembled from. */
  lemma {:induction false} ChunksOfAssemble(parts: seq<nat>, bits: nat)
    requires bits >= 1 && |parts| >= 1
    requires forall k :: 0 <= k < |parts| ==> parts[k] < Pow2(bits)
    ensures Chunks(Assemble(parts, bits), bits) == parts
    decreases |parts|
  {
    var s := Assemble(parts, bits);
    ValueOfToBits(parts[0], bits);
    if |parts| == 1 {
      assert s == ToBits(parts[0], bits) by {
        assert parts[1..] == [];
        assert Assemble([], bits) + ToBits(parts[0], bits) == ToBits(parts[0], bits);
      }
      assert Chunks(s, bits) == [Value(s)];
    } else {
      ChunksOfAssemble(parts[1..], bits);
      var rest := Assemble(parts[1..], bits);
      assert |rest| >= bits by {
        assert rest == Assemble(parts[2..], bits) + ToBits(parts[1], bits);
      }
      assert s == rest + ToBits(parts[0], bits);
      SplitAppend(rest, ToBits(parts[0], bits));
      assert Chunks(s, bits) == [Value(s[|s| - bits..])] + Chunks(s[..|s| - bits], bits);
    }
  }

  lemma {:induction false} AssembleLength(parts: seq<nat>, bits: nat)
    ensures |Assemble(parts, bits)| == |parts| * bits
    decreases |parts|
  {
    if parts != [] {
      AssembleLength(parts[1..], bits);
    }
  }

  /** As many chunks assemble to as many digits. */
  lemma {:induction false} AssembleSameLength(a: seq<nat>, b: seq<nat>, bits: nat)
    requires |a| == |b|
    ensures |Assemble(a, bits)| == |Assemble(b, bits)|
    decreases |a|
  {
    if a != [] {
      AssembleSameLength(a[1..], b[1..], bits);
    }
  }

  /** The chunker cuts a last whole chunk off first. */
  lemma ChunksPeel(rest: Bits, v: nat, bits: nat)
    requires bits >= 1 && |rest| >= 1 && v < Pow2(bits)
    ensures Chunks(rest + ToBits(v, bits), bits) == [v] + Chunks(rest, bits)
  {
    var t := ToBits(v, bits);
    ValueOfToBits(v, bits);
    SplitAppend(rest, t);
  }

  /** An appended tail is cut off again by its length. */
  lemma SplitAppend<T>(a: seq<T>, b: seq<T>)
    ensures (a + b)[|a + b| - |b|..] == b && (a + b)[..|a + b| - |b|] == a
  {
  }

  /** A prefix splits off its first part again. */
  lemma SplitFront<T>(a: seq<T>, b: seq<T>)
    ensures (a + b)[..|a|] == a && (a + b)[|a|..] == b
  {
  }

  /** A prefix one element longer ends in that element. */
  lemma PrefixSnoc<T>(s: seq<T>, i: nat)
    requires 0 < i <= |s|
    ensures s[..i] == s[..i - 1] + [s[i - 1]]
  {
  }

  /** A prefix grows by the slice that follows it. */
  lemma PrefixGrow<T>(s: seq<T>, a: nat, b: nat)
    requires a <= b <= |s|
    ensures s[..a] + s[a..b] == s[..b]
    ensures b == |s| ==> s[..b] == s
  {
  }

  lemma SeqAssoc<T>(a: seq<T>, b: seq<T>, d: seq<T>)
    ensures a + (b + d) == (a + b) + d
  {
  }

  lemma ZerosConcat(m: nat, n: nat)
    ensures Zeros(m) + Zeros(n) == Zeros(m + n)
  {
  }

  /** Zeros in front of whole chunks are cut into chunks of their own, after the others. */
  lemma {:induction false} ChunksZerosPrefix(z: nat, vs: seq<nat>, bits: nat)
    requires bits >= 1 && z >= 1
    requires forall k :: 0 <= k < |vs| ==> vs[k] < Pow2(bits)
    ensures Chunks(Zeros(z) + Assemble(vs, bits), bits) == vs + Chunks(Zeros(z), bits)
    decreases |vs|
  {
    if vs == [] {
      assert Zeros(z) + Assemble(vs, bits) == Zeros(z);
    } else {
      var rest := Zeros(z) + Assemble(vs[1..], bits);
      ChunksZerosPrefix(z, vs[1..], bits);
      ChunksConsStep(rest, bits, vs, Chunks(Zeros(z), bits));
      SeqAssoc(Zeros(z), Assemble(vs[1..], bits), ToBits(vs[0], bits));
    }
  }

  /** Chunks of `rest` followed by the chunks `zc`, then one more whole chunk at the end. */
  lemma ChunksConsStep(rest: Bits, bits: nat, vs: seq<nat>, zc: seq<nat>)
    requires bits >= 1 && |rest| >= 1 && vs != [] && vs[0] < Pow2(bits)
    requires Chunks(rest, bits) == vs[1..] + zc
    ensures Chunks(rest + ToBits(vs[0], bits), bits) == vs + zc
  {
    ChunksPeel(rest, vs[0], bits);
    ConsTail(vs, zc);
  }

  /** Putting the head back in front of the tail and a suffix gives the whole and the suffix. */
  lemma ConsTail<T>(vs: seq<T>, zc: seq<T>)
    requires vs != []
    ensures [vs[0]] + (vs[1..] + zc) == vs + zc
  {
    assert [vs[0]] + vs[1..] == vs;
  }

  /** A run of zeros is cut into zero chunks. */
  lemma {:induction false} ChunksOfZeros(z: nat, bits: nat)
    requires bits >= 1 && z >= 1
    ensures forall k :: 0 <= k < |Chunks(Zeros(z), bits)| ==> Chunks(Zeros(z), bits)[k] == 0
    decreases z
  {
    ValueZeros(bits);
    if z <= bits {
      ValueZeros(z);
    } else {
      assert Zeros(z)[z - bits..] == Zeros(bits);
      assert Zeros(z)[..z - bits] == Zeros(z - bits);
      ChunksOfZeros(z - bits, bits);
    }
  }

  /** Zero chunks assemble to zeros. */
  lemma {:induction false} AssembleZeros(zs: seq<nat>, bits: nat)
    requires forall k :: 0 <= k < |zs| ==> zs[k] == 0
    ensures Assemble(zs, bits) == Zeros(|zs| * bits)
    decreases |zs|
  {
    if zs != [] {
      AssembleZeros(zs[1..], bits);
      ToBitsZero(bits);
      assert Zeros((|zs| - 1) * bits) + Zeros(bits) == Zeros(|zs| * bits);
    }
  }

  /** Later chunks are written in front of earlier ones. */
  lemma {:induction false} AssembleAppend(a: seq<nat>, b: seq<nat>, bits: nat)
    ensures Assemble(a + b, bits) == Assemble(b, bits) + Assemble(a, bits)
    decreases |a|
  {
    if a != [] {
      calc {
        Assemble(a + b, bits);
        { assert (a + b)[1..] == a[1..] + b && (a + b)[0] == a[0]; }
        Assemble(a[1..] + b, bits) + ToBits(a[0], bits);
        { AssembleAppend(a[1..], b, bits); }
        Assemble(b, bits) + Assemble(a[1..], bits) + ToBits(a[0], bits);
        { SeqAssoc(Assemble(b, bits), Assemble(a[1..], bits), ToBits(a[0], bits)); }
        Assemble(b, bits) + (Assemble(a[1..], bits) + ToBits(a[0], bits));
        Assemble(b, bits) + Assemble(a, bits);
      }
    } else {
      assert a + b == b && Assemble(b, bits) + [] == Assemble(b, bits);
    }
  }

  /** The first '1' after a run of zeros is right behind it. */
  lemma IndexAfterZeros(w: nat, b: Bits)
    ensures IndexOfOne(Zeros(w) + [true] + b) == w
  {
    var s := Zeros(w) + [true] + b;
    assert s[w];
  }

  // ---------------------------------------------------------------------
  // JavaScript string operations used on binary strings

  function Clamp(i: int, len: nat): nat
  {
    if i < 0 then 0 else if i > len then len else i
  }

  /**
   * `s.substring(start, end)`: both ends clamped to `0..|s|` and swapped when
   * out of order.
   */
  function Substring<T>(s: seq<T>, start: int, end: int): (r: seq<T>)
  {
    var a, b := Clamp(start, |s|), Clamp(end, |s|);
    if a <= b then s[a..b] else s[b..a]
  }

  /** Within bounds and in order, `substring` is a slice. */
  lemma SubstringSlice<T>(s: seq<T>, start: int, end: int)
    requires 0 <= start <= end <= |s|
    ensures Substring(s, start, end) == s[start..end]
  {
  }

  /** `s.indexOf('1')`: the position of the first '1', or -1. */
  function IndexOfOne(s: Bits): (i: int)
    ensures -1 <= i < |s|
    ensures i >= 0 ==> s[i] && forall k :: 0 <= k < i ==> !s[k]
    ensures i == -1 ==> forall k :: 0 <= k < |s| ==> !s[k]
  {
    if s == [] then -1
    else if s[0] then 0
    else
      var j := IndexOfOne(s[1..]);
      if j == -1 then -1 else j + 1
  }
}
