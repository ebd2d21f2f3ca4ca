/**
 * The passphrase's text codec (src/js/shamir39.js `encodeStr`, `decodeStr`,
 * `detectUTF16`, `isASCII`, `isCompatibleASCII`, `str2bin`, `bin2str`).
 * A text is written in 7 bits per character when that cannot be mistaken
 * for the UTF-16 byte order marker, and otherwise as the marker followed by
 * 16 bits per character.
 */
module TextCodec {
  import opened Wrappers
  import opened NatBits
  import opened Bits
  import opened FixedWidth

  /** A UTF-16 code unit, what `charCodeAt` returns. */
  type Unit = u: nat | u < 0x1_0000

  /** A JavaScript string: its UTF-16 code units. */
  type Text = seq<Unit>

  /** `MAX_BITS_PER_CHAR`: `str2bin` and `bin2str` accept up to 32 bits per character. */
  const MaxBitsPerChar := 32

  /** `BOM_BITS`: the binary forms of 0xFF and 0xFE, one after the other. */
  const BomBits: Bits := [true, true, true, true, true, true, true, true, true, true, true, true, true, true, true, false]

  /** `BOM_REV_BITS`: the binary forms of 0xFE and 0xFF, one after the other. */
  const BomRevBits: Bits := [true, true, true, true, true, true, true, false, true, true, true, true, true, true, true, true]

  const CorruptUtf16Error := "Corrupt UTF-16 content detected"
  const ReversedBomError := "Reversed UTF-16 byte order marker detected"
  const CorruptTextError := "Unable to decode corrupted text"
  const LengthError := "Binary string is not the expected length"
  const BitsPerCharError := "Bits per character must be an integer between 1 and 32, inclusive"
  const CharCodeError := "Invalid character code."

  lemma BinaryFF()
    ensures Binary(0xFF) == [true, true, true, true, true, true, true, true]
  {
  }

  lemma BinaryFE()
    ensures Binary(0xFE) == [true, true, true, true, true, true, true, false]
  {
  }

  /** The two markers are the byte order marker's bytes written with `toString(2)`, in both orders. */
  lemma MarkersFromBytes()
    ensures BomBits == Binary(0xFF) + Binary(0xFE)
    ensures BomRevBits == Binary(0xFE) + Binary(0xFF)
  {
    BinaryFF();
    BinaryFE();
  }

  /** `s.startsWith(prefix)`. */
  predicate StartsWith<T(==)>(s: seq<T>, prefix: seq<T>)
  {
    |prefix| <= |s| && s[..|prefix|] == prefix
  }

  /** `String.fromCharCode(v)`: the code unit `v` modulo 2^16. */
  function FromCharCode(v: nat): (u: Unit)
    ensures v < 0x1_0000 ==> u == v
  {
    v % 0x1_0000
  }

  /** Every code unit is in 0..127. */
  predicate AllAscii(str: Text)
  {
    forall i :: 0 <= i < |str| ==> str[i] <= 127
  }

  /** `isASCII(str)`: stop at the first code unit above 127. */
  method IsAscii(str: Text) returns (b: bool)
    ensures b <==> AllAscii(str)
  {
    var i := 0;
    while i < |str|
      invariant 0 <= i <= |str|
      invariant forall k :: 0 <= k < i ==> str[k] <= 127
    {
      if str[i] > 127 {
        return false;
      }
      i := i + 1;
    }
    return true;
  }

  /** The two characters the first fourteen bits of a 16-bit marker read as in 7-bit ASCII. */
  function Septets(marker: Bits): (t: Text)
    requires |marker| >= 14
    ensures |t| == 2
  {
    [FromCharCode(Value(marker[0..7])), FromCharCode(Value(marker[7..14]))]
  }

  /** The seven-digit code of DEL. */
  lemma Code127()
    ensures ToBits(127, 7) == [true, true, true, true, true, true, true]
  {
  }

  /** The seven-digit code of "?". */
  lemma Code63()
    ensures ToBits(63, 7) == [false, true, true, true, true, true, true]
  {
  }

  /** The seven-digit code of "`". */
  lemma Code96()
    ensures ToBits(96, 7) == [true, true, false, false, false, false, false]
  {
  }

  lemma BomSeptets()
    ensures Septets(BomBits) == [127, 127]
  {
    Code127();
    assert BomBits[0..7] == ToBits(127, 7);
    assert BomBits[7..14] == ToBits(127, 7);
    ValueOfToBits(127, 7);
  }

  lemma BomRevSeptets()
    ensures Septets(BomRevBits) == [127, 63]
  {
    Code127();
    Code63();
    assert BomRevBits[0..7] == ToBits(127, 7);
    assert BomRevBits[7..14] == ToBits(63, 7);
    ValueOfToBits(127, 7);
    ValueOfToBits(63, 7);
  }

  /**
   * `isCompatibleASCII(str)` as written: `bom_rev_asc` swaps the two
   * characters of `bom_asc`, and both are DEL DEL, so its second guard
   * repeats the first and "DEL ?" (the start of `BOM_REV_BITS`) gets through.
   */
  function IsCompatibleAsciiAsWritten(str: Text): (r: bool)
    ensures r <==> AllAscii(str) && !StartsWith(str, [127, 127])
  {
    BomSeptets();
    var bomAsc := Septets(BomBits);
    var bomRevAsc := [bomAsc[1], bomAsc[0]];
    AllAscii(str) && !StartsWith(str, bomAsc) && !StartsWith(str, bomRevAsc)
  }

  /**
   * `isCompatibleASCII(str)` as the table in its comment intends it: an
   * ASCII text that does not start with what either marker reads as.
   */
  function IsCompatibleAscii(str: Text): (r: bool)
    ensures r <==> AllAscii(str) && !StartsWith(str, [127, 127]) && !StartsWith(str, [127, 63])
  {
    BomSeptets();
    BomRevSeptets();
    AllAscii(str) && !StartsWith(str, Septets(BomBits)) && !StartsWith(str, Septets(BomRevBits))
  }

  // ---------------------------------------------------------------------
  // Fixed-width character codes

  /** One code unit per `bits` digits read from the left; a short last slice is read as it is. */
  function Decode(t: Bits, bits: nat): Text
    requires bits >= 1
    decreases |t|
  {
    if t == [] then []
    else
      var j := if bits < |t| then bits else |t|;
      [FromCharCode(Value(t[..j]))] + Decode(t[j..], bits)
  }

  /** What `str2bin(str, bitsPerChar)` returns or throws. */
  function Str2BinSpec(str: Text, bitsPerChar: int): Result<Bits, string>
  {
    if bitsPerChar < 1 || bitsPerChar > MaxBitsPerChar then Err(BitsPerCharError)
    else if !AllFit(str, bitsPerChar) then Err(CharCodeError)
    else Ok(Codes(str, bitsPerChar))
  }

  /** `str2bin(str, bitsPerChar)`: append `lpad(code.toString(2), bitsPerChar)` for every code unit. */
  method Str2Bin(str: Text, bitsPerChar: int) returns (r: Result<Bits, string>)
    ensures r == Str2BinSpec(str, bitsPerChar)
  {
    if bitsPerChar < 1 || bitsPerChar > MaxBitsPerChar {
      return Err(BitsPerCharError);
    }
    var max := Pow2(bitsPerChar) - 1;
    var out: Bits := [];
    var i := 0;
    while i < |str|
      invariant 0 <= i <= |str|
      invariant forall k :: 0 <= k < i ==> str[k] < Pow2(bitsPerChar)
      invariant out == Codes(str[..i], bitsPerChar)
    {
      var num := str[i];
      if num > max {
        assert !AllFit(str, bitsPerChar) by {
          assert str[i] >= Pow2(bitsPerChar);
        }
        return Err(CharCodeError);
      }
      out := AppendCode(str, i, bitsPerChar, out);
      i := i + 1;
    }
    assert str[..|str|] == str;
    return Ok(out);
  }

  /** One pass of the `str2bin` loop: the code of character `i`, padded to `bits` digits, is appended. */
  method AppendCode(str: Text, i: nat, bits: nat, out: Bits) returns (next: Bits)
    requires 1 <= bits && i < |str| && str[i] < Pow2(bits) && out == Codes(str[..i], bits)
    ensures next == Codes(str[..i + 1], bits)
  {
    var digits := Lpad(Binary(str[i]), bits);
    LpadBinary(str[i], bits);
    CodesSnoc(str, i, bits);
    next := out + digits;
  }

  /** What `bin2str(bin, bitsPerChar)` returns or throws. */
  function Bin2StrSpec(bin: Bits, bitsPerChar: int): Result<Text, string>
  {
    if bitsPerChar < 1 || bitsPerChar > MaxBitsPerChar then Err(BitsPerCharError)
    else Ok(Decode(PadLeft(bin, bitsPerChar), bitsPerChar))
  }

  /**
   * `bin2str(bin, bitsPerChar)`: left-pad to a multiple of `bitsPerChar`,
   * then read the characters.
   */
  method Bin2Str(bin: Bits, bitsPerChar: int) returns (r: Result<Text, string>)
    ensures r == Bin2StrSpec(bin, bitsPerChar)
  {
    if bitsPerChar < 1 || bitsPerChar > MaxBitsPerChar {
      return Err(BitsPerCharError);
    }
    var t := PadLeft(bin, bitsPerChar);
    var out := ReadCodes(t, bitsPerChar);
    return Ok(out);
  }

  /** The loop of `bin2str`: `String.fromCharCode` of every slice of `bits` digits, left to right. */
  method ReadCodes(t: Bits, bits: nat) returns (out: Text)
    requires bits >= 1
    ensures out == Decode(t, bits)
  {
    out := [];
    var i := 0;
    while i < |t|
      invariant 0 <= i <= |t|
      invariant out + Decode(t[i..], bits) == Decode(t, bits)
      decreases |t| - i
    {
      var j := if i + bits < |t| then i + bits else |t|;
      var u := FromCharCode(Value(t[i..j]));
      DecodeStep(t, i, j, bits);
      SeqAssoc(out, [u], Decode(t[j..], bits));
      out := out + [u];
      i := j;
    }
    assert Decode(t[|t|..], bits) == [];
    assert out + [] == out;
  }

  /** Reading from `i` takes the code in `t[i..j]`, clamped at the end, and goes on from `j`. */
  lemma DecodeStep(t: Bits, i: nat, j: nat, bits: nat)
    requires bits >= 1 && i < |t| && j == (if i + bits < |t| then i + bits else |t|)
    ensures Decode(t[i..], bits) == [FromCharCode(Value(t[i..j]))] + Decode(t[j..], bits)
  {
    SliceParts(t, i, j);
  }

  /** Reading `bits`-digit codes back gives the code units that fit. */
  lemma {:induction false} DecodeCodes(str: Text, bits: nat)
    requires bits >= 1 && AllFit(str, bits)
    ensures Decode(Codes(str, bits), bits) == str
    decreases |str|
  {
    if str != [] {
      assert AllFit(str[1..], bits) by {
        assert forall i :: 0 <= i < |str| - 1 ==> str[1..][i] == str[i + 1];
      }
      var head, tail := ToBits(str[0], bits), Codes(str[1..], bits);
      calc {
        Decode(Codes(str, bits), bits);
        Decode(head + tail, bits);
        { DecodeCons(head, tail, bits); }
        [FromCharCode(Value(head))] + Decode(tail, bits);
        { DecodeCodes(str[1..], bits); ValueOfToBits(str[0], bits); }
        [str[0]] + str[1..];
        str;
      }
    }
  }

  /** A text read from a whole first code goes on after it. */
  lemma DecodeCons(head: Bits, tail: Bits, bits: nat)
    requires bits >= 1 && |head| == bits
    ensures Decode(head + tail, bits) == [FromCharCode(Value(head))] + Decode(tail, bits)
  {
    SplitFront(head, tail);
  }

  /** A whole number of codes needs no padding. */
  lemma CodesPadded(str: Text, bits: nat)
    requires bits >= 1
    ensures PadLeft(Codes(str, bits), bits) == Codes(str, bits)
  {
    CodesLength(str, bits);
    DivModUnique(|str| * bits, bits, |str|, 0);
  }

  // ---------------------------------------------------------------------
  // Choosing the width

  /** `encodeStr` with a given answer of the ASCII check. */
  function EncodeWith(str: Text, ascii: bool): (r: Bits)
    requires ascii ==> AllAscii(str)
    ensures r == if ascii then Codes(str, 7) else BomBits + Codes(str, 16)
  {
    var bits := if ascii then 7 else 16;
    Str2BinFits(str, bits);
    var out := Str2BinSpec(str, bits).value;
    if ascii then out else BomBits + out
  }

  /** `str2bin` succeeds whenever every code unit fits. */
  lemma Str2BinFits(str: Text, bits: nat)
    requires bits == 7 || bits == 16
    requires bits == 7 ==> AllAscii(str)
    ensures Str2BinSpec(str, bits) == Ok(Codes(str, bits))
  {
    assert Pow2(7) == 128 && Pow2(16) == 0x1_0000;
  }

  /** `encodeStr(str)`, with the ASCII check as intended. */
  function EncodeStr(str: Text): (r: Bits)
    ensures |r| == if IsCompatibleAscii(str) then 7 * |str| else 16 + 16 * |str|
  {
    CodesLength(str, 7);
    CodesLength(str, 16);
    EncodeWith(str, IsCompatibleAscii(str))
  }

  /** `encodeStr(str)` as written. */
  function EncodeStrAsWritten(str: Text): (r: Bits)
    ensures |r| == if IsCompatibleAsciiAsWritten(str) then 7 * |str| else 16 + 16 * |str|
  {
    CodesLength(str, 7);
    CodesLength(str, 16);
    EncodeWith(str, IsCompatibleAsciiAsWritten(str))
  }

  /** `detectUTF16(bin)`: true after the marker, false for 7-bit text, an error otherwise. */
  function DetectUtf16(bin: Bits): (r: Result<bool, string>)
    ensures r == Ok(true) <==> StartsWith(bin, BomBits) && |bin| % 16 == 0
    ensures r == Ok(false) <==> !StartsWith(bin, BomBits) && !StartsWith(bin, BomRevBits) && |bin| % 7 == 0
    ensures r.Err? && StartsWith(bin, BomBits) ==> r.error == CorruptUtf16Error
    ensures r.Err? && StartsWith(bin, BomRevBits) ==> r.error == ReversedBomError
  {
    if |bin| >= |BomBits| && StartsWith(bin, BomBits) then
      if (|bin| - |BomBits|) % 16 != 0 then Err(CorruptUtf16Error) else Ok(true)
    else if |bin| >= |BomBits| && StartsWith(bin, BomRevBits) then Err(ReversedBomError)
    else if |bin| % 7 != 0 then Err(CorruptTextError)
    else Ok(false)
  }

  /**
   * `decodeStr(bin)`: drop the marker and read 16-bit codes, or read 7-bit
   * codes. A detection error is passed on, and the length check after
   * detection never fails.
   */
  function DecodeStr(bin: Bits): (r: Result<Text, string>)
    ensures DetectUtf16(bin).Err? ==> r == Err(DetectUtf16(bin).error)
    ensures DetectUtf16(bin) == Ok(true) ==> |bin| >= |BomBits| && r == Bin2StrSpec(bin[|BomBits|..], 16)
    ensures DetectUtf16(bin) == Ok(false) ==> r == Bin2StrSpec(bin, 7)
  {
    match DetectUtf16(bin)
    case Err(e) => Err(e)
    case Ok(utf16) =>
      var rest := if utf16 then bin[|BomBits|..] else bin;
      var bits := if utf16 then 16 else 7;
      if |rest| % bits != 0 then Err(LengthError) else Bin2StrSpec(rest, bits)
  }

  /** A 7-bit text that starts with a 16-bit marker starts with the marker's two septets. */
  lemma MarkerSeptets(str: Text, marker: Bits)
    requires AllAscii(str) && |marker| == 16 && StartsWith(Codes(str, 7), marker)
    ensures StartsWith(str, Septets(marker))
  {
    var e := Codes(str, 7);
    CodesLength(str, 7);
    assert |str| >= 3;
    var s2 := str[2..];
    assert str == [str[0], str[1]] + s2;
    CodesAppend([str[0], str[1]], s2, 7);
    CodesAppend([str[0]], [str[1]], 7);
    assert Codes([str[0]], 7) == ToBits(str[0], 7) + Codes([], 7);
    assert Codes([str[1]], 7) == ToBits(str[1], 7) + Codes([], 7);
    assert [str[0], str[1]] == [str[0]] + [str[1]];
    assert e[0..7] == ToBits(str[0], 7) && e[7..14] == ToBits(str[1], 7);
    assert marker[0..7] == e[0..7] && marker[7..14] == e[7..14];
    assert Pow2(7) == 128;
    ValueOfToBits(str[0], 7);
    ValueOfToBits(str[1], 7);
  }

  /** Seven-bit codes that start with neither marker read back as the text. */
  lemma SeptetsDecode(str: Text)
    requires AllAscii(str)
    requires !StartsWith(Codes(str, 7), BomBits) && !StartsWith(Codes(str, 7), BomRevBits)
    ensures DecodeStr(Codes(str, 7)) == Ok(str)
  {
    assert Pow2(7) == 128;
    CodesLength(str, 7);
    CodesPadded(str, 7);
    DecodeCodes(str, 7);
    assert DetectUtf16(Codes(str, 7)) == Ok(false);
  }

  /** Text the intended check lets through as 7-bit is never read as a marker. */
  lemma AsciiNotMarked(str: Text)
    requires IsCompatibleAscii(str)
    ensures !StartsWith(Codes(str, 7), BomBits) && !StartsWith(Codes(str, 7), BomRevBits)
  {
    if StartsWith(Codes(str, 7), BomBits) {
      MarkerSeptets(str, BomBits);
      assert false;
    }
    if StartsWith(Codes(str, 7), BomRevBits) {
      MarkerSeptets(str, BomRevBits);
      assert false;
    }
  }

  /** `decodeStr(encodeStr(str)) == str` for every string, with the intended ASCII check. */
  lemma TextRoundTrip(str: Text)
    ensures DecodeStr(EncodeStr(str)) == Ok(str)
  {
    assert Pow2(7) == 128 && Pow2(16) == 0x1_0000;
    if IsCompatibleAscii(str) {
      AsciiNotMarked(str);
      SeptetsDecode(str);
    } else {
      var e := Codes(str, 16);
      CodesLength(str, 16);
      CodesPadded(str, 16);
      DecodeCodes(str, 16);
      SplitFront(BomBits, e);
      assert DetectUtf16(BomBits + e) == Ok(true);
    }
  }

  /** Three code units are written one after the other. */
  lemma EncodeThree(a: Unit, b: Unit, c: Unit, bits: nat)
    ensures Codes([a, b, c], bits) == ToBits(a, bits) + ToBits(b, bits) + ToBits(c, bits)
  {
    assert [a, b, c][1..] == [b, c] && [b, c][1..] == [c] && [c][1..] == [];
    assert Codes([c], bits) == ToBits(c, bits);
    assert Codes([b, c], bits) == ToBits(b, bits) + ToBits(c, bits);
    SeqAssoc(ToBits(a, bits), ToBits(b, bits), ToBits(c, bits));
  }

  /** The 7-bit form of "DEL ? `" starts with the reversed marker. */
  lemma AsWrittenBits()
    ensures Codes([127, 63, 96], 7)[..16] == BomRevBits
  {
    EncodeThree(127, 63, 96, 7);
    Code127();
    Code63();
    Code96();
    AsWrittenPrefix(ToBits(127, 7), ToBits(63, 7), ToBits(96, 7));
  }

  lemma AsWrittenPrefix(a: Bits, b: Bits, c: Bits)
    requires a == [true, true, true, true, true, true, true]
    requires b == [false, true, true, true, true, true, true]
    requires |c| == 7 && c[0] && c[1]
    ensures (a + b + c)[..16] == BomRevBits
  {
  }

  /** "DEL ? `" passes `isCompatibleASCII` as written, is written in 7 bits, and cannot be read back. */
  lemma AsWrittenLosesText()
    ensures IsCompatibleAsciiAsWritten([127, 63, 96])
    ensures DecodeStr(EncodeStrAsWritten([127, 63, 96])) == Err(ReversedBomError)
  {
    var str: Text := [127, 63, 96];
    assert str[..2] == [127, 63];
    assert IsCompatibleAsciiAsWritten(str);
    var e := Codes(str, 7);
    assert EncodeStrAsWritten(str) == e;
    AsWrittenBits();
    CodesLength(str, 7);
    assert StartsWith(e, BomRevBits);
    assert !StartsWith(e, BomBits) by {
      assert BomBits[7] != BomRevBits[7];
    }
  }

  /**
   * The texts `encodeStr` as written writes in 7 bits and cannot read back:
   * ASCII, starting with DEL '?', and with a third code unit of 96 or more,
   * whose 7-bit form starts with two ones, so that the first sixteen digits
   * are `BOM_REV_BITS`.
   */
  predicate Misread(str: Text)
  {
    AllAscii(str) && StartsWith(str, [127, 63]) && |str| >= 3 && str[2] >= 96
  }

  /** The first two digits of a 7-bit code are both one exactly from 96 on. */
  lemma TopTwo(u: nat)
    requires u < 128
    ensures ToBits(u, 7)[0] && ToBits(u, 7)[1] <==> u >= 96
  {
    var s := ToBits(u, 7);
    var hi, lo := s[..2], s[2..];
    assert s == hi + lo;
    ValueConcat(hi, lo);
    ValueBound(lo);
    assert Pow2(7) == 128 && Pow2(5) == 32;
    ValueOfToBits(u, 7);
    DivModUnique(u, 32, Value(hi), Value(lo));
    assert hi[..1] == [s[0]] && [s[0]][..0] == [];
    assert Value(hi) == 2 * (if s[0] then 1 else 0) + (if s[1] then 1 else 0);
  }

  /**
   * DEL, '?', then the digits `rest`: never the marker, and the reversed
   * marker exactly when seven more digits follow that start with two ones.
   */
  lemma RevPrefix(a: Bits, b: Bits, rest: Bits)
    requires a == [true, true, true, true, true, true, true]
    requires b == [false, true, true, true, true, true, true]
    ensures !StartsWith(a + (b + rest), BomBits)
    ensures StartsWith(a + (b + rest), BomRevBits) <==> |rest| >= 2 && rest[0] && rest[1]
  {
    var e := a + (b + rest);
    assert e[7] == false;
    if |rest| >= 2 && rest[0] && rest[1] {
      assert forall i :: 0 <= i < 16 ==> e[i] == BomRevBits[i];
    }
    if StartsWith(e, BomRevBits) {
      assert e[14] == rest[0] && e[15] == rest[1];
    }
  }

  /**
   * The 7-bit codes of an ASCII text starting with DEL '?': never the
   * marker, and the reversed marker exactly when the text is misread.
   */
  lemma DelQuestionCodes(str: Text)
    requires AllAscii(str) && StartsWith(str, [127, 63])
    ensures !StartsWith(Codes(str, 7), BomBits)
    ensures StartsWith(Codes(str, 7), BomRevBits) <==> Misread(str)
  {
    var rest := Codes(str[2..], 7);
    assert str[0] == 127 && str[1] == 63;
    assert str[1..][1..] == str[2..];
    assert Codes(str, 7) == ToBits(127, 7) + (ToBits(63, 7) + rest);
    Code127();
    Code63();
    RevPrefix(ToBits(127, 7), ToBits(63, 7), rest);
    CodesLength(str[2..], 7);
    if |str| >= 3 {
      assert rest == ToBits(str[2], 7) + Codes(str[3..], 7) by {
        assert str[2..][1..] == str[3..];
      }
      TopTwo(str[2]);
    }
  }

  /**
   * `decodeStr(encodeStr(str))` with `isCompatibleASCII` as written: the
   * text comes back, except a misread text, which is refused as a reversed
   * byte order marker.
   */
  lemma AsWrittenRoundTrip(str: Text)
    ensures DecodeStr(EncodeStrAsWritten(str)) == if Misread(str) then Err(ReversedBomError) else Ok(str)
  {
    if AllAscii(str) && StartsWith(str, [127, 63]) {
      assert str[1] == 63;
      assert IsCompatibleAsciiAsWritten(str);
      DelQuestionCodes(str);
      var e := Codes(str, 7);
      assert EncodeStrAsWritten(str) == e;
      if Misread(str) {
        CodesLength(str, 7);
        assert DetectUtf16(e) == Err(ReversedBomError);
      } else {
        SeptetsDecode(str);
      }
    } else {
      assert EncodeStrAsWritten(str) == EncodeStr(str);
      TextRoundTrip(str);
    }
  }
}
