/**
 * The secret a Shamir39 mnemonic shares (src/js/shamir39.js, the middle of
 * `this.split` and the end of `this.combine`): two digits counting the
 * padding zeros, a three-digit code of the BIP-0039 word count, the padding,
 * eleven digits per word and the encoded passphrase, written in hex.
 */
module Header {
  import opened Wrappers
  import opened NatBits
  import opened Bits
  import opened FixedWidth
  import opened Words
  import opened TextCodec

  /** The BIP-0039 word counts a Shamir39 secret may hold (0: a passphrase alone). */
  const ValidLengths: seq<nat> := [0, 12, 15, 18, 21, 24]

  const WordCountError := "Unsupported mnemonic word count of "

  /** How `this.split` and `this.combine` fail: an `{error: ...}` result, or an exception from the code they call. */
  datatype Failure = Returned(message: string) | Thrown(message: string)

  /**
   * What `this.combine` returns: the BIP-0039 words (`undefined`, here
   * `None`, for an index past the end of the list) and the passphrase.
   */
  datatype Recovery = Recovery(mnemonic: seq<Option<string>>, passphrase: Text)

  /** `n.toString()` for a whole number. */
  function Decimal(n: nat): (s: string)
    ensures |s| >= 1 && forall i :: 0 <= i < |s| ==> '0' <= s[i] <= '9'
  {
    if n < 10 then [('0' as int + n) as char]
    else Decimal(n / 10) + [('0' as int + n % 10) as char]
  }

  /** The word count `this.combine` reads from its code: `3 code + 9`, and 0 for code 0. */
  function WordCount(code: nat): nat
  {
    if code > 0 then 3 * code + 9 else 0
  }

  /**
   * The three-digit code `this.split` writes for `k` words: `(k - 9) / 3`,
   * and 0 for no words. It fits in three digits and `WordCount` inverts it.
   */
  function WordCountCode(k: nat): (code: nat)
    requires k in ValidLengths
    ensures code < 6 && WordCount(code) == k
  {
    if k > 0 then (k - 9) / 3 else 0
  }

  /** Of the eight three-digit codes, exactly the six that `this.split` writes denote a supported count. */
  lemma SupportedCodes(code: nat)
    requires code < 8
    ensures WordCount(code) in ValidLengths <==> code < 6
  {
    if code >= 6 {
      assert WordCount(code) == 27 || WordCount(code) == 30;
    }
  }

  /**
   * The zeros `this.split` puts after the five header digits: fewer than
   * four, and enough that the header, the zeros and `len` more digits make
   * whole hex digits.
   */
  function Padding(len: nat): (p: nat)
    ensures p < 4 && (len + 5 + p) % 4 == 0
  {
    LpadIsPadLeft(Zeros(len + 5), 4);
    CeilMul(len + 5, 4) - (len + 5)
  }

  /**
   * The digits `this.split` builds for the word indices `ix` and the
   * passphrase before writing them in hex: the padding count in two digits,
   * the word count code in three, the padding zeros, eleven digits per word
   * and the encoded passphrase.
   */
  function PackedBits(ix: seq<nat>, pass: Text): (s: Bits)
    requires |ix| in ValidLengths
    ensures |s| % 4 == 0
  {
    var body := Codes(ix, 11) + EncodeStrAsWritten(pass);
    var p := Padding(|body|);
    var s := ToBits(p, 2) + (ToBits(WordCountCode(|ix|), 3) + (Zeros(p) + body));
    assert |s| == |body| + 5 + p;
    s
  }

  /** The secret `this.split` hands to `share`. */
  function SecretHex(ix: seq<nat>, pass: Text): (h: string)
    requires |ix| in ValidLengths
    ensures IsLowerHex(h)
  {
    NibblesToHex(PackedBits(ix, pass))
  }

  /**
   * Header, padding, words and passphrase make whole hex digits: five
   * header digits, fewer than four zeros, eleven digits per word and the
   * passphrase's digits.
   */
  lemma PackedLength(ix: seq<nat>, pass: Text)
    requires |ix| in ValidLengths
    ensures var p := Padding(11 * |ix| + |EncodeStrAsWritten(pass)|);
      && p < 4
      && |PackedBits(ix, pass)| == 5 + p + 11 * |ix| + |EncodeStrAsWritten(pass)|
      && |PackedBits(ix, pass)| % 4 == 0
  {
    CodesLength(ix, 11);
    var body := Codes(ix, 11) + EncodeStrAsWritten(pass);
    assert |body| == 11 * |ix| + |EncodeStrAsWritten(pass)|;
    assert |PackedBits(ix, pass)| == 5 + Padding(|body|) + |body|;
  }

  /**
   * The hex loop of `this.split`: each four digits, left to right, become
   * one hex character.
   */
  method NibblesToHexLoop(binStr: Bits) returns (hexStr: string)
    requires |binStr| % 4 == 0
    ensures hexStr == NibblesToHex(binStr)
  {
    var totalHexChars := |binStr| / 4;
    hexStr := [];
    for i := 0 to totalHexChars
      invariant hexStr == NibblesToHex(binStr[..4 * i])
    {
      var nibbleStr := Substring(binStr, i * 4, (i + 1) * 4);
      var hexValue := Value(nibbleStr);
      ValueBound(nibbleStr);
      var hexChar := HexChar(hexValue);
      NibbleStep(binStr, i);
      hexStr := hexStr + [hexChar];
    }
    assert binStr[..4 * totalHexChars] == binStr;
  }

  lemma NibbleStep(t: Bits, i: nat)
    requires |t| % 4 == 0 && 4 * i + 4 <= |t|
    ensures Value(t[4 * i..4 * i + 4]) < 16
    ensures NibblesToHex(t[..4 * i + 4]) == NibblesToHex(t[..4 * i]) + [HexChar(Value(t[4 * i..4 * i + 4]))]
  {
    var n := t[4 * i..4 * i + 4];
    ValueBound(n);
    assert t[..4 * i + 4] == t[..4 * i] + n;
    NibblesAppend(t[..4 * i], n);
    assert n[..4] == n && n[4..] == [];
  }

  /**
   * The middle of `this.split`: the code of the word count, the encoded
   * passphrase after the words' digits, the padding zeros and the two
   * header fields in front, then hex.
   */
  method Pack(ghost ix: seq<nat>, wordCount: nat, binStr: Bits, passphrase: Text) returns (hexStr: string)
    requires wordCount == |ix| && |ix| in ValidLengths && binStr == Codes(ix, 11)
    ensures hexStr == SecretHex(ix, passphrase)
  {
    var prefix := 0;
    if wordCount > 0 {
      prefix := (wordCount - 9) / 3;
    }
    var bin := binStr + EncodeStrAsWritten(passphrase);
    var lenForHex := (|bin| + 5 + 3) / 4 * 4;
    var padding := lenForHex - (|bin| + 5);
    assert padding == Padding(|bin|);
    bin := Zeros(padding) + bin;
    var code := Lpad(Binary(prefix), 3);
    bin := code + bin;
    var count := Lpad(Binary(padding), 2);
    bin := count + bin;
    SmallPowers();
    CodesLength(ix, 11);
    LpadBinary(padding, 2);
    LpadBinary(prefix, 3);
    assert bin == PackedBits(ix, passphrase);
    hexStr := NibblesToHexLoop(bin);
  }

  // ---------------------------------------------------------------------
  // Reading the secret back

  /**
   * The word loop at the end of `this.combine`: the digits lose their first
   * `|bin| % 11`, then each eleven digits name a word of the list.
   */
  function WordsOf(wordlist: seq<string>, bin: Bits): (ws: seq<Option<string>>)
    ensures |ws| == |bin| / 11
  {
    var totalWords := |bin| / 11;
    var diff := |bin| - totalWords * 11;
    Lookups(wordlist, Indices(Substring(bin, diff, |bin|)))
  }

  /**
   * The end of `this.combine`, from the combined secret: read the padding
   * count and the word count code (an empty field is NaN, which counts as
   * 0), refuse a code that denotes no supported count, skip the header and
   * the padding, decode the passphrase after the words and look the words up.
   */
  function ReadSecret(wordlist: seq<string>, secretHex: string): Result<Recovery, Failure>
  {
    match HexToBits(secretHex)
    case None => Err(Thrown(HexError))
    case Some(secretBin) => ReadBits(wordlist, secretBin)
  }

  /** `ReadSecret` once the digits are in binary: the header fields, then what follows the padding. */
  function ReadBits(wordlist: seq<string>, secretBin: Bits): Result<Recovery, Failure>
  {
    var padLenBin := Substring(secretBin, 0, 2);
    var padLen := ParseBinary(padLenBin);
    var prefix := Substring(secretBin, |padLenBin|, |padLenBin| + 3);
    var wcount := ParseBinary(prefix);
    var totalWords := if wcount.Some? then WordCount(wcount.value) else 0;
    if totalWords !in ValidLengths then Err(Returned(WordCountError + Decimal(totalWords)))
    else
      var start := if padLen.Some? then |prefix| + |padLenBin| + padLen.value else 0;
      ReadBody(wordlist, Substring(secretBin, start, |secretBin|), totalWords)
  }

  /** The words' digits and the passphrase's, after the padding: look the words up, decode the passphrase. */
  function ReadBody(wordlist: seq<string>, rest: Bits, totalWords: nat): Result<Recovery, Failure>
  {
    var passphraseBin := Substring(rest, totalWords * 11, |rest|);
    var wordsBin := Substring(rest, 0, totalWords * 11);
    match DecodeStr(passphraseBin)
    case Err(e) => Err(Thrown(e))
    case Ok(passphrase) => Ok(Recovery(WordsOf(wordlist, wordsBin), passphrase))
  }

  /** The word loop at the end of `this.combine`. */
  method ReadWords(wordlist: seq<string>, bin: Bits) returns (mnemonic: seq<Option<string>>)
    ensures mnemonic == WordsOf(wordlist, bin)
  {
    var totalWords := |bin| / 11;
    var totalBits := totalWords * 11;
    var diff := |bin| - totalBits;
    var secretBin := Substring(bin, diff, |bin|);
    ghost var ix := Indices(secretBin);
    mnemonic := [];
    for i := 0 to totalWords
      invariant |mnemonic| == i
      invariant forall k :: 0 <= k < i ==> mnemonic[k] == Lookups(wordlist, ix)[k]
    {
      IndicesAt(secretBin, i);
      var wordIndexBin := Substring(secretBin, i * 11, (i + 1) * 11);
      var wordIndex := Value(wordIndexBin);
      var word := if wordIndex < |wordlist| then Some(wordlist[wordIndex]) else None;
      mnemonic := mnemonic + [word];
    }
  }

  /** The end of `this.combine`, from the combined secret to the words and the passphrase. */
  method Unpack(wordlist: seq<string>, secretHex: string) returns (r: Result<Recovery, Failure>)
    ensures r == ReadSecret(wordlist, secretHex)
  {
    var bin := Hex2Bin(secretHex);
    if bin.None? {
      return Err(Thrown(HexError));
    }
    r := UnpackBits(wordlist, bin.value);
  }

  /** The header fields: the padding count and the word count code, then the rest after the padding. */
  method UnpackBits(wordlist: seq<string>, secretBin: Bits) returns (r: Result<Recovery, Failure>)
    ensures r == ReadBits(wordlist, secretBin)
  {
    var padLenBin := Substring(secretBin, 0, 2);
    var padLen := ParseBinary(padLenBin);
    var prefix := Substring(secretBin, |padLenBin|, |padLenBin| + 3);
    var wcount := ParseBinary(prefix);
    var totalWords := 0;
    if wcount.Some? && wcount.value > 0 {
      totalWords := 3 * wcount.value + 9;
    }
    if totalWords !in ValidLengths {
      return Err(Returned(WordCountError + Decimal(totalWords)));
    }
    var start := if padLen.Some? then |prefix| + |padLenBin| + padLen.value else 0;
    r := UnpackBody(wordlist, Substring(secretBin, start, |secretBin|), totalWords);
  }

  /** The passphrase after the words, then the words. */
  method UnpackBody(wordlist: seq<string>, rest: Bits, totalWords: nat) returns (r: Result<Recovery, Failure>)
    ensures r == ReadBody(wordlist, rest, totalWords)
  {
    var passphraseBin := Substring(rest, totalWords * 11, |rest|);
    var secretBin := Substring(rest, 0, totalWords * 11);
    var passphrase := DecodeStr(passphraseBin);
    if passphrase.Err? {
      return Err(Thrown(passphrase.error));
    }
    var mnemonic := ReadWords(wordlist, secretBin);
    return Ok(Recovery(mnemonic, passphrase.value));
  }

  /** A secret whose word count code is 6 or 7 is refused, naming the count it denotes. */
  lemma UnsupportedCode(wordlist: seq<string>, secretHex: string)
    requires HexToBits(secretHex).Some? && |HexToBits(secretHex).value| >= 5
    requires Value(HexToBits(secretHex).value[2..5]) >= 6
    ensures ReadSecret(wordlist, secretHex)
      == Err(Returned(WordCountError + Decimal(WordCount(Value(HexToBits(secretHex).value[2..5])))))
  {
    var code := Value(HexToBits(secretHex).value[2..5]);
    ValueBound(HexToBits(secretHex).value[2..5]);
    SupportedCodes(code);
  }

  /**
   * Reading back what `this.split` packed gives the words and the
   * passphrase: the header fields give the padding and the count, the
   * words' digits give their indices, and the passphrase decodes, except a
   * misread passphrase, whose digits are refused as a reversed marker.
   */
  lemma ReadPacked(wordlist: seq<string>, ix: seq<nat>, pass: Text)
    requires |ix| in ValidLengths && forall i :: 0 <= i < |ix| ==> ix[i] < |wordlist| && ix[i] < ListSize
    ensures ReadSecret(wordlist, SecretHex(ix, pass))
      == if Misread(pass) then Err(Thrown(ReversedBomError)) else Ok(Recovery(Lookups(wordlist, ix), pass))
  {
    var s := PackedBits(ix, pass);
    NibblesRoundTrip(s);
    var body := Codes(ix, 11) + EncodeStrAsWritten(pass);
    CodesLength(ix, 11);
    ReadFields(wordlist, SecretHex(ix, pass), Padding(|body|), WordCountCode(|ix|), Codes(ix, 11), EncodeStrAsWritten(pass));
    AsWrittenRoundTrip(pass);
    WordsOfCodes(wordlist, ix);
  }

  /** Words written in eleven digits each are read back as the words at those indices. */
  lemma WordsOfCodes(wordlist: seq<string>, ix: seq<nat>)
    requires forall i :: 0 <= i < |ix| ==> ix[i] < ListSize
    ensures WordsOf(wordlist, Codes(ix, 11)) == Lookups(wordlist, ix)
  {
    var t := Codes(ix, 11);
    IndicesOfCodes(ix);
    DivModUnique(|t|, 11, |ix|, 0);
    WordsOfWhole(wordlist, t);
  }

  /** Whole words lose no digits before they are looked up. */
  lemma WordsOfWhole(wordlist: seq<string>, t: Bits)
    requires |t| % 11 == 0
    ensures WordsOf(wordlist, t) == Lookups(wordlist, Indices(t))
  {
    assert |t| - |t| / 11 * 11 == 0;
    assert Substring(t, 0, |t|) == t;
  }

  /**
   * A secret with a padding count `p`, a supported code, `p` zeros, the
   * words' digits and then the passphrase's is read as those words and
   * whatever the passphrase's digits decode to.
   */
  lemma ReadFields(wordlist: seq<string>, hex: string, p: nat, code: nat, words: Bits, pass: Bits)
    requires p < 4 && code < 6 && |words| == WordCount(code) * 11
    requires HexToBits(hex) == Some(ToBits(p, 2) + (ToBits(code, 3) + (Zeros(p) + (words + pass))))
    ensures ReadSecret(wordlist, hex) == match DecodeStr(pass)
      case Err(e) => Err(Thrown(e))
      case Ok(text) => Ok(Recovery(WordsOf(wordlist, words), text))
  {
    var s := HexToBits(hex).value;
    HeaderFields(p, code, Zeros(p) + (words + pass));
    SupportedCodes(code);
    AfterPadding(s, p, code, words, pass);
    ReadLayout(wordlist, s, p, code, Substring(s, 5 + p, |s|));
  }

  /** After the header and the padding come the words' digits, then the passphrase's. */
  lemma AfterPadding(s: Bits, p: nat, code: nat, words: Bits, pass: Bits)
    requires s == ToBits(p, 2) + (ToBits(code, 3) + (Zeros(p) + (words + pass)))
    ensures var rest := Substring(s, 5 + p, |s|);
      && rest == words + pass
      && Substring(rest, |words|, |rest|) == pass && Substring(rest, 0, |words|) == words
  {
    var x := words + pass;
    assert s[5 + p..] == x;
    assert x[|words|..] == pass && x[..|words|] == words;
  }

  /** `ReadBits` once the header fields and the digits after the padding are known. */
  lemma ReadLayout(wordlist: seq<string>, s: Bits, p: nat, code: nat, rest: Bits)
    requires |s| >= 5
    requires Substring(s, 0, 2) == ToBits(p, 2) && ParseBinary(Substring(s, 0, 2)) == Some(p)
    requires Substring(s, 2, 5) == ToBits(code, 3) && ParseBinary(Substring(s, 2, 5)) == Some(code)
    requires WordCount(code) in ValidLengths && rest == Substring(s, 5 + p, |s|)
    ensures ReadBits(wordlist, s) == ReadBody(wordlist, rest, WordCount(code))
  {
  }

  /** The two header fields read back as written, and what follows them starts at digit 5. */
  lemma HeaderFields(p: nat, code: nat, tail: Bits)
    requires p < 4 && code < 8
    ensures var s := ToBits(p, 2) + (ToBits(code, 3) + tail);
      && Substring(s, 0, 2) == ToBits(p, 2) && ParseBinary(Substring(s, 0, 2)) == Some(p)
      && Substring(s, 2, 5) == ToBits(code, 3) && ParseBinary(Substring(s, 2, 5)) == Some(code)
      && s[5..] == tail
  {
    var a, b := ToBits(p, 2), ToBits(code, 3);
    var s := a + (b + tail);
    FieldValue(p, 2);
    FieldValue(code, 3);
    assert s[0..2] == a;
    assert s[2..5] == b;
    assert s[5..] == tail;
  }

  /** A header field holds the number written in it. */
  lemma FieldValue(v: nat, n: nat)
    requires n == 2 || n == 3
    requires v < Pow2(n)
    ensures ParseBinary(ToBits(v, n)) == Some(v)
  {
    SmallPowers();
    ValueOfToBits(v, n);
  }

  lemma SmallPowers()
    ensures Pow2(2) == 4 && Pow2(3) == 8
  {
    assert Pow2(1) == 2;
  }
}
