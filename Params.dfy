/**
 * The parameter words of a Shamir39 mnemonic (src/js/shamir39.js
 * `paramsToBinaryStr` and the parameter loop of `this.combine`): the
 * threshold `m` and the share index `o`, five binary digits of each per
 * word, behind a digit that is '1' when another parameter word follows.
 */
module Params {
  import opened Wrappers
  import opened NatBits
  import opened Bits
  import opened FixedWidth
  import opened Words

  const UnknownWordError := "Word not in wordlist: "

  /** The digits both parameters are padded to: the longer one, in whole groups of five. */
  function ParamWidth(m: nat, o: nat): (w: nat)
    ensures w >= 5 && w % 5 == 0
    ensures |Binary(m)| <= w && |Binary(o)| <= w
    ensures w - 5 < |Binary(m)| || w - 5 < |Binary(o)|
  {
    LpadIsPadLeft(Binary(m), 5);
    LpadIsPadLeft(Binary(o), 5);
    var a, b := CeilMul(|Binary(m)|, 5), CeilMul(|Binary(o)|, 5);
    if a < b then b else a
  }

  /**
   * The parameter words as binary strings: word `i` is '1' unless it is
   * the last word, then digits `5 i` to `5 i + 4` of `m` and of `o`.
   */
  function ParamGroups(mp: Bits, op: Bits): (g: seq<Bits>)
    requires |mp| == |op| && |mp| % 5 == 0
    ensures |g| == |mp| / 5
    ensures forall i :: 0 <= i < |g| ==> |g[i]| == 11 && g[i][0] == (i < |g| - 1)
    ensures forall i :: 0 <= i < |g| ==> g[i][1..6] == mp[5 * i..5 * i + 5] && g[i][6..] == op[5 * i..5 * i + 5]
  {
    seq(|mp| / 5, i requires 0 <= i < |mp| / 5 => [i < |mp| / 5 - 1] + mp[5 * i..5 * i + 5] + op[5 * i..5 * i + 5])
  }

  /** `m` and `o` in binary, both zero-padded to the common width. */
  function PaddedParams(m: nat, o: nat): (p: (Bits, Bits))
    ensures |p.0| == |p.1| == ParamWidth(m, o)
  {
    var w := ParamWidth(m, o);
    (LeftPad(Binary(m), w), LeftPad(Binary(o), w))
  }

  /** The value of `paramsToBinaryStr(m, o)`. */
  function ParamsBits(m: nat, o: nat): Bits
  {
    var (mp, op) := PaddedParams(m, o);
    Flatten(ParamGroups(mp, op))
  }

  /**
   * `paramsToBinaryStr(m, o)`: pad both to the longer width in whole groups
   * of five, then per group a leading digit and five digits of each.
   */
  method ParamsToBinaryStr(m: nat, o: nat) returns (binStr: Bits)
    ensures binStr == ParamsBits(m, o)
  {
    var mBin := Binary(m);
    var oBin := Binary(o);
    var mBinFinalLength := (|mBin| + 4) / 5 * 5;
    var oBinFinalLength := (|oBin| + 4) / 5 * 5;
    var binFinalLength := if mBinFinalLength < oBinFinalLength then oBinFinalLength else mBinFinalLength;
    assert binFinalLength == ParamWidth(m, o);
    mBin := Lpad(mBin, binFinalLength);
    oBin := Lpad(oBin, binFinalLength);
    assert (mBin, oBin) == PaddedParams(m, o);
    binStr := WriteGroups(mBin, oBin);
  }

  /** The loop of `paramsToBinaryStr`: per group of five digits, the leading digit and five digits of each parameter. */
  method WriteGroups(mBin: Bits, oBin: Bits) returns (binStr: Bits)
    requires |mBin| == |oBin| && |mBin| % 5 == 0
    ensures binStr == Flatten(ParamGroups(mBin, oBin))
  {
    ghost var g := ParamGroups(mBin, oBin);
    var totalWords := |oBin| / 5;
    binStr := [];
    for i := 0 to totalWords
      invariant binStr == Flatten(g[..i])
    {
      var isLastWord := i == totalWords - 1;
      var leadingBit := !isLastWord;
      var mBits := Substring(mBin, i * 5, (i + 1) * 5);
      var oBits := Substring(oBin, i * 5, (i + 1) * 5);
      SubstringSlice(mBin, i * 5, (i + 1) * 5);
      SubstringSlice(oBin, i * 5, (i + 1) * 5);
      GroupStep(mBin, oBin, i);
      binStr := binStr + ([leadingBit] + mBits + oBits);
    }
    assert g[..totalWords] == g;
  }

  /** Group `i` is the leading digit and digits `5 i` to `5 i + 4` of both parameters. */
  lemma GroupStep(mp: Bits, op: Bits, i: nat)
    requires |mp| == |op| && |mp| % 5 == 0 && i < |mp| / 5
    ensures var g := ParamGroups(mp, op);
      Flatten(g[..i + 1]) == Flatten(g[..i]) + ([i < |mp| / 5 - 1] + mp[i * 5..(i + 1) * 5] + op[i * 5..(i + 1) * 5])
  {
    var g := ParamGroups(mp, op);
    FlattenSnoc(g, i);
    assert g[i] == [i < |mp| / 5 - 1] + mp[5 * i..5 * i + 5] + op[5 * i..5 * i + 5];
  }

  lemma {:induction false} FlattenLength(gs: seq<Bits>)
    requires forall i :: 0 <= i < |gs| ==> |gs[i]| == 11
    ensures |Flatten(gs)| == 11 * |gs|
    decreases |gs|
  {
    if gs != [] {
      FlattenLength(gs[1..]);
    }
  }

  /**
   * `paramsToBinaryStr(m, o)` is whole words, one per five digits of the
   * longer parameter, so `binToMnemonic` adds no padding, and the words'
   * indices are the groups' values.
   */
  lemma ParamsWords(m: nat, o: nat)
    ensures var (mp, op) := PaddedParams(m, o);
      var g := ParamGroups(mp, op);
      && |ParamsBits(m, o)| == 11 * (ParamWidth(m, o) / 5)
      && PadLeft(ParamsBits(m, o), 11) == ParamsBits(m, o)
      && Indices(ParamsBits(m, o)) == Values(g)
  {
    var (mp, op) := PaddedParams(m, o);
    var g := ParamGroups(mp, op);
    FlattenLength(g);
    FlattenIsCodes(g, 11);
    assert AllFit(Values(g), 11) by {
      forall i | 0 <= i < |g|
        ensures Values(g)[i] < Pow2(11)
      {
        ValueBound(g[i]);
      }
    }
    IndicesOfCodes(Values(g));
  }

  // ---------------------------------------------------------------------
  // Reading the parameters back

  /** What the parameter loop read: the digits of `m` and of `o`, and the position of the last parameter word. */
  datatype ParamsRead = ParamsRead(mBits: Bits, oBits: Bits, end: nat)

  /**
   * The parameter loop of `this.combine` from word `j` on, with the digits
   * read so far: every word must be in the list; its index in eleven digits
   * gives five digits of `m` and five of `o`; a word whose first digit is
   * '0' ends the parameters. Words running out leave the end at 1.
   */
  function ReadParams(wordlist: seq<string>, words: seq<string>, j: nat, mBits: Bits, oBits: Bits)
    : (r: Result<ParamsRead, string>)
    requires 1 <= j <= |words|
    decreases |words| - j
  {
    if j == |words| then Ok(ParamsRead(mBits, oBits, 1))
    else match IndexOf(wordlist, words[j])
      case None => Err(UnknownWordError + words[j])
      case Some(wordIndex) =>
        var wordBin := LeftPad(Binary(wordIndex), 11);
        var mBits', oBits' := mBits + Substring(wordBin, 1, 6), oBits + Substring(wordBin, 6, 11);
        if !wordBin[0] then Ok(ParamsRead(mBits', oBits', j))
        else ReadParams(wordlist, words, j + 1, mBits', oBits')
  }

  /** The parameter loop of `this.combine` over the words after the version word. */
  method ReadParamWords(wordlist: seq<string>, words: seq<string>) returns (r: Result<ParamsRead, string>)
    requires |words| >= 1
    ensures r == ReadParams(wordlist, words, 1, [], [])
  {
    var mBinStr: Bits := [];
    var oBinStr: Bits := [];
    var j := 1;
    while j < |words|
      invariant 1 <= j <= |words|
      invariant ReadParams(wordlist, words, j, mBinStr, oBinStr) == ReadParams(wordlist, words, 1, [], [])
      decreases |words| - j
    {
      var word := words[j];
      var wordIndex := IndexOf(wordlist, word);
      if wordIndex.None? {
        return Err(UnknownWordError + word);
      }
      var wordBin := Lpad(Binary(wordIndex.value), 11);
      assert wordBin == LeftPad(Binary(wordIndex.value), 11);
      mBinStr := mBinStr + Substring(wordBin, 1, 6);
      oBinStr := oBinStr + Substring(wordBin, 6, 11);
      var isEndOfParams := !wordBin[0];
      if isEndOfParams {
        return Ok(ParamsRead(mBinStr, oBinStr, j));
      }
      j := j + 1;
    }
    return Ok(ParamsRead(mBinStr, oBinStr, 1));
  }

  /** The mnemonic words a split writes for the parameters. */
  predicate HasParamWords(wordlist: seq<string>, words: seq<string>, g: seq<Bits>)
    requires |wordlist| == ListSize
  {
    |words| > |g|
    && forall i :: 0 <= i < |g| ==> Value(g[i]) < ListSize && words[i + 1] == wordlist[Value(g[i])]
  }

  /**
   * The parameter loop reads back what `paramsToBinaryStr` wrote: after the
   * version word, the parameter words give the padded digits of `m` and of
   * `o` and end at the last of them, whatever words follow.
   */
  lemma ReadParamsBack(wordlist: seq<string>, words: seq<string>, m: nat, o: nat)
    requires |wordlist| == ListSize && DistinctWords(wordlist)
    requires HasParamWords(wordlist, words, ParamGroups(PaddedParams(m, o).0, PaddedParams(m, o).1))
    ensures ReadParams(wordlist, words, 1, [], [])
      == Ok(ParamsRead(PaddedParams(m, o).0, PaddedParams(m, o).1, ParamWidth(m, o) / 5))
    ensures ParseBinary(PaddedParams(m, o).0) == Some(m) && ParseBinary(PaddedParams(m, o).1) == Some(o)
  {
    var (mp, op) := PaddedParams(m, o);
    var g := ParamGroups(mp, op);
    ReadFrom(wordlist, words, mp, op, 1);
    assert mp[..0] == [] && op[..0] == [];
    PaddedValue(m, |mp|);
    PaddedValue(o, |op|);
  }

  /** `lpad(v.toString(2), w)` denotes `v`. */
  lemma PaddedValue(v: nat, w: nat)
    requires |Binary(v)| <= w
    ensures ParseBinary(LeftPad(Binary(v), w)) == Some(v)
  {
    ValueOfBinary(v);
    if |Binary(v)| < w {
      LeadingZeros(w - |Binary(v)|, Binary(v));
    }
  }

  /** From parameter word `j` on, the loop reads the rest of the digits. */
  lemma {:induction false} ReadFrom(wordlist: seq<string>, words: seq<string>, mp: Bits, op: Bits, j: nat)
    requires |wordlist| == ListSize && DistinctWords(wordlist)
    requires |mp| == |op| && |mp| % 5 == 0 && |mp| >= 5
    requires HasParamWords(wordlist, words, ParamGroups(mp, op))
    requires 1 <= j <= |mp| / 5
    ensures ReadParams(wordlist, words, j, mp[..5 * (j - 1)], op[..5 * (j - 1)])
      == Ok(ParamsRead(mp, op, |mp| / 5))
    decreases |mp| / 5 - j
  {
    var word := ParamGroups(mp, op)[j - 1];
    GroupWord(wordlist, words, mp, op, j);
    ReadStep(wordlist, words, mp, op, j, word);
    if j < |mp| / 5 {
      ReadFrom(wordlist, words, mp, op, j + 1);
      var next := ReadParams(wordlist, words, j + 1, mp[..5 * j], op[..5 * j]);
      assert next == Ok(ParamsRead(mp, op, |mp| / 5));
    }
  }

  /** Parameter word `j` as `ReadStep` needs it. */
  lemma GroupWord(wordlist: seq<string>, words: seq<string>, mp: Bits, op: Bits, j: nat)
    requires |wordlist| == ListSize
    requires |mp| == |op| && |mp| % 5 == 0 && |mp| >= 5
    requires HasParamWords(wordlist, words, ParamGroups(mp, op))
    requires 1 <= j <= |mp| / 5
    ensures var word := ParamGroups(mp, op)[j - 1];
      && 5 * j <= |mp| && j < |words|
      && (5 * j < |mp| <==> j < |mp| / 5)
      && |word| == 11 && word[0] == (5 * j < |mp|)
      && word[1..6] == mp[5 * (j - 1)..5 * j] && word[6..] == op[5 * (j - 1)..5 * j]
      && Value(word) < ListSize && words[j] == wordlist[Value(word)]
  {
    var g := ParamGroups(mp, op);
    var word := g[j - 1];
    var n := |mp| / 5;
    assert |mp| == 5 * n;
    assert |word| == 11 && word[0] == (j - 1 < n - 1);
    assert word[1..6] == mp[5 * (j - 1)..5 * (j - 1) + 5] && word[6..] == op[5 * (j - 1)..5 * (j - 1) + 5];
    assert Value(word) < ListSize && words[j - 1 + 1] == wordlist[Value(word)];
  }

  /** Parameter word `j` adds its ten digits, and ends the loop exactly when it is the last one. */
  lemma ReadStep(wordlist: seq<string>, words: seq<string>, mp: Bits, op: Bits, j: nat, word: Bits)
    requires |wordlist| == ListSize && DistinctWords(wordlist)
    requires |mp| == |op| && 1 <= j && 5 * j <= |mp| && j < |words|
    requires |word| == 11 && word[0] == (5 * j < |mp|)
    requires word[1..6] == mp[5 * (j - 1)..5 * j] && word[6..] == op[5 * (j - 1)..5 * j]
    requires Value(word) < ListSize && words[j] == wordlist[Value(word)]
    ensures ReadParams(wordlist, words, j, mp[..5 * (j - 1)], op[..5 * (j - 1)])
      == if 5 * j < |mp| then ReadParams(wordlist, words, j + 1, mp[..5 * j], op[..5 * j])
         else Ok(ParamsRead(mp, op, j))
  {
    ReadWord(wordlist, words, j, word, mp[..5 * (j - 1)], op[..5 * (j - 1)]);
    PrefixGrow(mp, 5 * (j - 1), 5 * j);
    PrefixGrow(op, 5 * (j - 1), 5 * j);
  }

  /** One step of the parameter loop over a word the list holds once. */
  lemma ReadWord(wordlist: seq<string>, words: seq<string>, j: nat, word: Bits, mBits: Bits, oBits: Bits)
    requires |wordlist| == ListSize && DistinctWords(wordlist)
    requires 1 <= j < |words| && |word| == 11 && Value(word) < ListSize && words[j] == wordlist[Value(word)]
    ensures ReadParams(wordlist, words, j, mBits, oBits)
      == if !word[0] then Ok(ParamsRead(mBits + word[1..6], oBits + word[6..], j))
         else ReadParams(wordlist, words, j + 1, mBits + word[1..6], oBits + word[6..])
  {
    IndexOfDistinct(wordlist, Value(word));
    WordDigits(word);
    assert Substring(word, 1, 6) == word[1..6] && Substring(word, 6, 11) == word[6..];
  }

  /** An eleven-digit word written back as `lpad(index.toString(2), 11)` is the word itself. */
  lemma WordDigits(word: Bits)
    requires |word| == 11
    ensures LeftPad(Binary(Value(word)), 11) == word
  {
    ValueBound(word);
    LpadBinary(Value(word), 11);
    ToBitsOfValue(word);
  }
}
