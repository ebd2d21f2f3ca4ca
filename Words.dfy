/**
 * Word indices: eleven binary digits per word of a 2048-word list, as in
 * BIP-0039 (src/js/shamir39.js `binToMnemonic` and the word loops of
 * `this.split` and `this.combine`).
 */
module Words {
  import opened Wrappers
  import opened NatBits
  import opened Bits
  import opened FixedWidth

  /** The number of words the list must have: one per eleven-digit index. */
  const ListSize := 2048

  /** `wordlist.indexOf(w)`: the first position of `w`, or -1 (here `None`). */
  function IndexOf(wordlist: seq<string>, w: string): (r: Option<nat>)
    ensures r.Some? ==> r.value < |wordlist| && wordlist[r.value] == w
    ensures r.Some? ==> forall k :: 0 <= k < r.value ==> wordlist[k] != w
    ensures r.None? <==> w !in wordlist
  {
    if wordlist == [] then None
    else if wordlist[0] == w then Some(0)
    else
      var rest := IndexOf(wordlist[1..], w);
      assert wordlist == [wordlist[0]] + wordlist[1..];
      if rest.None? then None else Some(rest.value + 1)
  }

  /** No word appears twice, as in the BIP-0039 lists. */
  predicate DistinctWords(wordlist: seq<string>)
  {
    forall i, j :: 0 <= i < j < |wordlist| ==> wordlist[i] != wordlist[j]
  }

  /** In a list without repeats, every word is found where it stands. */
  lemma IndexOfDistinct(wordlist: seq<string>, i: nat)
    requires DistinctWords(wordlist) && i < |wordlist|
    ensures IndexOf(wordlist, wordlist[i]) == Some(i)
  {
    assert wordlist[i] in wordlist;
  }

  /** How many words, from the first, are in the list: the loops stop at the word after them. */
  function KnownPrefix(wordlist: seq<string>, words: seq<string>): (n: nat)
    ensures n <= |words|
    ensures forall k :: 0 <= k < n ==> words[k] in wordlist
    ensures n < |words| ==> words[n] !in wordlist
    decreases |words|
  {
    if words == [] || words[0] !in wordlist then 0
    else 1 + KnownPrefix(wordlist, words[1..])
  }

  /** The position of every word, all of them in the list. */
  function IndexAll(wordlist: seq<string>, words: seq<string>): (ix: seq<nat>)
    requires forall k :: 0 <= k < |words| ==> words[k] in wordlist
    ensures |ix| == |words|
    ensures forall k :: 0 <= k < |ix| ==> ix[k] < |wordlist| && wordlist[ix[k]] == words[k]
  {
    seq(|words|, k requires 0 <= k < |words| => IndexOf(wordlist, words[k]).value)
  }

  /** `wordlist[i]` for every index, `undefined` (here `None`) past the end of the list. */
  function Lookups(wordlist: seq<string>, ix: seq<nat>): (ws: seq<Option<string>>)
    ensures |ws| == |ix|
    ensures forall i :: 0 <= i < |ix| ==> ws[i] == if ix[i] < |wordlist| then Some(wordlist[ix[i]]) else None
  {
    seq(|ix|, i requires 0 <= i < |ix| => if ix[i] < |wordlist| then Some(wordlist[ix[i]]) else None)
  }

  /** The eleven-digit fields of `t` as numbers, the first field first. */
  function Indices(t: Bits): (ix: seq<nat>)
    requires |t| % 11 == 0
    ensures |ix| == |t| / 11
    ensures forall i :: 0 <= i < |ix| ==> ix[i] < ListSize
    decreases |t|
  {
    if t == [] then []
    else
      ValueBound(t[..11]);
      assert Pow2(11) == ListSize;
      [Value(t[..11])] + Indices(t[11..])
  }

  /** Field `i` of `t` is the number in digits `11 i` to `11 i + 10`. */
  lemma {:induction false} IndicesAt(t: Bits, i: nat)
    requires |t| % 11 == 0 && i < |t| / 11
    ensures 11 * i + 11 <= |t| && Indices(t)[i] == Value(t[11 * i..11 * i + 11])
    decreases i
  {
    if i > 0 {
      IndicesAt(t[11..], i - 1);
      assert t[11..][11 * (i - 1)..11 * (i - 1) + 11] == t[11 * i..11 * i + 11];
    }
  }

  /** Reading the fields of indices written in eleven digits gives the indices back. */
  lemma {:induction false} IndicesOfCodes(ix: seq<nat>)
    requires AllFit(ix, 11)
    ensures |Codes(ix, 11)| == 11 * |ix|
    ensures Indices(Codes(ix, 11)) == ix
    decreases |ix|
  {
    CodesLength(ix, 11);
    if ix != [] {
      var head, tail := ToBits(ix[0], 11), Codes(ix[1..], 11);
      IndicesOfCodes(ix[1..]);
      SplitFront(head, tail);
      ValueOfToBits(ix[0], 11);
      assert ix == [ix[0]] + ix[1..];
    }
  }

  /** Writing the fields of `t` back in eleven digits gives `t`: nothing is lost. */
  lemma {:induction false} CodesOfIndices(t: Bits)
    requires |t| % 11 == 0
    ensures Codes(Indices(t), 11) == t
    decreases |t|
  {
    if t != [] {
      CodesOfIndices(t[11..]);
      ToBitsOfValue(t[..11]);
      var ix := Indices(t);
      assert ix[1..] == Indices(t[11..]);
      assert t == t[..11] + t[11..];
    }
  }

  /** The words of a list at the given indices. */
  function Names(wordlist: seq<string>, ix: seq<nat>): (ws: seq<string>)
    requires forall i :: 0 <= i < |ix| ==> ix[i] < |wordlist|
    ensures |ws| == |ix|
  {
    seq(|ix|, i requires 0 <= i < |ix| => wordlist[ix[i]])
  }

  /** What `binToMnemonic(bin, wordlist)` returns: the fields of `bin`, zero-padded to whole words, looked up. */
  function BinToMnemonicSpec(bin: Bits, wordlist: seq<string>): seq<string>
    requires |wordlist| == ListSize
  {
    Names(wordlist, Indices(PadLeft(bin, 11)))
  }

  /**
   * `binToMnemonic(binStr, wordlist)`: `lpad` to `Math.ceil(|bin| / 11) * 11`
   * digits, then one word per eleven digits, left to right.
   */
  method BinToMnemonic(bin: Bits, wordlist: seq<string>) returns (mnemonic: seq<string>)
    requires |wordlist| == ListSize
    ensures mnemonic == BinToMnemonicSpec(bin, wordlist)
  {
    var totalWords := (|bin| + 10) / 11;
    var totalBits := totalWords * 11;
    LpadIsPadLeft(bin, 11);
    assert totalBits == CeilMul(|bin|, 11);
    var binStr := Lpad(bin, totalBits);
    assert binStr == PadLeft(bin, 11);
    ghost var ix := Indices(binStr);
    mnemonic := [];
    var i := 0;
    while i < totalWords
      invariant 0 <= i <= totalWords && |mnemonic| == i
      invariant forall k :: 0 <= k < i ==> mnemonic[k] == wordlist[ix[k]]
    {
      IndicesAt(binStr, i);
      var bits := Substring(binStr, i * 11, (i + 1) * 11);
      var wordIndex := Value(bits);
      mnemonic := mnemonic + [wordlist[wordIndex]];
      i := i + 1;
    }
  }

  /**
   * What `binToMnemonic` writes loses nothing: its indices are below 2048,
   * and written back in eleven digits each they give the input behind fewer
   * than eleven zeros, which have no value.
   */
  lemma MnemonicKeepsBits(bin: Bits)
    ensures var t := PadLeft(bin, 11);
      var ix := Indices(t);
      && (forall i :: 0 <= i < |ix| ==> ix[i] < ListSize)
      && Codes(ix, 11) == Zeros(|t| - |bin|) + bin
      && |t| - |bin| < 11
      && Value(Codes(ix, 11)) == Value(bin)
  {
    var t := PadLeft(bin, 11);
    CodesOfIndices(t);
    PadLeftZeros(bin, 11);
    LeadingZeros(|t| - |bin|, bin);
  }

  /**
   * The trim in `this.combine`: the payload digits lose their first
   * `|bin| % 4` digits, so that they come in whole hex digits.
   */
  function TrimToNibbles(bin: Bits): (r: Bits)
    ensures |r| % 4 == 0
  {
    var hexChars := (|bin| / 4) * 4;
    Substring(bin, |bin| - hexChars, |bin|)
  }

  /**
   * The trim in `this.combine` drops only padding: from a payload of whole
   * hex digits behind zeros (those `binToMnemonic` adds), it keeps the
   * payload behind whole hex digits of zeros, which have no value.
   */
  lemma TrimKeepsPayload(b: Bits, z: nat)
    requires |b| % 4 == 0
    ensures var r := TrimToNibbles(Zeros(z) + b);
      && |b| <= |r| && (|r| - |b|) % 4 == 0
      && r == Zeros(|r| - |b|) + b
      && Value(r) == Value(b)
  {
    TrimZeros(b, z);
    var k := z - z % 4;
    LeadingZeros(k, b);
  }

  /** Trimming zeros in front of whole hex digits leaves whole hex digits of them. */
  lemma TrimZeros(b: Bits, z: nat)
    requires |b| % 4 == 0
    ensures TrimToNibbles(Zeros(z) + b) == Zeros(z - z % 4) + b
    ensures (z - z % 4) % 4 == 0
  {
    var t := Zeros(z) + b;
    TrimArith(|b|, z);
    var d := z % 4;
    assert TrimToNibbles(t) == t[d..];
    ZerosDrop(z, d, b);
  }

  lemma TrimArith(n: nat, z: nat)
    requires n % 4 == 0
    ensures (n + z) - ((n + z) / 4) * 4 == z % 4 && (z - z % 4) % 4 == 0
  {
    DivModUnique(n + z, 4, n / 4 + z / 4, z % 4);
    DivModUnique(z - z % 4, 4, z / 4, 0);
  }

  lemma ZerosDrop(z: nat, d: nat, b: Bits)
    requires d <= z
    ensures (Zeros(z) + b)[d..] == Zeros(z - d) + b
  {
  }
}
