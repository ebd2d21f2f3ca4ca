/**
 * Shamir39 mnemonics (src/js/shamir39.js `this.split` and `this.combine`).
 * A BIP-0039 mnemonic and a passphrase are packed into one hex secret,
 * the secret is shared, and every share is written as words of the same
 * 2048-word list: the version word, the parameter words for the threshold
 * `m` and the share's index `o`, then the share's digits. Combining reads
 * the words back, orders the shares by index, combines them and unpacks
 * the secret.
 */
module Mnemonic {
  import opened Wrappers
  import opened NatBits
  import opened Field
  import opened Gf
  import opened Poly
  import opened Bits
  import opened FixedWidth
  import opened Words
  import opened TextCodec
  import opened Params
  import opened Header
  import Sharing
  import RoundTrip

  /** The first word of every Shamir39 mnemonic. */
  const Version := "shamir39b"

  /** The most shares, and the highest threshold, a split accepts: the field has 2^12 elements. */
  const MaxShares := 4095

  /** The longest passphrase a split accepts, in UTF-16 units. */
  const MaxPassphrase := 256

  const MinThresholdError := "Must require at least 2 shares"
  const MaxThresholdError := "Must require at most 4095 shares"
  const MinSharesError := "Must split to at least 2 shares"
  const MaxSharesError := "Must split to at most 4095 shares"
  const WordlistError := "Wordlist must have 2048 words"
  const EmptyError := "No bip39 mnemonic words or passphrase provided"
  const MnemonicLengthError := "Mnemonic must consist of 0, 12, 15, 18, 21 or 24 words"
  const PassphraseError := "Passphrases longer than 256 characters not supported"
  const InvalidWordError := "Invalid word found in list: "
  const VersionError := "Version doesn't match"
  const ThresholdMismatchError := "Inconsisent M parameters"
  const NotEnoughError := "Not enough parts, requires "

  /** The library runs on `init(12)`: 4096 field elements, the largest 4095. */
  lemma TwelveBits(c: Config)
    requires Valid(c) && c.bits == 12
    ensures c.size == 4096 && c.max == MaxShares
  {
    assert Pow2(12) == 4096;
  }

  // ---------------------------------------------------------------------
  // Splitting

  /** The words of share `o`: the version word, the parameter words and the share's digits as words. */
  function ShareWords(wordlist: seq<string>, m: nat, o: nat, partHex: string): seq<string>
    requires |wordlist| == ListSize && HexToBits(partHex).Some?
  {
    [Version] + BinToMnemonicSpec(ParamsBits(m, o), wordlist) + BinToMnemonicSpec(HexToBits(partHex).value, wordlist)
  }

  /** The first `count` shares, share `o` written as words. */
  function ShareAll(wordlist: seq<string>, m: nat, partsHex: seq<string>, count: nat): (ms: seq<seq<string>>)
    requires |wordlist| == ListSize && count <= |partsHex|
    requires forall t :: 0 <= t < |partsHex| ==> HexToBits(partsHex[t]).Some?
    ensures |ms| == count
  {
    if count == 0 then []
    else ShareAll(wordlist, m, partsHex, count - 1) + [ShareWords(wordlist, m, count - 1, partsHex[count - 1])]
  }

  /** Mnemonic `o` is share `o` written as words. */
  lemma {:induction false} ShareAllAt(wordlist: seq<string>, m: nat, partsHex: seq<string>, count: nat, o: nat)
    requires |wordlist| == ListSize && count <= |partsHex| && o < count
    requires forall t :: 0 <= t < |partsHex| ==> HexToBits(partsHex[t]).Some?
    ensures ShareAll(wordlist, m, partsHex, count)[o] == ShareWords(wordlist, m, o, partsHex[o])
    decreases count
  {
    if o < count - 1 {
      ShareAllAt(wordlist, m, partsHex, count - 1, o);
    }
  }

  /** Every share `share` returns is hex that `hex2bin` reads. */
  lemma SharesDecode(c: Config, secret: string, n: int, m: int, padLength: nat, rng: Sharing.Rng)
    requires Valid(c) && Sharing.RngInField(c, rng)
    ensures var r := Sharing.ShareSpec(c, secret, n, m, padLength, rng);
      r.Ok? ==> forall t :: 0 <= t < |r.value| ==> HexToBits(r.value[t]).Some?
  {
    var r := Sharing.ShareSpec(c, secret, n, m, padLength, rng);
    if r.Ok? {
      var chunks := Chunks(Sharing.SecretBits(HexToBits(secret).value, padLength), c.bits);
      assert r.value == Sharing.ShareStrings(c, chunks, m, rng, n);
      forall t | 0 <= t < |r.value|
        ensures HexToBits(r.value[t]).Some?
      {
        Sharing.StringAt(c, chunks, m, rng, n, t);
        BinHexRoundTrip(Assemble(Sharing.ShareValues(c, chunks, m, rng, t + 1), c.bits));
      }
    }
  }

  /**
   * What `this.split(words, passphrase, wordlist, m, n)` returns: the
   * inputs are checked in order, then the words are looked up, packed with
   * the passphrase into a hex secret, the secret is shared with threshold
   * `m` into `n` shares, and share `o` is written as words.
   */
  function SplitSpec(c: Config, words: seq<string>, passphrase: Text, wordlist: seq<string>, m: int, n: int, rng: Sharing.Rng)
    : Result<seq<seq<string>>, Failure>
    requires Valid(c) && c.bits == 12 && Sharing.RngInField(c, rng)
  {
    if m < 2 then Err(Returned(MinThresholdError))
    else if m > MaxShares then Err(Returned(MaxThresholdError))
    else if n < 2 then Err(Returned(MinSharesError))
    else if n > MaxShares then Err(Returned(MaxSharesError))
    else if |wordlist| != ListSize then Err(Returned(WordlistError))
    else if |words| == 0 && |passphrase| == 0 then Err(Returned(EmptyError))
    else if |words| !in ValidLengths then Err(Returned(MnemonicLengthError))
    else if |passphrase| > MaxPassphrase then Err(Returned(PassphraseError))
    else
      var known := KnownPrefix(wordlist, words);
      if known < |words| then Err(Returned(InvalidWordError + words[known]))
      else
        var hexStr := SecretHex(IndexAll(wordlist, words), passphrase);
        match Sharing.ShareSpec(c, hexStr, n, m, 0, rng)
        case Err(e) => Err(Thrown(e))
        case Ok(partsHex) =>
          SharesDecode(c, hexStr, n, m, 0, rng);
          Ok(ShareAll(wordlist, m, partsHex, |partsHex|))
  }

  /** `this.split`: check the inputs, pack the words and the passphrase, share, and write each share as words. */
  method Split(c: Config, words: seq<string>, passphrase: Text, wordlist: seq<string>, m: int, n: int, rng: Sharing.Rng)
    returns (r: Result<seq<seq<string>>, Failure>)
    requires Valid(c) && c.bits == 12 && Sharing.RngInField(c, rng)
    ensures r == SplitSpec(c, words, passphrase, wordlist, m, n, rng)
  {
    if m < 2 {
      return Err(Returned(MinThresholdError));
    }
    if m > MaxShares {
      return Err(Returned(MaxThresholdError));
    }
    if n < 2 {
      return Err(Returned(MinSharesError));
    }
    if n > MaxShares {
      return Err(Returned(MaxSharesError));
    }
    if |wordlist| != ListSize {
      return Err(Returned(WordlistError));
    }
    if |words| == 0 && |passphrase| == 0 {
      return Err(Returned(EmptyError));
    }
    if |words| !in ValidLengths {
      return Err(Returned(MnemonicLengthError));
    }
    if |passphrase| > MaxPassphrase {
      return Err(Returned(PassphraseError));
    }
    var ix, binStr, bad := WordIndexBits(wordlist, words);
    if bad.Some? {
      return Err(Returned(InvalidWordError + bad.value));
    }
    var hexStr := Pack(ix, |words|, binStr, passphrase);
    var partsHex := Sharing.Share(c, hexStr, n, m, 0, rng);
    if partsHex.Err? {
      return Err(Thrown(partsHex.error));
    }
    SharesDecode(c, hexStr, n, m, 0, rng);
    var mnemonics := WriteShares(wordlist, m, partsHex.value);
    return Ok(mnemonics);
  }

  /**
   * The word loop of `this.split`: every word's index in eleven digits,
   * one after the other, or the first word that is not in the list.
   */
  method WordIndexBits(wordlist: seq<string>, words: seq<string>) returns (ghost ix: seq<nat>, binStr: Bits, bad: Option<string>)
    requires |wordlist| == ListSize
    ensures bad.None? <==> KnownPrefix(wordlist, words) == |words|
    ensures bad.Some? ==> bad.value == words[KnownPrefix(wordlist, words)]
    ensures bad.None? ==> ix == IndexAll(wordlist, words) && binStr == Codes(ix, 11)
  {
    ix, binStr, bad := [], [], None;
    for i := 0 to |words|
      invariant forall k :: 0 <= k < i ==> words[k] in wordlist
      invariant ix == IndexAll(wordlist, words[..i])
      invariant binStr == Codes(ix, 11)
    {
      var w := words[i];
      var index := IndexOf(wordlist, w);
      if index.None? {
        KnownPrefixAt(wordlist, words, i);
        bad := Some(w);
        return;
      }
      var bits := Lpad(Binary(index.value), 11);
      CodesStep(ix, index.value);
      IndexAllSnoc(wordlist, words, i);
      ix := ix + [index.value];
      binStr := binStr + bits;
    }
    KnownPrefixAt(wordlist, words, |words|);
    assert words[..|words|] == words;
  }

  /** Looking up one more word appends its position. */
  lemma IndexAllSnoc(wordlist: seq<string>, words: seq<string>, i: nat)
    requires i < |words| && forall k :: 0 <= k <= i ==> words[k] in wordlist
    ensures IndexAll(wordlist, words[..i + 1]) == IndexAll(wordlist, words[..i]) + [IndexOf(wordlist, words[i]).value]
  {
    var a, b := IndexAll(wordlist, words[..i + 1]), IndexAll(wordlist, words[..i]) + [IndexOf(wordlist, words[i]).value];
    forall k | 0 <= k < i + 1
      ensures a[k] == b[k]
    {
      assert words[..i + 1][k] == words[k];
      if k < i {
        assert words[..i][k] == words[k];
      }
    }
  }

  /** The first `i` words are in the list and the next is not. */
  lemma KnownPrefixAt(wordlist: seq<string>, words: seq<string>, i: nat)
    requires i <= |words| && forall k :: 0 <= k < i ==> words[k] in wordlist
    requires i < |words| ==> words[i] !in wordlist
    ensures KnownPrefix(wordlist, words) == i
  {
  }

  /** One more index below 2048 appends its eleven-digit `lpad` form. */
  lemma CodesStep(ix: seq<nat>, v: nat)
    requires v < ListSize
    ensures Codes(ix + [v], 11) == Codes(ix, 11) + LeftPad(Binary(v), 11)
  {
    assert Pow2(11) == ListSize;
    LpadBinary(v, 11);
    CodesAppend(ix, [v], 11);
    assert Codes([v], 11) == ToBits(v, 11) + Codes([], 11);
  }

  /** The mnemonics loop of `this.split`. */
  method WriteShares(wordlist: seq<string>, m: nat, partsHex: seq<string>) returns (mnemonics: seq<seq<string>>)
    requires |wordlist| == ListSize
    requires forall t :: 0 <= t < |partsHex| ==> HexToBits(partsHex[t]).Some?
    ensures mnemonics == ShareAll(wordlist, m, partsHex, |partsHex|)
  {
    mnemonics := [];
    for o := 0 to |partsHex|
      invariant mnemonics == ShareAll(wordlist, m, partsHex, o)
    {
      var mnemonic := WriteShare(wordlist, m, o, partsHex[o]);
      mnemonics := mnemonics + [mnemonic];
    }
  }

  /** Share `o` as words: the version word, its parameter words and its digits as words. */
  method WriteShare(wordlist: seq<string>, m: nat, o: nat, partHex: string) returns (mnemonic: seq<string>)
    requires |wordlist| == ListSize && HexToBits(partHex).Some?
    ensures mnemonic == ShareWords(wordlist, m, o, partHex)
  {
    mnemonic := [Version];
    var parametersBin := ParamsToBinaryStr(m, o);
    var paramsWords := BinToMnemonic(parametersBin, wordlist);
    mnemonic := mnemonic + paramsWords;
    var partBin := Hex2Bin(partHex);
    var partWords := BinToMnemonic(partBin.value, wordlist);
    mnemonic := mnemonic + partWords;
  }

  // ---------------------------------------------------------------------
  // Combining

  /** What `this.combine` reads from one mnemonic: the threshold, the share's index (NaN is `None`) and its hex digits. */
  datatype PartRead = PartRead(m: nat, o: Option<nat>, hex: string)

  /** The payload loop's digits: each word's index in eleven digits (more past 2047), one after the other. */
  function IndexBits(ix: seq<nat>): Bits
  {
    if ix == [] then [] else IndexBits(ix[..|ix| - 1]) + LeftPad(Binary(ix[|ix| - 1]), 11)
  }

  /** Indices below 2048 give their eleven-digit codes. */
  lemma {:induction false} IndexBitsCodes(ix: seq<nat>)
    requires forall k :: 0 <= k < |ix| ==> ix[k] < ListSize
    ensures IndexBits(ix) == Codes(ix, 11)
    decreases |ix|
  {
    if ix != [] {
      var init := ix[..|ix| - 1];
      IndexBitsCodes(init);
      assert Pow2(11) == ListSize;
      LpadBinary(ix[|ix| - 1], 11);
      CodesAppend(init, [ix[|ix| - 1]], 11);
      assert Codes([ix[|ix| - 1]], 11) == ToBits(ix[|ix| - 1], 11) + Codes([], 11);
      assert init + [ix[|ix| - 1]] == ix;
    }
  }

  /**
   * The share's hex digits from its words: every word must be in the list;
   * the words' indices, eleven digits each, lose their first `|bin| % 4`
   * digits and are written in hex.
   */
  function PayloadHex(wordlist: seq<string>, payload: seq<string>): Result<string, string>
  {
    var known := KnownPrefix(wordlist, payload);
    if known < |payload| then Err(UnknownWordError + payload[known])
    else Ok(BitsToHex(TrimToNibbles(IndexBits(IndexAll(wordlist, payload)))))
  }

  /** The words after the parameter words; none when the parameters end the mnemonic. */
  function Payload(words: seq<string>, end: nat): seq<string>
  {
    if end + 1 <= |words| then words[end + 1..] else []
  }

  /**
   * One pass of the loop of `this.combine` over mnemonics: the version
   * word, the parameter words, the threshold (which must be a number and,
   * once one is known, the one `required`) and the share's digits.
   */
  function ReadPart(wordlist: seq<string>, words: seq<string>, required: int): Result<PartRead, string>
  {
    if |words| == 0 || words[0] != Version then Err(VersionError)
    else match ReadParams(wordlist, words, 1, [], [])
      case Err(e) => Err(e)
      case Ok(params) =>
        var m, o := ParseBinary(params.mBits), ParseBinary(params.oBits);
        if m.None? || (required != -1 && m.value != required) then Err(ThresholdMismatchError)
        else match PayloadHex(wordlist, Payload(words, params.end))
          case Err(e) => Err(e)
          case Ok(hex) => Ok(PartRead(m.value, o, hex))
  }

  /** JavaScript array indices are below 2^32 - 1; a larger `o` sets a property, not an entry. */
  const ArrayIndexLimit := 0xFFFF_FFFF

  /** An array of `n` holes, each read as `undefined`; here the empty string, which is as falsy. */
  function Holes(n: nat): (h: seq<string>)
    ensures |h| == n && forall i :: 0 <= i < n ==> h[i] == ""
  {
    seq(n, _ => "")
  }

  /** `hexParts[o] = partHex`: a later share with the same index replaces an earlier one. */
  function Place(hexParts: seq<string>, o: Option<nat>, v: string): (r: seq<string>)
    ensures o.None? || o.value >= ArrayIndexLimit ==> r == hexParts
    ensures o.Some? && o.value < ArrayIndexLimit ==>
      && |r| == (if o.value < |hexParts| then |hexParts| else o.value + 1)
      && r[o.value] == v
      && forall k :: 0 <= k < |r| && k != o.value ==> r[k] == if k < |hexParts| then hexParts[k] else ""
  {
    if o.None? || o.value >= ArrayIndexLimit then hexParts
    else if o.value < |hexParts| then hexParts[o.value := v]
    else hexParts + Holes(o.value - |hexParts|) + [v]
  }

  /** The loop of `this.combine` over mnemonics from mnemonic `i` on, with the shares placed and the threshold read so far. */
  function CollectParts(wordlist: seq<string>, parts: seq<seq<string>>, i: nat, hexParts: seq<string>, required: int)
    : Result<(seq<string>, int), string>
    requires i <= |parts|
    decreases |parts| - i
  {
    if i == |parts| then Ok((hexParts, required))
    else match ReadPart(wordlist, parts[i], required)
      case Err(e) => Err(e)
      case Ok(p) => CollectParts(wordlist, parts, i + 1, Place(hexParts, p.o, p.hex), p.m)
  }

  /**
   * The "remove missing parts" loop: every nonempty entry, in order of
   * position, with id `position + 1`.
   */
  function Clean(hexParts: seq<string>): (shares: seq<Sharing.SharePart>)
    ensures |shares| <= |hexParts|
    ensures forall k :: 0 <= k < |shares| ==>
      1 <= shares[k].id <= |hexParts| && shares[k].part != "" && hexParts[shares[k].id - 1] == shares[k].part
    ensures forall k, l :: 0 <= k < l < |shares| ==> shares[k].id < shares[l].id
  {
    if hexParts == [] then []
    else
      var last := hexParts[|hexParts| - 1];
      var rest := Clean(hexParts[..|hexParts| - 1]);
      if last != "" then rest + [Sharing.SharePart(|hexParts|, last)] else rest
  }

  /**
   * What `this.combine(parts, wordlist)` returns: the mnemonics are read,
   * too few distinct shares are refused, the shares are combined and the
   * secret is unpacked into the words and the passphrase.
   */
  function CombineSpec(c: Config, parts: seq<seq<string>>, wordlist: seq<string>): Result<Recovery, Failure>
    requires Valid(c) && c.bits == 12
  {
    match CollectParts(wordlist, parts, 0, [], -1)
    case Err(e) => Err(Returned(e))
    case Ok((hexParts, required)) =>
      var clean := Clean(hexParts);
      if |clean| < required then Err(Returned(NotEnoughError + Decimal(required as nat)))
      else match Sharing.CombineSpec(c, 0, clean)
        case Err(e) => Err(Thrown(e))
        case Ok(secretHex) => ReadSecret(wordlist, secretHex)
  }

  /** `this.combine`: read every mnemonic, drop the missing positions, combine and unpack. */
  method Combine(c: Config, parts: seq<seq<string>>, wordlist: seq<string>) returns (r: Result<Recovery, Failure>)
    requires Valid(c) && c.bits == 12
    ensures r == CombineSpec(c, parts, wordlist)
  {
    var hexParts: seq<string> := [];
    var requiredParts: int := -1;
    for i := 0 to |parts|
      invariant CollectParts(wordlist, parts, i, hexParts, requiredParts) == CollectParts(wordlist, parts, 0, [], -1)
    {
      var part := ReadPartWords(wordlist, parts[i], requiredParts);
      if part.Err? {
        return Err(Returned(part.error));
      }
      hexParts := Place(hexParts, part.value.o, part.value.hex);
      requiredParts := part.value.m;
    }
    var partsClean := CleanParts(hexParts);
    if |partsClean| < requiredParts {
      return Err(Returned(NotEnoughError + Decimal(requiredParts as nat)));
    }
    var secretHex := Sharing.Combine(c, 0, partsClean);
    if secretHex.Err? {
      return Err(Thrown(secretHex.error));
    }
    r := Unpack(wordlist, secretHex.value);
  }

  /** The body of the loop of `this.combine` over mnemonics. */
  method ReadPartWords(wordlist: seq<string>, words: seq<string>, required: int) returns (r: Result<PartRead, string>)
    ensures r == ReadPart(wordlist, words, required)
  {
    if |words| == 0 || words[0] != Version {
      return Err(VersionError);
    }
    var params := ReadParamWords(wordlist, words);
    if params.Err? {
      return Err(params.error);
    }
    var m := ParseBinary(params.value.mBits);
    var o := ParseBinary(params.value.oBits);
    if m.None? || (required != -1 && m.value != required) {
      return Err(ThresholdMismatchError);
    }
    var partHex := ReadPayload(wordlist, words, params.value.end);
    if partHex.Err? {
      return Err(partHex.error);
    }
    return Ok(PartRead(m.value, o, partHex.value));
  }

  /** The payload loop of `this.combine`, then the trim to whole hex digits and `bin2hex`. */
  method ReadPayload(wordlist: seq<string>, words: seq<string>, end: nat) returns (r: Result<string, string>)
    ensures r == PayloadHex(wordlist, Payload(words, end))
  {
    ghost var payload := Payload(words, end);
    ghost var ix: seq<nat> := [];
    var partBin: Bits := [];
    var j := end + 1;
    while j < |words|
      invariant |ix| <= |payload| && j == end + 1 + |ix|
      invariant forall k :: 0 <= k < |ix| ==> payload[k] in wordlist && ix[k] == IndexOf(wordlist, payload[k]).value
      invariant partBin == IndexBits(ix)
      decreases |words| - j
    {
      var word := words[j];
      assert word == payload[|ix|];
      var wordIndex := IndexOf(wordlist, word);
      if wordIndex.None? {
        KnownPrefixAt(wordlist, payload, |ix|);
        return Err(UnknownWordError + word);
      }
      var wordBin := Lpad(Binary(wordIndex.value), 11);
      IndexBitsSnoc(ix, wordIndex.value);
      ix := ix + [wordIndex.value];
      partBin := partBin + wordBin;
      j := j + 1;
    }
    KnownPrefixAt(wordlist, payload, |ix|);
    IndexAllOf(wordlist, payload, ix);
    var partHex := TrimmedHex(partBin);
    return Ok(partHex);
  }

  /** One more index appends its eleven-digit form. */
  lemma IndexBitsSnoc(ix: seq<nat>, v: nat)
    ensures IndexBits(ix + [v]) == IndexBits(ix) + LeftPad(Binary(v), 11)
  {
    assert (ix + [v])[..|ix|] == ix;
  }

  /** Indices found one word at a time are the indices of all the words. */
  lemma IndexAllOf(wordlist: seq<string>, words: seq<string>, ix: seq<nat>)
    requires |ix| == |words|
    requires forall k :: 0 <= k < |ix| ==> words[k] in wordlist && ix[k] == IndexOf(wordlist, words[k]).value
    ensures IndexAll(wordlist, words) == ix
  {
  }

  /** The trim of the share's binary digits to whole hex digits, then `bin2hex`. */
  method TrimmedHex(partBin: Bits) returns (partHex: string)
    ensures partHex == BitsToHex(TrimToNibbles(partBin))
  {
    var hexChars := |partBin| / 4 * 4;
    var diff := |partBin| - hexChars;
    var trimmed := Substring(partBin, diff, |partBin|);
    partHex := Bin2Hex(trimmed);
  }

  /** The "remove missing parts" loop of `this.combine`. */
  method CleanParts(hexParts: seq<string>) returns (partsClean: seq<Sharing.SharePart>)
    ensures partsClean == Clean(hexParts)
  {
    partsClean := [];
    for i := 0 to |hexParts|
      invariant partsClean == Clean(hexParts[..i])
    {
      assert hexParts[..i + 1][..i] == hexParts[..i];
      if hexParts[i] != "" {
        partsClean := partsClean + [Sharing.SharePart(i + 1, hexParts[i])];
      }
    }
    assert hexParts[..|hexParts|] == hexParts;
  }

  // ---------------------------------------------------------------------
  // What splitting promises

  /**
   * `this.split` succeeds exactly when the threshold and the share count
   * are in 2..4095, the list has 2048 words, there are words or a
   * passphrase, the word count is supported, the passphrase has at most
   * 256 units and every word is in the list; every refusal is a returned
   * error, and a success has one mnemonic per share.
   */
  lemma SplitOutcome(c: Config, words: seq<string>, passphrase: Text, wordlist: seq<string>, m: int, n: int, rng: Sharing.Rng)
    requires Valid(c) && c.bits == 12 && Sharing.RngInField(c, rng)
    ensures var r := SplitSpec(c, words, passphrase, wordlist, m, n, rng);
      && (r.Ok? <==>
            && 2 <= m <= MaxShares && 2 <= n <= MaxShares
            && |wordlist| == ListSize
            && (|words| > 0 || |passphrase| > 0)
            && |words| in ValidLengths
            && |passphrase| <= MaxPassphrase
            && forall k :: 0 <= k < |words| ==> words[k] in wordlist)
      && (r.Err? ==> r.error.Returned?)
      && (r.Ok? ==> |r.value| == n)
  {
    var known := KnownPrefix(wordlist, words);
    if known == |words| && |words| in ValidLengths && 2 <= m <= MaxShares && 2 <= n <= MaxShares && |wordlist| == ListSize {
      var hexStr := SecretHex(IndexAll(wordlist, words), passphrase);
      HexBinRoundTrip(hexStr);
      SharesOk(c, hexStr, n, m, rng);
    }
  }

  /** With both counts in 2..4095 and a hex secret, `share` succeeds with `n` shares. */
  lemma SharesOk(c: Config, hexStr: string, n: int, m: int, rng: Sharing.Rng)
    requires Valid(c) && c.bits == 12 && Sharing.RngInField(c, rng) && HexToBits(hexStr).Some?
    requires 2 <= m <= MaxShares && 2 <= n <= MaxShares
    ensures Sharing.ShareSpec(c, hexStr, n, m, 0, rng).Ok?
    ensures |Sharing.ShareSpec(c, hexStr, n, m, 0, rng).value| == n
  {
    TwelveBits(c);
  }

  /** Every share `share` returns is nonempty lower-case hex. */
  lemma SharesLowerHex(c: Config, secret: string, n: nat, m: nat, rng: Sharing.Rng, t: nat)
    requires Valid(c) && c.bits == 12 && Sharing.RngInField(c, rng) && IsLowerHex(secret)
    requires 2 <= m <= c.max && 2 <= n <= c.max && t < n
    ensures Sharing.ShareSpec(c, secret, n, m, 0, rng).Ok?
    ensures var parts := Sharing.ShareSpec(c, secret, n, m, 0, rng).value;
      |parts| == n && IsLowerHex(parts[t]) && |parts[t]| > 0
  {
    HexBinRoundTrip(secret);
    var chunks := Chunks(Sharing.SecretBits(HexToBits(secret).value, 0), c.bits);
    var parts := Sharing.ShareStrings(c, chunks, m, rng, n);
    assert Sharing.ShareSpec(c, secret, n, m, 0, rng) == Ok(parts);
    var vs := Sharing.ShareValues(c, chunks, m, rng, t + 1);
    var a := Assemble(vs, c.bits);
    assert parts[t] == BitsToHex(a);
    assert a == Assemble(vs[1..], c.bits) + ToBits(vs[0], c.bits);
    assert |PadLeft(a, 4)| >= 4;
  }

  // ---------------------------------------------------------------------
  // Reading one mnemonic back

  /**
   * The '0' hex digits a share of `n` digits comes back with: `binToMnemonic`
   * puts fewer than eleven zeros in front, and the trim in `this.combine`
   * keeps those that make whole hex digits.
   */
  function ExtraDigits(n: nat): (j: nat)
    ensures j <= 2
  {
    var missing := n % 11;
    var z := if missing != 0 then 11 - missing else 0;
    z / 4
  }

  /** The words at indices of a list without repeats are in it, and looking them up gives the indices. */
  lemma NamesIndexed(wordlist: seq<string>, ix: seq<nat>)
    requires DistinctWords(wordlist) && forall k :: 0 <= k < |ix| ==> ix[k] < |wordlist|
    ensures forall k :: 0 <= k < |ix| ==> Names(wordlist, ix)[k] in wordlist
    ensures IndexAll(wordlist, Names(wordlist, ix)) == ix
  {
    var ws := Names(wordlist, ix);
    forall k | 0 <= k < |ix|
      ensures ws[k] in wordlist && IndexOf(wordlist, ws[k]) == Some(ix[k])
    {
      assert ws[k] == wordlist[ix[k]];
      IndexOfDistinct(wordlist, ix[k]);
    }
  }

  /**
   * The payload words `binToMnemonic` writes for whole hex digits `b` read
   * back as `b` in hex, behind the '0' digits its padding leaves after the trim.
   */
  lemma PayloadBack(wordlist: seq<string>, b: Bits)
    requires |wordlist| == ListSize && DistinctWords(wordlist) && |b| % 4 == 0
    ensures PayloadHex(wordlist, BinToMnemonicSpec(b, wordlist)) == Ok(ZeroDigits(ExtraDigits(|b|)) + BitsToHex(b))
  {
    PayloadWords(wordlist, PadLeft(b, 11));
    TrimPadded(b);
  }

  /** Words of the list, written for whole eleven-digit groups `t`, read back as the trimmed `t` in hex. */
  lemma PayloadWords(wordlist: seq<string>, t: Bits)
    requires |wordlist| == ListSize && DistinctWords(wordlist) && |t| % 11 == 0
    ensures PayloadHex(wordlist, Names(wordlist, Indices(t))) == Ok(BitsToHex(TrimToNibbles(t)))
  {
    var ix := Indices(t);
    var ws := Names(wordlist, ix);
    NamesIndexed(wordlist, ix);
    KnownPrefixAt(wordlist, ws, |ws|);
    IndexBitsCodes(ix);
    CodesOfIndices(t);
  }

  /** Trimming whole hex digits `b` padded to eleven-digit groups leaves '0' digits in front of `b` in hex. */
  lemma TrimPadded(b: Bits)
    requires |b| % 4 == 0
    ensures BitsToHex(TrimToNibbles(PadLeft(b, 11))) == ZeroDigits(ExtraDigits(|b|)) + BitsToHex(b)
  {
    PadLeftZeros(b, 11);
    var z := |PadLeft(b, 11)| - |b|;
    assert z / 4 == ExtraDigits(|b|);
    TrimZeros(b, z);
    assert z - z % 4 == 4 * (z / 4);
    ZeroDigitsHex(z / 4, b);
  }

  /**
   * After the version word, the parameter words `this.split` writes read
   * back as the padded digits of `m` and `o`, ending at the last of them,
   * whatever words follow.
   */
  lemma ParamsBack(wordlist: seq<string>, m: nat, o: nat, rest: seq<string>)
    requires |wordlist| == ListSize && DistinctWords(wordlist)
    ensures var p := BinToMnemonicSpec(ParamsBits(m, o), wordlist);
      var (mp, op) := PaddedParams(m, o);
      && ReadParams(wordlist, [Version] + p + rest, 1, [], []) == Ok(ParamsRead(mp, op, |p|))
      && ParseBinary(mp) == Some(m) && ParseBinary(op) == Some(o)
  {
    var (mp, op) := PaddedParams(m, o);
    var g := ParamGroups(mp, op);
    ParamsWords(m, o);
    var p := BinToMnemonicSpec(ParamsBits(m, o), wordlist);
    var words := [Version] + p + rest;
    assert p == Names(wordlist, Values(g));
    forall i | 0 <= i < |g|
      ensures Value(g[i]) < ListSize && words[i + 1] == wordlist[Value(g[i])]
    {
      assert words[i + 1] == p[i];
      assert Values(g)[i] == Value(g[i]);
    }
    ReadParamsBack(wordlist, words, m, o);
  }

  /**
   * A mnemonic `this.split` writes for share `o` of threshold `m` reads back
   * as `m`, `o` and the share's hex digits behind at most two '0' digits.
   */
  lemma ShareWordsBack(wordlist: seq<string>, m: nat, o: nat, partHex: string, required: int)
    requires |wordlist| == ListSize && DistinctWords(wordlist) && WrittenHex(partHex)
    requires required == -1 || required == m
    ensures HexToBits(partHex).Some?
    ensures ReadPart(wordlist, ShareWords(wordlist, m, o, partHex), required)
      == Ok(PartRead(m, Some(o), ZeroDigits(ExtraDigits(4 * |partHex|)) + partHex))
  {
    var b := HexToBits(partHex).value;
    ShareWordsOf(wordlist, m, o, partHex, b);
    BitsWordsBack(wordlist, m, o, b, required);
    SameDigits(partHex, b);
  }

  lemma SameDigits(partHex: string, b: Bits)
    requires HexToBits(partHex) == Some(b) && BitsToHex(b) == partHex
    ensures ZeroDigits(ExtraDigits(|b|)) + BitsToHex(b) == ZeroDigits(ExtraDigits(4 * |partHex|)) + partHex
  {
  }

  lemma ShareWordsOf(wordlist: seq<string>, m: nat, o: nat, partHex: string, b: Bits)
    requires |wordlist| == ListSize && HexToBits(partHex) == Some(b)
    ensures ShareWords(wordlist, m, o, partHex) == [Version] + BinToMnemonicSpec(ParamsBits(m, o), wordlist) + BinToMnemonicSpec(b, wordlist)
  {
  }

  /** The same, for the share's bits: `m`, `o` and the bits' hex digits behind at most two '0' digits. */
  lemma BitsWordsBack(wordlist: seq<string>, m: nat, o: nat, b: Bits, required: int)
    requires |wordlist| == ListSize && DistinctWords(wordlist) && |b| % 4 == 0
    requires required == -1 || required == m
    ensures ReadPart(wordlist, [Version] + BinToMnemonicSpec(ParamsBits(m, o), wordlist) + BinToMnemonicSpec(b, wordlist), required)
      == Ok(PartRead(m, Some(o), ZeroDigits(ExtraDigits(|b|)) + BitsToHex(b)))
  {
    var p := BinToMnemonicSpec(ParamsBits(m, o), wordlist);
    var w := BinToMnemonicSpec(b, wordlist);
    ParamsBack(wordlist, m, o, w);
    PayloadBack(wordlist, b);
    var words := [Version] + p + w;
    assert Payload(words, |p|) == w;
    var (mp, op) := PaddedParams(m, o);
    ReadPartOf(wordlist, words, ParamsRead(mp, op, |p|), m, o, required, ZeroDigits(ExtraDigits(|b|)) + BitsToHex(b));
  }

  /** A mnemonic whose parameter words and payload words each read back reads back as a whole. */
  lemma ReadPartOf(wordlist: seq<string>, words: seq<string>, params: ParamsRead, m: nat, o: nat, required: int, hex: string)
    requires required == -1 || required == m
    requires |words| > 0 && words[0] == Version
    requires ReadParams(wordlist, words, 1, [], []) == Ok(params)
    requires ParseBinary(params.mBits) == Some(m) && ParseBinary(params.oBits) == Some(o)
    requires PayloadHex(wordlist, Payload(words, params.end)) == Ok(hex)
    ensures ReadPart(wordlist, words, required) == Ok(PartRead(m, Some(o), hex))
  {
  }

  // ---------------------------------------------------------------------
  // What combining promises

  /** A mnemonic that reads with one threshold reads the same with the threshold it carries, or with none known yet. */
  lemma ReadPartRequired(wordlist: seq<string>, words: seq<string>, r1: int, r2: int)
    requires ReadPart(wordlist, words, r1).Ok?
    requires r2 == -1 || r2 == ReadPart(wordlist, words, r1).value.m
    ensures ReadPart(wordlist, words, r2) == ReadPart(wordlist, words, r1)
  {
  }

  /** What a mnemonic reads as does not depend on the threshold it is checked against. */
  lemma ReadPartSame(wordlist: seq<string>, words: seq<string>, r1: int, r2: int)
    requires ReadPart(wordlist, words, r1).Ok? && ReadPart(wordlist, words, r2).Ok?
    ensures ReadPart(wordlist, words, r1) == ReadPart(wordlist, words, r2)
  {
  }

  /** The mnemonic reads with threshold `m` and carries `m` itself. */
  predicate Carries(wordlist: seq<string>, words: seq<string>, m: int)
  {
    ReadPart(wordlist, words, m).Ok? && ReadPart(wordlist, words, m).value.m == m
  }

  /** One successful step of the loop over mnemonics. */
  lemma CollectStep(wordlist: seq<string>, parts: seq<seq<string>>, i: nat, hexParts: seq<string>, required: int)
    requires i < |parts| && CollectParts(wordlist, parts, i, hexParts, required).Ok?
    ensures ReadPart(wordlist, parts[i], required).Ok?
    ensures var p := ReadPart(wordlist, parts[i], required).value;
      CollectParts(wordlist, parts, i, hexParts, required) == CollectParts(wordlist, parts, i + 1, Place(hexParts, p.o, p.hex), p.m)
  {
  }

  /** A mnemonic read with the threshold it carries, and carrying `r` as well, carries exactly that threshold. */
  lemma CarriesOnly(wordlist: seq<string>, words: seq<string>, m: nat, r: int)
    requires ReadPart(wordlist, words, m).Ok? && Carries(wordlist, words, r)
    ensures r == m
  {
    ReadPartSame(wordlist, words, m, r);
  }

  /**
   * When the loop over mnemonics from `i` on succeeds, every one of those
   * mnemonics reads with the threshold the loop ends with, and carries it.
   */
  lemma {:induction false} CollectAccepts(wordlist: seq<string>, parts: seq<seq<string>>, i: nat, hexParts: seq<string>, required: int)
    requires i <= |parts| && CollectParts(wordlist, parts, i, hexParts, required).Ok?
    ensures var r := CollectParts(wordlist, parts, i, hexParts, required).value.1;
      && (i == |parts| ==> r == required)
      && (i < |parts| ==> r >= 0)
      && forall k :: i <= k < |parts| ==> Carries(wordlist, parts[k], r)
    decreases |parts| - i
  {
    if i < |parts| {
      CollectStep(wordlist, parts, i, hexParts, required);
      var p := ReadPart(wordlist, parts[i], required).value;
      var hp := Place(hexParts, p.o, p.hex);
      CollectAccepts(wordlist, parts, i + 1, hp, p.m);
      var r := CollectParts(wordlist, parts, i + 1, hp, p.m).value.1;
      if i + 1 < |parts| {
        CollectStep(wordlist, parts, i + 1, hp, p.m);
        CarriesOnly(wordlist, parts[i + 1], p.m, r);
      }
      ReadPartRequired(wordlist, parts[i], required, r);
      assert Carries(wordlist, parts[i], r);
      forall k | i <= k < |parts|
        ensures Carries(wordlist, parts[k], r)
      {
        if k > i {
          assert i + 1 <= k < |parts|;
        }
      }
    }
  }

  /**
   * A combine that succeeds was given mnemonics that all start with the
   * version word, all read with the same threshold `m` and carry it, and
   * that hold at least `m` distinct share positions.
   */
  lemma CombineAccepts(c: Config, parts: seq<seq<string>>, wordlist: seq<string>)
    requires Valid(c) && c.bits == 12
    requires CombineSpec(c, parts, wordlist).Ok?
    ensures CollectParts(wordlist, parts, 0, [], -1).Ok?
    ensures var (hexParts, m) := CollectParts(wordlist, parts, 0, [], -1).value;
      && |Clean(hexParts)| >= m
      && forall i :: 0 <= i < |parts| ==>
        && |parts[i]| > 0 && parts[i][0] == Version
        && Carries(wordlist, parts[i], m)
  {
    CollectAccepts(wordlist, parts, 0, [], -1);
  }

  // ---------------------------------------------------------------------
  // Reading several mnemonics back

  /** Positions in strictly increasing order. */
  predicate Increasing(sel: seq<nat>)
  {
    forall k, l :: 0 <= k < l < |sel| ==> sel[k] < sel[l]
  }

  /** `hexParts` after placing `vals[k]` at position `sel[k]`, in order. */
  ghost function Layout(sel: seq<nat>, vals: seq<string>): seq<string>
    requires |sel| == |vals|
    decreases |sel|
  {
    if sel == [] then []
    else Place(Layout(sel[..|sel| - 1], vals[..|vals| - 1]), Some(sel[|sel| - 1]), vals[|vals| - 1])
  }

  lemma LayoutSnoc(sel: seq<nat>, vals: seq<string>, i: nat)
    requires |sel| == |vals| && i < |sel|
    ensures Layout(sel[..i + 1], vals[..i + 1]) == Place(Layout(sel[..i], vals[..i]), Some(sel[i]), vals[i])
  {
    assert sel[..i + 1][..i] == sel[..i];
    assert vals[..i + 1][..i] == vals[..i];
  }

  /**
   * The loop over mnemonics, from mnemonic `i` on, when every mnemonic
   * reads as threshold `m`, position `sel[k]` and digits `vals[k]`.
   */
  lemma {:induction false} CollectFrom(wordlist: seq<string>, picked: seq<seq<string>>, sel: seq<nat>, vals: seq<string>, m: nat, i: nat)
    requires |picked| == |sel| == |vals| && 1 <= |sel| && i <= |sel|
    requires forall k :: 0 <= k < |sel| ==>
      && ReadPart(wordlist, picked[k], -1) == Ok(PartRead(m, Some(sel[k]), vals[k]))
      && ReadPart(wordlist, picked[k], m) == Ok(PartRead(m, Some(sel[k]), vals[k]))
    ensures CollectParts(wordlist, picked, i, Layout(sel[..i], vals[..i]), if i == 0 then -1 else m)
      == Ok((Layout(sel, vals), m))
    decreases |sel| - i
  {
    if i < |sel| {
      CollectFrom(wordlist, picked, sel, vals, m, i + 1);
      LayoutSnoc(sel, vals, i);
    } else {
      assert sel[..i] == sel && vals[..i] == vals;
    }
  }

  /** Trailing holes add no share. */
  lemma {:induction false} CleanHoles(x: seq<string>, d: nat)
    ensures Clean(x + Holes(d)) == Clean(x)
    decreases d
  {
    if d > 0 {
      CleanHoles(x, d - 1);
      assert (x + Holes(d))[..|x + Holes(d)| - 1] == x + Holes(d - 1);
    } else {
      assert x + Holes(d) == x;
    }
  }

  /** A nonempty entry at the end is the last share, with id its position plus one. */
  lemma CleanSnoc(y: seq<string>, v: string)
    requires v != ""
    ensures Clean(y + [v]) == Clean(y) + [Sharing.SharePart(|y| + 1, v)]
  {
    assert (y + [v])[..|y|] == y;
  }

  /** The shares `vals` at ids `sel[k] + 1`. */
  function Spread(sel: seq<nat>, vals: seq<string>): (shares: seq<Sharing.SharePart>)
    requires |sel| == |vals|
    ensures |shares| == |sel|
  {
    seq(|sel|, k requires 0 <= k < |sel| => Sharing.SharePart(sel[k] + 1, vals[k]))
  }

  /** Placing nonempty digits past the end adds one share, with id the position plus one. */
  lemma CleanPlace(x: seq<string>, o: nat, v: string)
    requires |x| <= o < ArrayIndexLimit && v != ""
    ensures |Place(x, Some(o), v)| == o + 1
    ensures Clean(Place(x, Some(o), v)) == Clean(x) + [Sharing.SharePart(o + 1, v)]
  {
    var d := o - |x|;
    assert Place(x, Some(o), v) == x + Holes(d) + [v];
    CleanSnoc(x + Holes(d), v);
    CleanHoles(x, d);
  }

  // ---------------------------------------------------------------------
  // Splitting, then combining

  /** The words, each found in the list. */
  function Present(words: seq<string>): (ws: seq<Option<string>>)
    ensures |ws| == |words| && forall k :: 0 <= k < |words| ==> ws[k] == Some(words[k])
  {
    seq(|words|, k requires 0 <= k < |words| => Some(words[k]))
  }

  /** The mnemonics at positions `sel`, in that order. */
  function Picked(ms: seq<seq<string>>, sel: seq<nat>): (ps: seq<seq<string>>)
    requires forall k :: 0 <= k < |sel| ==> sel[k] < |ms|
    ensures |ps| == |sel| && forall k :: 0 <= k < |sel| ==> ps[k] == ms[sel[k]]
  {
    seq(|sel|, k requires 0 <= k < |sel| => ms[sel[k]])
  }

  /**
   * Share `t` of a split, written as words, reads back as the threshold, `t`
   * and the share's digits behind as many '0' digits as every other share gets.
   */
  lemma ShareReadBack(c: Config, secret: string, n: nat, m: nat, rng: Sharing.Rng, wordlist: seq<string>, parts: seq<string>, t: nat)
    requires Valid(c) && c.bits == 12 && Sharing.RngInField(c, rng) && IsLowerHex(secret)
    requires 2 <= m <= MaxShares && 2 <= n <= MaxShares && t < n
    requires |wordlist| == ListSize && DistinctWords(wordlist)
    requires Sharing.ShareSpec(c, secret, n, m, 0, rng) == Ok(parts)
    ensures |parts| == n && HexToBits(parts[t]).Some?
    ensures var v := ZeroDigits(ExtraDigits(4 * |parts[0]|)) + parts[t];
      && v != ""
      && ReadPart(wordlist, ShareWords(wordlist, m, t, parts[t]), -1) == Ok(PartRead(m, Some(t), v))
      && ReadPart(wordlist, ShareWords(wordlist, m, t, parts[t]), m) == Ok(PartRead(m, Some(t), v))
  {
    TwelveBits(c);
    SharesLowerHex(c, secret, n, m, rng, t);
    RoundTrip.SharesSameLength(c, secret, n, m, 0, rng, t);
    HexBinRoundTrip(parts[t]);
    ShareWordsBack(wordlist, m, t, parts[t], -1);
    ShareWordsBack(wordlist, m, t, parts[t], m);
  }

  /**
   * The round trip of Shamir39: split a mnemonic and a passphrase into `n`
   * mnemonics with threshold `m`, hand any `m` or more distinct ones of them,
   * in any order, to combine, and the words and the passphrase come back;
   * a misread passphrase makes combine throw instead.
   */
  lemma SplitThenCombine(c: Config, words: seq<string>, passphrase: Text, wordlist: seq<string>, m: nat, n: nat,
                         rng: Sharing.Rng, sel: seq<nat>)
    requires Valid(c) && IsField(c) && c.bits == 12 && Sharing.RngInField(c, rng)
    requires |wordlist| == ListSize && DistinctWords(wordlist)
    requires |words| in ValidLengths && (|words| > 0 || |passphrase| > 0) && |passphrase| <= MaxPassphrase
    requires forall k :: 0 <= k < |words| ==> words[k] in wordlist
    requires 2 <= m <= |sel| && m <= n <= MaxShares
    requires Distinct(sel) && forall k :: 0 <= k < |sel| ==> sel[k] < n
    ensures SplitSpec(c, words, passphrase, wordlist, m, n, rng).Ok?
    ensures var ms := SplitSpec(c, words, passphrase, wordlist, m, n, rng).value;
      && |ms| == n
      && CombineSpec(c, Picked(ms, sel), wordlist)
        == if Misread(passphrase) then Err(Thrown(ReversedBomError)) else Ok(Recovery(Present(words), passphrase))
  {
    TwelveBits(c);
    KnownPrefixAt(wordlist, words, |words|);
    var ix := IndexAll(wordlist, words);
    var hexStr := SecretHex(ix, passphrase);
    SharesLowerHex(c, hexStr, n, m, rng, 0);
    var parts := Sharing.ShareSpec(c, hexStr, n, m, 0, rng).value;
    SharesDecode(c, hexStr, n, m, 0, rng);
    SplitResult(c, words, passphrase, wordlist, m, n, rng, parts);
    CombineShares(c, hexStr, n, m, rng, wordlist, parts, sel);
    ReadPacked(wordlist, ix, passphrase);
    LookupsPresent(wordlist, words);
  }

  /**
   * The passphrase DEL '?' '`' survives `this.split`, but any `m` of its
   * mnemonics make `this.combine` throw on the reversed marker.
   */
  lemma SplitThenCombineMisread(c: Config, words: seq<string>, wordlist: seq<string>, m: nat, n: nat,
                                rng: Sharing.Rng, sel: seq<nat>)
    requires Valid(c) && IsField(c) && c.bits == 12 && Sharing.RngInField(c, rng)
    requires |wordlist| == ListSize && DistinctWords(wordlist)
    requires |words| in ValidLengths && forall k :: 0 <= k < |words| ==> words[k] in wordlist
    requires 2 <= m <= |sel| && m <= n <= MaxShares
    requires Distinct(sel) && forall k :: 0 <= k < |sel| ==> sel[k] < n
    ensures SplitSpec(c, words, [127, 63, 96], wordlist, m, n, rng).Ok?
    ensures var ms := SplitSpec(c, words, [127, 63, 96], wordlist, m, n, rng).value;
      |ms| == n && CombineSpec(c, Picked(ms, sel), wordlist) == Err(Thrown(ReversedBomError))
  {
    var pass: Text := [127, 63, 96];
    assert Misread(pass) by {
      assert pass[..2] == [127, 63];
    }
    SplitThenCombine(c, words, pass, wordlist, m, n, rng, sel);
  }

  /** Looking up the positions of words in the list finds the words. */
  lemma LookupsPresent(wordlist: seq<string>, words: seq<string>)
    requires forall k :: 0 <= k < |words| ==> words[k] in wordlist
    ensures Lookups(wordlist, IndexAll(wordlist, words)) == Present(words)
  {
  }

  /** A split that passes every check returns share `o` written as words, for every share. */
  lemma SplitResult(c: Config, words: seq<string>, passphrase: Text, wordlist: seq<string>, m: nat, n: nat,
                    rng: Sharing.Rng, parts: seq<string>)
    requires Valid(c) && c.bits == 12 && Sharing.RngInField(c, rng)
    requires |wordlist| == ListSize
    requires |words| in ValidLengths && (|words| > 0 || |passphrase| > 0) && |passphrase| <= MaxPassphrase
    requires KnownPrefix(wordlist, words) == |words|
    requires 2 <= m <= MaxShares && 2 <= n <= MaxShares
    requires Sharing.ShareSpec(c, SecretHex(IndexAll(wordlist, words), passphrase), n, m, 0, rng) == Ok(parts)
    requires |parts| == n && forall t :: 0 <= t < |parts| ==> HexToBits(parts[t]).Some?
    ensures SplitSpec(c, words, passphrase, wordlist, m, n, rng) == Ok(ShareAll(wordlist, m, parts, n))
  {
  }

  /** Mnemonics picked at distinct positions of a split, in any order, combine to the shared secret. */
  lemma CombineShares(c: Config, secret: string, n: nat, m: nat, rng: Sharing.Rng, wordlist: seq<string>, parts: seq<string>,
                      sel: seq<nat>)
    requires Valid(c) && IsField(c) && c.bits == 12 && Sharing.RngInField(c, rng) && IsLowerHex(secret)
    requires |wordlist| == ListSize && DistinctWords(wordlist)
    requires 2 <= m <= |sel| && m <= n <= MaxShares
    requires Sharing.ShareSpec(c, secret, n, m, 0, rng) == Ok(parts) && |parts| == n
    requires forall t :: 0 <= t < |parts| ==> HexToBits(parts[t]).Some?
    requires Distinct(sel) && forall k :: 0 <= k < |sel| ==> sel[k] < n
    ensures CombineSpec(c, Picked(ShareAll(wordlist, m, parts, n), sel), wordlist) == ReadSecret(wordlist, secret)
  {
    var j := ExtraDigits(4 * |parts[0]|);
    var vals := seq(|sel|, k requires 0 <= k < |sel| => ZeroDigits(j) + parts[sel[k]]);
    var picked := Picked(ShareAll(wordlist, m, parts, n), sel);
    PickedCollect(c, secret, n, m, rng, wordlist, parts, sel, j, picked, vals);
    CombinePicked(c, secret, n, m, rng, wordlist, parts, sel, j, picked, vals);
  }

  /** Mnemonics picked at distinct positions of a split, in any order, are each read back and placed at their position. */
  lemma PickedCollect(c: Config, secret: string, n: nat, m: nat, rng: Sharing.Rng, wordlist: seq<string>, parts: seq<string>,
                      sel: seq<nat>, j: nat, picked: seq<seq<string>>, vals: seq<string>)
    requires Valid(c) && c.bits == 12 && Sharing.RngInField(c, rng) && IsLowerHex(secret)
    requires |wordlist| == ListSize && DistinctWords(wordlist)
    requires 2 <= m <= |sel| && m <= n <= MaxShares
    requires Sharing.ShareSpec(c, secret, n, m, 0, rng) == Ok(parts) && |parts| == n
    requires forall t :: 0 <= t < |parts| ==> HexToBits(parts[t]).Some?
    requires j == ExtraDigits(4 * |parts[0]|)
    requires forall k :: 0 <= k < |sel| ==> sel[k] < n
    requires |picked| == |sel| == |vals|
    requires forall k :: 0 <= k < |sel| ==> picked[k] == ShareAll(wordlist, m, parts, n)[sel[k]]
    requires forall k :: 0 <= k < |sel| ==> vals[k] == ZeroDigits(j) + parts[sel[k]]
    ensures CollectParts(wordlist, picked, 0, [], -1) == Ok((Layout(sel, vals), m))
    ensures forall k :: 0 <= k < |sel| ==> vals[k] != "" && sel[k] < ArrayIndexLimit
  {
    forall k | 0 <= k < |sel|
      ensures ReadPart(wordlist, picked[k], -1) == Ok(PartRead(m, Some(sel[k]), vals[k]))
      ensures ReadPart(wordlist, picked[k], m) == Ok(PartRead(m, Some(sel[k]), vals[k]))
      ensures vals[k] != "" && sel[k] < ArrayIndexLimit
    {
      ShareAllAt(wordlist, m, parts, n, sel[k]);
      ShareReadBack(c, secret, n, m, rng, wordlist, parts, sel[k]);
    }
    CollectFrom(wordlist, picked, sel, vals, m, 0);
    assert sel[..0] == [] && vals[..0] == [];
  }

  /** Combining mnemonics that read back as distinct positions of a split gives the shared secret. */
  lemma CombinePicked(c: Config, secret: string, n: nat, m: nat, rng: Sharing.Rng, wordlist: seq<string>, parts: seq<string>,
                      sel: seq<nat>, j: nat, picked: seq<seq<string>>, vals: seq<string>)
    requires Valid(c) && IsField(c) && c.bits == 12 && Sharing.RngInField(c, rng) && IsLowerHex(secret)
    requires 2 <= m <= |sel| && m <= n <= MaxShares
    requires Sharing.ShareSpec(c, secret, n, m, 0, rng) == Ok(parts) && |parts| == n
    requires Distinct(sel) && forall k :: 0 <= k < |sel| ==> sel[k] < n
    requires |picked| == |sel| == |vals|
    requires forall k :: 0 <= k < |sel| ==> vals[k] == ZeroDigits(j) + parts[sel[k]]
    requires forall k :: 0 <= k < |sel| ==> vals[k] != "" && sel[k] < ArrayIndexLimit
    requires CollectParts(wordlist, picked, 0, [], -1) == Ok((Layout(sel, vals), m))
    ensures CombineSpec(c, picked, wordlist) == ReadSecret(wordlist, secret)
  {
    var sorted := CleanWidened(parts, sel, vals, j);
    WidenedSecret(c, secret, n, m, rng, parts, sorted, j);
    CombineFrom(c, picked, wordlist, Layout(sel, vals), m, secret);
  }

  /**
   * Shares placed at distinct positions, in any order, clean to the same
   * widened shares at those positions, in increasing order of position.
   */
  lemma CleanWidened(parts: seq<string>, sel: seq<nat>, vals: seq<string>, j: nat) returns (sorted: seq<nat>)
    requires |sel| == |vals| && Distinct(sel)
    requires forall k :: 0 <= k < |sel| ==> sel[k] < |parts| && vals[k] == ZeroDigits(j) + parts[sel[k]]
    requires forall k :: 0 <= k < |sel| ==> vals[k] != "" && sel[k] < ArrayIndexLimit
    ensures |sorted| == |sel| && Increasing(sorted) && Distinct(sorted) && forall k :: 0 <= k < |sorted| ==> sorted[k] < |parts|
    ensures Clean(Layout(sel, vals)) == RoundTrip.Widened(parts, sorted, j)
  {
    var h := Layout(sel, vals);
    var want := seq(|parts|, i requires 0 <= i < |parts| => ZeroDigits(j) + parts[i]);
    LayoutValues(sel, vals, want);
    LayoutCount(sel, vals);
    var svals;
    sorted, svals := CleanSorted(h, want);
    assert forall k :: 0 <= k < |sorted| ==> svals[k] == ZeroDigits(j) + parts[sorted[k]];
    SpreadWidened(parts, sorted, j, svals);
  }

  /**
   * The shares left after removing the holes are at increasing positions,
   * each holding the `want` entry at its position when every nonempty entry does.
   */
  lemma CleanSorted(h: seq<string>, want: seq<string>) returns (sorted: seq<nat>, svals: seq<string>)
    requires forall i :: 0 <= i < |h| && h[i] != "" ==> i < |want| && h[i] == want[i]
    ensures |sorted| == |svals| == |Clean(h)| && Increasing(sorted) && Distinct(sorted)
    ensures forall k :: 0 <= k < |sorted| ==> sorted[k] < |want| && svals[k] == want[sorted[k]]
    ensures Clean(h) == Spread(sorted, svals)
  {
    var cs := Clean(h);
    sorted := seq(|cs|, k requires 0 <= k < |cs| => cs[k].id - 1);
    svals := seq(|cs|, k requires 0 <= k < |cs| => cs[k].part);
    forall k | 0 <= k < |cs|
      ensures sorted[k] < |want| && svals[k] == want[sorted[k]]
    {
      assert h[sorted[k]] == svals[k] != "";
    }
    assert cs == Spread(sorted, svals);
  }

  /** Every nonempty entry of a layout is the `want` entry at its position, when every placed share is. */
  lemma {:induction false} LayoutValues(sel: seq<nat>, vals: seq<string>, want: seq<string>)
    requires |sel| == |vals|
    requires forall k :: 0 <= k < |sel| ==> sel[k] < |want| && vals[k] == want[sel[k]]
    ensures forall i :: 0 <= i < |Layout(sel, vals)| && Layout(sel, vals)[i] != "" ==>
      i < |want| && Layout(sel, vals)[i] == want[i]
    decreases |sel|
  {
    if sel != [] {
      LayoutValues(sel[..|sel| - 1], vals[..|vals| - 1], want);
    }
  }

  /**
   * Every nonempty entry of a layout of nonempty shares is at a placed
   * position, and every placed position holds a nonempty entry.
   */
  lemma {:induction false} LayoutPositions(sel: seq<nat>, vals: seq<string>)
    requires |sel| == |vals|
    requires forall k :: 0 <= k < |sel| ==> vals[k] != "" && sel[k] < ArrayIndexLimit
    ensures forall i :: 0 <= i < |Layout(sel, vals)| && Layout(sel, vals)[i] != "" ==> i in sel
    ensures forall k :: 0 <= k < |sel| ==> sel[k] < |Layout(sel, vals)| && Layout(sel, vals)[sel[k]] != ""
    decreases |sel|
  {
    if sel != [] {
      var n := |sel| - 1;
      LayoutPositions(sel[..n], vals[..n]);
      assert sel == sel[..n] + [sel[n]];
    }
  }

  /** Nonempty shares placed at distinct positions leave one share per position. */
  lemma {:induction false} LayoutCount(sel: seq<nat>, vals: seq<string>)
    requires |sel| == |vals| && Distinct(sel)
    requires forall k :: 0 <= k < |sel| ==> vals[k] != "" && sel[k] < ArrayIndexLimit
    ensures |Clean(Layout(sel, vals))| == |sel|
    decreases |sel|
  {
    if sel != [] {
      var n := |sel| - 1;
      var x := Layout(sel[..n], vals[..n]);
      LayoutCount(sel[..n], vals[..n]);
      LayoutPositions(sel[..n], vals[..n]);
      assert sel[n] !in sel[..n];
      CountStep(x, sel[n], vals[n], Layout(sel, vals));
    }
  }

  /** Placing nonempty digits at a hole or past the end adds one share. */
  lemma CountStep(x: seq<string>, o: nat, v: string, y: seq<string>)
    requires o < ArrayIndexLimit && v != "" && (o < |x| ==> x[o] == "")
    requires y == Place(x, Some(o), v)
    ensures |Clean(y)| == |Clean(x)| + 1
  {
    if o < |x| {
      CleanFillHole(x, o, v);
    } else {
      CleanPlace(x, o, v);
    }
  }

  /** Filling a hole adds one share. */
  lemma {:induction false} CleanFillHole(x: seq<string>, o: nat, v: string)
    requires o < |x| && x[o] == "" && v != ""
    ensures |Clean(x[o := v])| == |Clean(x)| + 1
    decreases |x|
  {
    var n := |x| - 1;
    if o < n {
      assert x[o := v][..n] == x[..n][o := v];
      CleanFillHole(x[..n], o, v);
    } else {
      assert x[o := v][..n] == x[..n];
    }
  }

  lemma CombineFrom(c: Config, picked: seq<seq<string>>, wordlist: seq<string>, hexParts: seq<string>, m: nat, secret: string)
    requires Valid(c) && c.bits == 12
    requires CollectParts(wordlist, picked, 0, [], -1) == Ok((hexParts, m))
    requires |Clean(hexParts)| >= m && Sharing.CombineSpec(c, 0, Clean(hexParts)) == Ok(secret)
    ensures CombineSpec(c, picked, wordlist) == ReadSecret(wordlist, secret)
  {
  }

  lemma SpreadWidened(parts: seq<string>, sel: seq<nat>, j: nat, vals: seq<string>)
    requires |sel| == |vals| && forall k :: 0 <= k < |sel| ==> sel[k] < |parts| && vals[k] == ZeroDigits(j) + parts[sel[k]]
    ensures Spread(sel, vals) == RoundTrip.Widened(parts, sel, j)
  {
  }

  /** The selected shares of a split, widened alike, combine to the secret. */
  lemma WidenedSecret(c: Config, secret: string, n: nat, m: nat, rng: Sharing.Rng, parts: seq<string>, sel: seq<nat>, j: nat)
    requires Valid(c) && IsField(c) && c.bits == 12 && Sharing.RngInField(c, rng) && IsLowerHex(secret)
    requires 2 <= m <= |sel| && m <= n <= MaxShares
    requires Sharing.ShareSpec(c, secret, n, m, 0, rng) == Ok(parts)
    requires Distinct(sel) && forall k :: 0 <= k < |sel| ==> sel[k] < n
    ensures |parts| == n
    ensures Sharing.CombineSpec(c, 0, RoundTrip.Widened(parts, sel, j)) == Ok(secret)
  {
    TwelveBits(c);
    RoundTrip.WidenedThenCombine(c, secret, n, m, 0, rng, sel, j);
  }
}
