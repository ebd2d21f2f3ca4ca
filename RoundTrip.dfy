/**
 * Sharing and combining fit together: any `threshold` of the shares
 * `share(secret, numShares, threshold, padLength, true)` returns, handed to
 * `combine` with their ids, give back the (lower-case) secret.
 */
module RoundTrip {
  import opened Wrappers
  import opened NatBits
  import opened Field
  import opened Gf
  import opened Poly
  import opened Interp
  import opened Bits
  import opened Shamir
  import opened Sharing

  /** The shares at positions `sel` of `parts`, each with its id `position + 1`. */
  function Selected(parts: seq<string>, sel: seq<nat>): (shares: seq<SharePart>)
    requires forall k :: 0 <= k < |sel| ==> sel[k] < |parts|
    ensures |shares| == |sel|
    ensures forall k :: 0 <= k < |sel| ==> shares[k].id == sel[k] + 1 && shares[k].part == parts[sel[k]]
  {
    seq(|sel|, k requires 0 <= k < |sel| => SharePart(sel[k] + 1, parts[sel[k]]))
  }

  /** Share `s` has id `x` and data whose chunks are `ch`. */
  predicate Reads(c: Config, s: SharePart, x: nat, ch: seq<nat>)
    requires Valid(c)
  {
    s.id == x && 1 <= x <= c.max && |s.part| > 0 && HexToBits(s.part).Some?
    && Chunks(HexToBits(s.part).value, c.bits) == ch
  }

  /** Shares with distinct ids are all kept, in order, each with its chunks. */
  lemma GatherDistinct(c: Config, shares: seq<SharePart>, xs: seq<nat>, cs: seq<seq<nat>>)
    requires Valid(c) && |xs| == |shares| && |cs| == |shares| && Distinct(xs)
    requires forall k :: 0 <= k < |shares| ==> Reads(c, shares[k], xs[k], cs[k])
    ensures Gather(c, shares) == Ok((xs, cs))
  {
    GatherPrefix(c, shares, xs, cs, |shares|);
    assert shares[..|shares|] == shares && xs[..|shares|] == xs && cs[..|shares|] == cs;
  }

  lemma {:induction false} GatherPrefix(c: Config, shares: seq<SharePart>, xs: seq<nat>, cs: seq<seq<nat>>, i: nat)
    requires Valid(c) && |xs| == |shares| && |cs| == |shares| && Distinct(xs) && i <= |shares|
    requires forall k :: 0 <= k < |shares| ==> Reads(c, shares[k], xs[k], cs[k])
    ensures Gather(c, shares[..i]) == Ok((xs[..i], cs[..i]))
    decreases i
  {
    if i > 0 {
      GatherPrefix(c, shares, xs, cs, i - 1);
      assert shares[..i][..i - 1] == shares[..i - 1];
      assert xs[i - 1] !in xs[..i - 1] by {
        assert forall k :: 0 <= k < i - 1 ==> xs[..i - 1][k] == xs[k];
      }
      GatherStep(c, shares[..i], xs[..i - 1], cs[..i - 1], xs[i - 1], cs[i - 1]);
      PrefixSnoc(xs, i);
      PrefixSnoc(cs, i);
    }
  }

  /** A share with a new id adds its id and its chunks. */
  lemma GatherStep(c: Config, shares: seq<SharePart>, xs: seq<nat>, cs: seq<seq<nat>>, x: nat, ch: seq<nat>)
    requires Valid(c) && |shares| >= 1
    requires Gather(c, shares[..|shares| - 1]) == Ok((xs, cs))
    requires Reads(c, shares[|shares| - 1], x, ch) && x !in xs
    ensures Gather(c, shares) == Ok((xs + [x], cs + [ch]))
  {
    assert ProcessShare(c, shares[|shares| - 1]) == Ok(x);
  }

  lemma {:induction false} MaxLenUniform(parts: seq<seq<nat>>, len: nat)
    requires |parts| >= 1 && forall k :: 0 <= k < |parts| ==> |parts[k]| == len
    ensures MaxLen(parts) == len
    decreases |parts|
  {
    if |parts| > 1 {
      MaxLenUniform(parts[..|parts| - 1], len);
    }
  }

  /** A row of zeros (or holes) interpolates to zero. */
  lemma {:induction false} LagrangeSumZeros(c: Config, at: nat, xs: seq<nat>, ys: seq<nat>, k: nat)
    requires Nodes(c, xs, ys) && at < c.size && k <= |xs|
    requires forall i :: 0 <= i < |ys| ==> ys[i] == 0
    ensures LagrangeSum(c, at, xs, ys, k) == 0
  {
    if k > 0 {
      LagrangeSumZeros(c, at, xs, ys, k - 1);
    }
  }

  /**
   * Every kept share holds its values for the secret's chunks followed by
   * the same zero chunks: row by row, interpolation at 0 gives back the
   * secret's chunks followed by those zeros.
   */
  lemma RecoveredChunks(c: Config, chunks: seq<nat>, m: nat, rng: Rng, xs: seq<nat>, cs: seq<seq<nat>>, zs: seq<nat>)
    requires Valid(c) && IsField(c) && RngInField(c, rng) && InFieldChunks(c, chunks)
    requires 1 <= m <= |xs| && |cs| == |xs| && Distinct(xs)
    requires forall k :: 0 <= k < |xs| ==> 1 <= xs[k] < c.size
    requires forall k :: 0 <= k < |zs| ==> zs[k] == 0
    requires forall k :: 0 <= k < |xs| ==> cs[k] == ShareValues(c, chunks, m, rng, xs[k]) + zs
    ensures Gathered(c, xs, cs)
    ensures Recovered(c, 0, xs, cs) == chunks + zs
  {
    assert Gathered(c, xs, cs);
    MaxLenUniform(cs, |chunks| + |zs|);
    var vals := Recovered(c, 0, xs, cs);
    forall j | 0 <= j < |vals|
      ensures vals[j] == (chunks + zs)[j]
    {
      var row := Row(cs, j);
      if j < |chunks| {
        var draws := Draws(c, rng, j, m);
        forall k | 0 <= k < |xs|
          ensures row[k] == Eval(c, [chunks[j]] + draws, xs[k])
        {
          assert row[k] == ShareValues(c, chunks, m, rng, xs[k])[j];
        }
        RecoverSecret(c, chunks[j], draws, xs, row);
      } else {
        LagrangeSumZeros(c, 0, xs, row, |xs|);
      }
    }
  }

  /** What `combine` reads back from one share string: its values, then `zs`. */
  lemma PartChunks(c: Config, vs: seq<nat>, zs: seq<nat>)
    requires Valid(c) && |vs| >= 1 && forall k :: 0 <= k < |vs| ==> vs[k] < c.size
    requires zs == ZeroChunks(c, |vs|)
    ensures |BitsToHex(Assemble(vs, c.bits))| > 0
    ensures HexToBits(BitsToHex(Assemble(vs, c.bits))).Some?
    ensures Chunks(HexToBits(BitsToHex(Assemble(vs, c.bits))).value, c.bits) == vs + zs
  {
    var a := Assemble(vs, c.bits);
    BinHexRoundTrip(a);
    PaddedChunks(vs, c.bits);
    AssembleLength(vs, c.bits);
    PaddedLength(a, Zeros(|vs| * c.bits));
  }

  /** Whole chunks padded to whole hex digits are read as themselves, then the padding's chunks. */
  lemma PaddedChunks(vs: seq<nat>, bits: nat)
    requires bits >= 1 && |vs| >= 1 && forall k :: 0 <= k < |vs| ==> vs[k] < Pow2(bits)
    ensures var a := Assemble(vs, bits);
      Chunks(PadLeft(a, 4), bits) == vs + ZeroRun(|PadLeft(a, 4)| - |a|, bits)
  {
    var a := Assemble(vs, bits);
    var z := |PadLeft(a, 4)| - |a|;
    PadLeftZeros(a, 4);
    ChunksBehindZeros(vs, bits, z);
    ChunksOfEqual(PadLeft(a, 4), Zeros(z) + a, bits, vs + ZeroRun(z, bits));
  }

  lemma ChunksOfEqual(p: Bits, q: Bits, bits: nat, r: seq<nat>)
    requires bits >= 1 && |q| >= 1 && p == q && Chunks(q, bits) == r
    ensures Chunks(p, bits) == r
  {
  }

  /** Strings of one length are padded to the same length. */
  lemma PaddedLength(s: Bits, t: Bits)
    requires |s| == |t|
    ensures |PadLeft(s, 4)| == |PadLeft(t, 4)| && |BitsToHex(s)| == |BitsToHex(t)|
  {
  }

  /** The chunks `z` zeros are cut into, when they stand in front of whole chunks. */
  function ZeroRun(z: nat, bits: nat): (zs: seq<nat>)
    requires bits >= 1
    ensures forall k :: 0 <= k < |zs| ==> zs[k] == 0
  {
    if z == 0 then []
    else
      ChunksOfZeros(z, bits);
      Chunks(Zeros(z), bits)
  }

  /** Whole chunks behind `z` zeros are read as themselves, then the zeros' chunks. */
  lemma ChunksBehindZeros(vs: seq<nat>, bits: nat, z: nat)
    requires bits >= 1 && |vs| >= 1 && forall k :: 0 <= k < |vs| ==> vs[k] < Pow2(bits)
    ensures Chunks(Zeros(z) + Assemble(vs, bits), bits) == vs + ZeroRun(z, bits)
  {
    if z == 0 {
      assert Zeros(z) + Assemble(vs, bits) == Assemble(vs, bits);
      ChunksOfAssemble(vs, bits);
    } else {
      ChunksZerosPrefix(z, vs, bits);
    }
  }

  /** The zero chunks `combine` reads in front of a share of `n` chunks: the share string's leading padding. */
  function ZeroChunks(c: Config, n: nat): (zs: seq<nat>)
    requires Valid(c)
    ensures forall k :: 0 <= k < |zs| ==> zs[k] == 0
  {
    var len := n * c.bits;
    ZeroRun(|PadLeft(Zeros(len), 4)| - len, c.bits)
  }

  /** `'1' + hex2bin(secret)`, padded: zeros, then the marker '1' and the secret's bits `x`. */
  lemma SecretBitsMarked(b: Bits, padLength: nat, x: Bits)
    requires x == [true] + b
    ensures |SecretBits(b, padLength)| >= |x|
    ensures SecretBits(b, padLength) == Zeros(|SecretBits(b, padLength)| - |x|) + x
  {
    if padLength > 0 {
      PadLeftZeros(x, padLength);
    } else {
      assert Zeros(0) + x == x;
    }
  }

  /** The rows' values written back: the padding zero chunks, then the padded chunked string. */
  lemma AssembledChunks(c: Config, s: Bits, zs: seq<nat>)
    requires Valid(c) && |s| >= 1 && forall k :: 0 <= k < |zs| ==> zs[k] == 0
    ensures var a := Assemble(Chunks(s, c.bits) + zs, c.bits);
      |a| >= |PadLeft(s, c.bits)| && a == Zeros(|a| - |PadLeft(s, c.bits)|) + PadLeft(s, c.bits)
  {
    AssembleAppend(Chunks(s, c.bits), zs, c.bits);
    AssembleZeros(zs, c.bits);
    ChunksAssemble(s, c.bits);
  }

  /** The secret's bits as `combine` writes them: zeros, the marker '1', then the secret. */
  lemma MarkedSecret(c: Config, b: Bits, padLength: nat, zs: seq<nat>)
    requires Valid(c) && forall k :: 0 <= k < |zs| ==> zs[k] == 0
    ensures var a := Assemble(Chunks(SecretBits(b, padLength), c.bits) + zs, c.bits);
      |a| > |b| && a == Zeros(|a| - 1 - |b|) + ([true] + b)
  {
    var s := SecretBits(b, padLength);
    var x := [true] + b;
    AssembledChunks(c, s, zs);
    PadLeftZeros(s, c.bits);
    SecretBitsMarked(b, padLength, x);
    var a := Assemble(Chunks(s, c.bits) + zs, c.bits);
    MarkedShape(a, PadLeft(s, c.bits), s, x, |a| - |PadLeft(s, c.bits)|);
  }

  lemma MarkedShape(a: Bits, padded: Bits, s: Bits, x: Bits, p: nat)
    requires a == Zeros(p) + padded
    requires |padded| >= |s| && padded == Zeros(|padded| - |s|) + s
    requires |s| >= |x| && s == Zeros(|s| - |x|) + x
    ensures |a| >= |x| && a == Zeros(|a| - |x|) + x
  {
    var u: nat := |padded| - |s|;
    var v: nat := |s| - |x|;
    calc {
      a;
      Zeros(p) + (Zeros(u) + (Zeros(v) + x));
      { SeqAssoc(Zeros(u), Zeros(v), x); ZerosConcat(u, v); }
      Zeros(p) + (Zeros(u + v) + x);
      { SeqAssoc(Zeros(p), Zeros(u + v), x); ZerosConcat(p, u + v); }
      Zeros(p + u + v) + x;
    }
  }

  /** The ids of the shares at positions `sel`. */
  function Ids(sel: seq<nat>): (xs: seq<nat>)
    ensures |xs| == |sel| && forall k :: 0 <= k < |sel| ==> xs[k] == sel[k] + 1
  {
    seq(|sel|, k requires 0 <= k < |sel| => sel[k] + 1)
  }

  /** The chunks `combine` reads from the share with id `xs[k]`: its values, then the zero chunks `zs` of its padding. */
  function Columns(c: Config, chunks: seq<nat>, m: nat, rng: Rng, xs: seq<nat>, zs: seq<nat>): (cs: seq<seq<nat>>)
    requires Valid(c) && RngInField(c, rng) && m >= 1 && InFieldChunks(c, chunks)
    requires forall k :: 0 <= k < |xs| ==> xs[k] < c.size
    ensures |cs| == |xs|
    ensures forall k :: 0 <= k < |xs| ==> cs[k] == ShareValues(c, chunks, m, rng, xs[k]) + zs
  {
    seq(|xs|, k requires 0 <= k < |xs| => ShareValues(c, chunks, m, rng, xs[k]) + zs)
  }

  /** `combine` keeps every selected share, with its id and its chunks. */
  lemma SelectedGather(c: Config, chunks: seq<nat>, m: nat, rng: Rng, numShares: nat, sel: seq<nat>)
    requires Valid(c) && RngInField(c, rng) && 1 <= m && |chunks| >= 1 && InFieldChunks(c, chunks)
    requires numShares <= c.max && Distinct(sel) && forall k :: 0 <= k < |sel| ==> sel[k] < numShares
    ensures Gather(c, Selected(ShareStrings(c, chunks, m, rng, numShares), sel))
      == Ok((Ids(sel), Columns(c, chunks, m, rng, Ids(sel), ZeroChunks(c, |chunks|))))
  {
    var parts := ShareStrings(c, chunks, m, rng, numShares);
    var shares := Selected(parts, sel);
    var xs := Ids(sel);
    var zs := ZeroChunks(c, |chunks|);
    var cs := Columns(c, chunks, m, rng, xs, zs);
    forall k | 0 <= k < |sel|
      ensures Reads(c, shares[k], xs[k], cs[k])
    {
      SelectedRead(c, chunks, m, rng, numShares, sel, k);
    }
    GatherDistinct(c, shares, xs, cs);
  }

  /** The `k`-th selected share reads back as its id and its column. */
  lemma SelectedRead(c: Config, chunks: seq<nat>, m: nat, rng: Rng, numShares: nat, sel: seq<nat>, k: nat)
    requires Valid(c) && RngInField(c, rng) && 1 <= m && |chunks| >= 1 && InFieldChunks(c, chunks)
    requires numShares <= c.max && k < |sel| && forall i :: 0 <= i < |sel| ==> sel[i] < numShares
    ensures Reads(c, Selected(ShareStrings(c, chunks, m, rng, numShares), sel)[k], Ids(sel)[k],
      Columns(c, chunks, m, rng, Ids(sel), ZeroChunks(c, |chunks|))[k])
  {
    var parts := ShareStrings(c, chunks, m, rng, numShares);
    var x := Ids(sel)[k];
    var vs := ShareValues(c, chunks, m, rng, x);
    assert parts[sel[k]] == BitsToHex(Assemble(vs, c.bits));
    ReadsOf(c, Selected(parts, sel)[k], x, vs, ZeroChunks(c, |chunks|));
  }

  /** A share holding the hex of values `vs` reads back as `vs` and the zero chunks of its padding. */
  lemma ReadsOf(c: Config, s: SharePart, x: nat, vs: seq<nat>, zs: seq<nat>)
    requires Valid(c) && |vs| >= 1 && forall k :: 0 <= k < |vs| ==> vs[k] < c.size
    requires zs == ZeroChunks(c, |vs|) && s.id == x && 1 <= x <= c.max
    requires s.part == BitsToHex(Assemble(vs, c.bits))
    ensures Reads(c, s, x, vs + zs)
  {
    PartChunks(c, vs, zs);
  }

  /** Share string `t` is the hex of the values at `t + 1`. */
  lemma ShareStringAt(c: Config, chunks: seq<nat>, m: nat, rng: Rng, numShares: nat, t: nat)
    requires Valid(c) && RngInField(c, rng) && 1 <= m && InFieldChunks(c, chunks) && t < numShares <= c.max
    ensures ShareStrings(c, chunks, m, rng, numShares)[t]
      == BitsToHex(Assemble(ShareValues(c, chunks, m, rng, t + 1), c.bits))
  {
  }

  /** Dropping everything up to the first '1' leaves what followed the marker. */
  lemma StripMarker(a: Bits, b: Bits)
    requires |a| > |b| && a == Zeros(|a| - 1 - |b|) + ([true] + b)
    ensures IndexOfOne(a) + 1 <= |a| && a[IndexOfOne(a) + 1..] == b
  {
    var w := |a| - 1 - |b|;
    assert a == Zeros(w) + [true] + b;
    IndexAfterZeros(w, b);
    assert (Zeros(w) + [true] + b)[w + 1..] == b;
  }

  /**
   * Shares whose gathered chunks are those of the marked secret's chunks
   * (followed by zero chunks), `threshold` or more of them with distinct
   * ids, combine to the secret's bits written in hex.
   */
  lemma CombineGathered(c: Config, b: Bits, padLength: nat, chunks: seq<nat>, threshold: nat, rng: Rng,
                        shares: seq<SharePart>, xs: seq<nat>, zs: seq<nat>)
    requires Valid(c) && IsField(c) && RngInField(c, rng) && chunks == Chunks(SecretBits(b, padLength), c.bits)
    requires 1 <= threshold <= |xs| && Distinct(xs) && forall k :: 0 <= k < |xs| ==> 1 <= xs[k] < c.size
    requires forall k :: 0 <= k < |zs| ==> zs[k] == 0
    requires Gather(c, shares) == Ok((xs, Columns(c, chunks, threshold, rng, xs, zs)))
    ensures CombineSpec(c, 0, shares) == Ok(BitsToHex(b))
  {
    var cs := Columns(c, chunks, threshold, rng, xs, zs);
    RecoveredChunks(c, chunks, threshold, rng, xs, cs, zs);
    MarkedSecret(c, b, padLength, zs);
    StripMarker(Assemble(chunks + zs, c.bits), b);
  }

  /**
   * Any `threshold` or more distinct shares out of those `share` produced,
   * each with its id, combine to the secret.
   */
  lemma ShareThenCombine(c: Config, secret: string, numShares: nat, threshold: nat, padLength: nat, rng: Rng, sel: seq<nat>)
    requires Valid(c) && IsField(c) && RngInField(c, rng) && IsLowerHex(secret)
    requires 2 <= threshold <= |sel| && threshold <= numShares <= c.max && Distinct(sel)
    requires forall k :: 0 <= k < |sel| ==> sel[k] < numShares
    ensures ShareSpec(c, secret, numShares, threshold, padLength, rng).Ok?
    ensures |ShareSpec(c, secret, numShares, threshold, padLength, rng).value| == numShares
    ensures CombineSpec(c, 0, Selected(ShareSpec(c, secret, numShares, threshold, padLength, rng).value, sel)) == Ok(secret)
  {
    HexBinRoundTrip(secret);
    var b := HexToBits(secret).value;
    var chunks := Chunks(SecretBits(b, padLength), c.bits);
    var parts := ShareStrings(c, chunks, threshold, rng, numShares);
    assert ShareSpec(c, secret, numShares, threshold, padLength, rng) == Ok(parts);
    SelectedGather(c, chunks, threshold, rng, numShares, sel);
    CombineGathered(c, b, padLength, chunks, threshold, rng, Selected(parts, sel), Ids(sel), ZeroChunks(c, |chunks|));
  }

  // ---------------------------------------------------------------------
  // Shares read back with '0' digits in front

  /** The shares at positions `sel` of `parts`, each with its id and `j` more '0' digits in front. */
  function Widened(parts: seq<string>, sel: seq<nat>, j: nat): (shares: seq<SharePart>)
    requires forall k :: 0 <= k < |sel| ==> sel[k] < |parts|
    ensures |shares| == |sel|
    ensures forall k :: 0 <= k < |sel| ==> shares[k].id == sel[k] + 1 && shares[k].part == ZeroDigits(j) + parts[sel[k]]
  {
    seq(|sel|, k requires 0 <= k < |sel| => SharePart(sel[k] + 1, ZeroDigits(j) + parts[sel[k]]))
  }

  /**
   * With chunks of whole hex digits, a share written with '0' digits in
   * front is read as its values followed by zero chunks.
   */
  lemma WidenedChunks(c: Config, vs: seq<nat>, j: nat)
    requires Valid(c) && c.bits % 4 == 0
    requires |vs| >= 1 && forall k :: 0 <= k < |vs| ==> vs[k] < c.size
    ensures var h := ZeroDigits(j) + BitsToHex(Assemble(vs, c.bits));
      && |h| > 0 && HexToBits(h).Some?
      && Chunks(HexToBits(h).value, c.bits) == vs + ZeroRun(4 * j, c.bits)
  {
    var a := Assemble(vs, c.bits);
    AssembleLength(vs, c.bits);
    WholeNibbles(|vs|, c.bits);
    WidenedBits(a, j);
    ChunksBehindZeros(vs, c.bits, 4 * j);
  }

  /** Whole chunks of whole hex digits are whole hex digits, at least one chunk's worth. */
  lemma WholeNibbles(n: nat, bits: nat)
    requires n >= 1 && bits >= 1 && bits % 4 == 0
    ensures (n * bits) % 4 == 0 && n * bits >= bits
  {
    var q := bits / 4;
    assert n * bits == 4 * (n * q);
    DivModUnique(n * bits, 4, n * q, 0);
  }

  lemma WidenedBits(a: Bits, j: nat)
    requires |a| % 4 == 0 && |a| > 0
    ensures var h := ZeroDigits(j) + BitsToHex(a);
      |h| > 0 && HexToBits(h) == Some(Zeros(4 * j) + a)
    ensures j == 0 ==> Zeros(4 * j) + a == a
  {
    ZeroDigitsHex(j, a);
    BinHexRoundTrip(Zeros(4 * j) + a);
    assert |BitsToHex(a)| == |a| / 4 by {
      assert PadLeft(a, 4) == a;
    }
  }

  /** Every share `share` returns has as many hex digits as the first. */
  lemma SharesSameLength(c: Config, secret: string, numShares: nat, threshold: nat, padLength: nat, rng: Rng, t: nat)
    requires Valid(c) && RngInField(c, rng) && IsLowerHex(secret)
    requires 2 <= threshold <= c.max && 2 <= numShares <= c.max && t < numShares
    ensures ShareSpec(c, secret, numShares, threshold, padLength, rng).Ok?
    ensures var parts := ShareSpec(c, secret, numShares, threshold, padLength, rng).value;
      |parts| == numShares && |parts[t]| == |parts[0]|
  {
    HexBinRoundTrip(secret);
    var chunks := Chunks(SecretBits(HexToBits(secret).value, padLength), c.bits);
    assert ShareSpec(c, secret, numShares, threshold, padLength, rng) == Ok(ShareStrings(c, chunks, threshold, rng, numShares));
    StringsSameLength(c, chunks, threshold, rng, numShares, t);
  }

  lemma StringsSameLength(c: Config, chunks: seq<nat>, m: nat, rng: Rng, numShares: nat, t: nat)
    requires Valid(c) && RngInField(c, rng) && 1 <= m && InFieldChunks(c, chunks) && t < numShares <= c.max
    ensures var parts := ShareStrings(c, chunks, m, rng, numShares);
      |parts[t]| == |parts[0]|
  {
    var vt, v0 := ShareValues(c, chunks, m, rng, t + 1), ShareValues(c, chunks, m, rng, 1);
    ShareStringAt(c, chunks, m, rng, numShares, t);
    ShareStringAt(c, chunks, m, rng, numShares, 0);
    AssembleSameLength(vt, v0, c.bits);
    PaddedLength(Assemble(vt, c.bits), Assemble(v0, c.bits));
  }

  /** `combine` keeps every selected share read back with `j` '0' digits in front, with its id and its chunks. */
  lemma WidenedGather(c: Config, chunks: seq<nat>, m: nat, rng: Rng, numShares: nat, sel: seq<nat>, j: nat)
    requires Valid(c) && c.bits % 4 == 0
    requires RngInField(c, rng) && 1 <= m && |chunks| >= 1 && InFieldChunks(c, chunks)
    requires numShares <= c.max && Distinct(sel) && forall k :: 0 <= k < |sel| ==> sel[k] < numShares
    ensures Gather(c, Widened(ShareStrings(c, chunks, m, rng, numShares), sel, j))
      == Ok((Ids(sel), Columns(c, chunks, m, rng, Ids(sel), ZeroRun(4 * j, c.bits))))
  {
    var parts := ShareStrings(c, chunks, m, rng, numShares);
    var shares := Widened(parts, sel, j);
    var xs := Ids(sel);
    var cs := Columns(c, chunks, m, rng, xs, ZeroRun(4 * j, c.bits));
    forall k | 0 <= k < |sel|
      ensures Reads(c, shares[k], xs[k], cs[k])
    {
      WidenedRead(c, chunks, m, rng, numShares, sel, j, k);
    }
    GatherDistinct(c, shares, xs, cs);
  }

  /** The `k`-th selected share, widened, reads back as its id and its column. */
  lemma WidenedRead(c: Config, chunks: seq<nat>, m: nat, rng: Rng, numShares: nat, sel: seq<nat>, j: nat, k: nat)
    requires Valid(c) && c.bits % 4 == 0
    requires RngInField(c, rng) && 1 <= m && |chunks| >= 1 && InFieldChunks(c, chunks)
    requires numShares <= c.max && k < |sel| && forall i :: 0 <= i < |sel| ==> sel[i] < numShares
    ensures Reads(c, Widened(ShareStrings(c, chunks, m, rng, numShares), sel, j)[k], Ids(sel)[k],
      Columns(c, chunks, m, rng, Ids(sel), ZeroRun(4 * j, c.bits))[k])
  {
    var parts := ShareStrings(c, chunks, m, rng, numShares);
    var vs := ShareValues(c, chunks, m, rng, Ids(sel)[k]);
    assert parts[sel[k]] == BitsToHex(Assemble(vs, c.bits));
    WidenedChunks(c, vs, j);
  }

  /**
   * With chunks of whole hex digits, any `threshold` or more distinct
   * shares, each with the same number of '0' digits put in front, still
   * combine to the secret: the zeros become zero chunks, which interpolate
   * to zero in front of the marker.
   */
  lemma WidenedThenCombine(c: Config, secret: string, numShares: nat, threshold: nat, padLength: nat, rng: Rng, sel: seq<nat>, j: nat)
    requires Valid(c) && IsField(c) && c.bits % 4 == 0 && RngInField(c, rng) && IsLowerHex(secret)
    requires 2 <= threshold <= |sel| && threshold <= numShares <= c.max && Distinct(sel)
    requires forall k :: 0 <= k < |sel| ==> sel[k] < numShares
    ensures ShareSpec(c, secret, numShares, threshold, padLength, rng).Ok?
    ensures |ShareSpec(c, secret, numShares, threshold, padLength, rng).value| == numShares
    ensures CombineSpec(c, 0, Widened(ShareSpec(c, secret, numShares, threshold, padLength, rng).value, sel, j)) == Ok(secret)
  {
    HexBinRoundTrip(secret);
    var b := HexToBits(secret).value;
    var chunks := Chunks(SecretBits(b, padLength), c.bits);
    var parts := ShareStrings(c, chunks, threshold, rng, numShares);
    assert ShareSpec(c, secret, numShares, threshold, padLength, rng) == Ok(parts);
    WidenedGather(c, chunks, threshold, rng, numShares, sel, j);
    CombineGathered(c, b, padLength, chunks, threshold, rng, Widened(parts, sel, j), Ids(sel), ZeroRun(4 * j, c.bits));
  }
}
