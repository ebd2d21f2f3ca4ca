/**
 * Sharing a hexadecimal secret and combining shares back
 * (src/js/shamir39.js `share`, `processShare`, `_combine`, `combine`).
 * The secret's bits, behind a leading '1' that keeps its leading zeros, are
 * cut into `bits`-wide chunks; every chunk gets its own random polynomial,
 * and a share is the concatenation of that share's values for all chunks.
 */
module Sharing {
  import opened Wrappers
  import opened NatBits
  import opened Field
  import opened Gf
  import opened Poly
  import opened Interp
  import opened Bits
  import opened Shamir

  const ShareCountError := "Number of shares must be an integer between 2 and 2^bits-1, inclusive."
  const ThresholdError := "Threshold number of shares must be an integer between 2 and 2^bits-1, inclusive."
  const ShareIdError := "Share id must be an integer between 1 and 2^bits-1, inclusive."
  const EmptyShareError := "Invalid share: zero-length share."

  /**
   * The random source: `rng(i, k)` stands for `parseInt(config.rng(bits), 2)`,
   * the random coefficient `k` (1 <= k < threshold) drawn for chunk `i`.
   */
  type Rng = (nat, nat) -> nat

  /** `config.rng(bits)` returns `bits` random bits, so every draw is a field element. */
  ghost predicate RngInField(c: Config, rng: Rng)
  {
    forall i: nat, k: nat :: rng(i, k) < c.size
  }

  /** The random coefficients `_getShares` draws for chunk `i`. */
  function Draws(c: Config, rng: Rng, i: nat, threshold: nat): (d: seq<nat>)
    requires RngInField(c, rng) && threshold >= 1
    ensures |d| == threshold - 1 && InField(c, d)
  {
    seq(threshold - 1, k requires 0 <= k => rng(i, k + 1))
  }

  /**
   * The coefficient loop of `_getShares` for chunk `i`: the secret, then one
   * draw per further coefficient.
   */
  method DrawCoeffs(c: Config, secret: nat, rng: Rng, i: nat, threshold: nat) returns (coeffs: seq<nat>)
    requires RngInField(c, rng) && threshold >= 1 && secret < c.size
    ensures coeffs == Coeffs(c, secret, rng, i, threshold)
  {
    coeffs := [secret];
    for k := 1 to threshold
      invariant coeffs == Coeffs(c, secret, rng, i, k)
    {
      DrawsSnoc(c, rng, i, k);
      coeffs := coeffs + [rng(i, k)];
    }
  }

  /** One more coefficient is one more draw. */
  lemma DrawsSnoc(c: Config, rng: Rng, i: nat, k: nat)
    requires RngInField(c, rng) && k >= 1
    ensures Draws(c, rng, i, k + 1) == Draws(c, rng, i, k) + [rng(i, k)]
  {
  }

  /** The coefficients of chunk `i`'s polynomial: the chunk, then its draws. */
  function Coeffs(c: Config, chunk: nat, rng: Rng, i: nat, threshold: nat): (p: seq<nat>)
    requires RngInField(c, rng) && threshold >= 1 && chunk < c.size
    ensures |p| == threshold && InField(c, p) && p[0] == chunk
  {
    [chunk] + Draws(c, rng, i, threshold)
  }

  predicate InFieldChunks(c: Config, chunks: seq<nat>)
  {
    forall i :: 0 <= i < |chunks| ==> chunks[i] < c.size
  }

  /** The values of share `x` for every chunk, chunk 0 first. */
  function ShareValues(c: Config, chunks: seq<nat>, threshold: nat, rng: Rng, x: nat): (vs: seq<nat>)
    requires Valid(c) && RngInField(c, rng) && threshold >= 1 && InFieldChunks(c, chunks) && x < c.size
    ensures |vs| == |chunks|
    ensures forall i :: 0 <= i < |vs| ==> vs[i] < c.size
  {
    seq(|chunks|, i requires 0 <= i < |chunks| => Eval(c, Coeffs(c, chunks[i], rng, i, threshold), x))
  }

  /** `'1' + hex2bin(secret)`, zero-padded to a multiple of `padLength` when one is given. */
  function SecretBits(b: Bits, padLength: nat): (s: Bits)
    ensures |s| >= 1
  {
    if padLength > 0 then PadLeft([true] + b, padLength) else [true] + b
  }

  /** The `numShares` share strings, share `t` holding the values at `x = t + 1`. */
  function ShareStrings(c: Config, chunks: seq<nat>, threshold: nat, rng: Rng, numShares: nat): (parts: seq<string>)
    requires Valid(c) && RngInField(c, rng) && threshold >= 1 && InFieldChunks(c, chunks) && numShares <= c.max
    ensures |parts| == numShares
  {
    seq(numShares, t requires 0 <= t < numShares =>
      BitsToHex(Assemble(ShareValues(c, chunks, threshold, rng, t + 1), c.bits)))
  }

  /** What `share(secret, numShares, threshold, padLength, true)` returns or throws. */
  function ShareSpec(c: Config, secret: string, numShares: int, threshold: int, padLength: nat, rng: Rng)
    : Result<seq<string>, string>
    requires Valid(c) && RngInField(c, rng)
  {
    if numShares < 2 || numShares > c.max then Err(ShareCountError)
    else if threshold < 2 || threshold > c.max then Err(ThresholdError)
    else match HexToBits(secret)
      case None => Err(HexError)
      case Some(b) =>
        Ok(ShareStrings(c, Chunks(SecretBits(b, padLength), c.bits), threshold, rng, numShares))
  }

  /**
   * `share(secret, numShares, threshold, padLength, true)`: the shares
   * without the bits/id prefix, as `this.split` requests them.
   */
  method Share(c: Config, secret: string, numShares: int, threshold: int, padLength: nat, rng: Rng)
    returns (r: Result<seq<string>, string>)
    requires Valid(c) && RngInField(c, rng)
    ensures r == ShareSpec(c, secret, numShares, threshold, padLength, rng)
  {
    if numShares < 2 || numShares > c.max {
      return Err(ShareCountError);
    }
    if threshold < 2 || threshold > c.max {
      return Err(ThresholdError);
    }
    var bin := Hex2Bin(secret);
    if bin.None? {
      return Err(HexError);
    }
    var chunks := SplitChunks([true] + bin.value, padLength, c.bits);
    assert chunks == Chunks(SecretBits(bin.value, padLength), c.bits);
    var ys := ShareChunks(c, chunks, numShares, threshold, rng);
    var parts := HexAll(ys);
    HexAllIsShareStrings(c, chunks, threshold, rng, ys, parts);
    return Ok(parts);
  }

  /**
   * The loop over chunks in `share`: `y[j]` grows by share `j`'s value for
   * every chunk, padded to `bits` bits, the newest chunk in front.
   */
  method ShareChunks(c: Config, chunks: seq<nat>, n: nat, m: nat, rng: Rng) returns (ys: seq<Bits>)
    requires Valid(c) && RngInField(c, rng) && InFieldChunks(c, chunks)
    requires 1 <= n <= c.max && 1 <= m <= c.max
    ensures |ys| == n
    ensures forall t :: 0 <= t < n ==> ys[t] == Assemble(ShareValues(c, chunks, m, rng, t + 1), c.bits)
  {
    ys := seq(n, _ => []);
    var i := 0;
    while i < |chunks|
      invariant 0 <= i <= |chunks| && |ys| == n
      invariant forall t :: 0 <= t < n ==> ys[t] == Assemble(ShareValues(c, chunks[..i], m, rng, t + 1), c.bits)
    {
      ys := ShareChunk(c, chunks, i, n, m, rng, ys);
      i := i + 1;
    }
    assert chunks[..|chunks|] == chunks;
  }

  /** One pass of the loop over chunks: chunk `i`'s values go in front of every share's bits. */
  method ShareChunk(c: Config, chunks: seq<nat>, i: nat, n: nat, m: nat, rng: Rng, ys0: seq<Bits>) returns (ys: seq<Bits>)
    requires Valid(c) && RngInField(c, rng) && InFieldChunks(c, chunks)
    requires 1 <= n <= c.max && 1 <= m <= c.max && i < |chunks| && |ys0| == n
    requires forall t :: 0 <= t < n ==> ys0[t] == Assemble(ShareValues(c, chunks[..i], m, rng, t + 1), c.bits)
    ensures |ys| == n
    ensures forall t :: 0 <= t < n ==> ys[t] == Assemble(ShareValues(c, chunks[..i + 1], m, rng, t + 1), c.bits)
  {
    var coeffs := DrawCoeffs(c, chunks[i], rng, i, m);
    var sub := GetShares(c, chunks[i], n, m, coeffs[1..]);
    assert [chunks[i]] + coeffs[1..] == coeffs;
    ys := PrependValues(c, ys0, sub);
    forall t | 0 <= t < n
      ensures ys[t] == Assemble(ShareValues(c, chunks[..i + 1], m, rng, t + 1), c.bits)
    {
      ShareValuesSnoc(c, chunks, i, m, rng, t + 1);
      AssembleSnoc(ShareValues(c, chunks[..i], m, rng, t + 1), sub[t].y, c.bits);
    }
  }

  /** `y[j] = padLeft(dec2bin(subShares[j].y), bits) + (y[j] || '')` for every share. */
  method PrependValues(c: Config, ys0: seq<Bits>, sub: seq<Point>) returns (ys: seq<Bits>)
    requires Valid(c) && |sub| == |ys0|
    requires forall t :: 0 <= t < |sub| ==> sub[t].y < c.size
    ensures |ys| == |ys0|
    ensures forall t :: 0 <= t < |ys| ==> ys[t] == ToBits(sub[t].y, c.bits) + ys0[t]
  {
    ys := ys0;
    var j := 0;
    while j < |ys|
      invariant 0 <= j <= |ys| && |ys| == |ys0|
      invariant forall t :: 0 <= t < j ==> ys[t] == ToBits(sub[t].y, c.bits) + ys0[t]
      invariant forall t :: j <= t < |ys| ==> ys[t] == ys0[t]
    {
      PadLeftBinary(sub[j].y, c.bits);
      ys := ys[j := PadLeft(Binary(sub[j].y), c.bits) + ys[j]];
      j := j + 1;
    }
  }

  lemma HexAllIsShareStrings(c: Config, chunks: seq<nat>, m: nat, rng: Rng, ys: seq<Bits>, parts: seq<string>)
    requires Valid(c) && RngInField(c, rng) && InFieldChunks(c, chunks) && 1 <= m && |ys| <= c.max
    requires forall t :: 0 <= t < |ys| ==> ys[t] == Assemble(ShareValues(c, chunks, m, rng, t + 1), c.bits)
    requires |parts| == |ys| && forall k :: 0 <= k < |ys| ==> parts[k] == BitsToHex(ys[k])
    ensures parts == ShareStrings(c, chunks, m, rng, |ys|)
  {
    var want := ShareStrings(c, chunks, m, rng, |ys|);
    forall k | 0 <= k < |ys|
      ensures parts[k] == want[k]
    {
      StringAt(c, chunks, m, rng, |ys|, k);
    }
    assert |parts| == |want|;
  }

  lemma StringAt(c: Config, chunks: seq<nat>, m: nat, rng: Rng, n: nat, k: nat)
    requires Valid(c) && RngInField(c, rng) && InFieldChunks(c, chunks) && 1 <= m && k < n <= c.max
    ensures ShareStrings(c, chunks, m, rng, n)[k] == BitsToHex(Assemble(ShareValues(c, chunks, m, rng, k + 1), c.bits))
  {
  }

  /** `x[i] = bin2hex(y[i])` for every share. */
  method HexAll(ys: seq<Bits>) returns (parts: seq<string>)
    ensures |parts| == |ys|
    ensures forall k :: 0 <= k < |ys| ==> parts[k] == BitsToHex(ys[k])
  {
    parts := [];
    var t := 0;
    while t < |ys|
      invariant 0 <= t <= |ys| && |parts| == t
      invariant forall k :: 0 <= k < t ==> parts[k] == BitsToHex(ys[k])
    {
      var hex := Bin2Hex(ys[t]);
      parts := parts + [hex];
      t := t + 1;
    }
  }

  /** One more chunk adds its value at `x` at the end of the share's values. */
  lemma ShareValuesSnoc(c: Config, chunks: seq<nat>, i: nat, m: nat, rng: Rng, x: nat)
    requires Valid(c) && RngInField(c, rng) && m >= 1 && InFieldChunks(c, chunks) && x < c.size
    requires i < |chunks|
    ensures ShareValues(c, chunks[..i + 1], m, rng, x)
      == ShareValues(c, chunks[..i], m, rng, x) + [Eval(c, Coeffs(c, chunks[i], rng, i, m), x)]
  {
    assert chunks[..i + 1][..i] == chunks[..i];
  }

  // ---------------------------------------------------------------------
  // Combining

  /** One share as `combine` receives it: an id and the hexadecimal share data. */
  datatype SharePart = SharePart(id: int, part: string)

  /** `processShare(share)`: the id must be in 1..max and the data nonempty. */
  function ProcessShare(c: Config, s: SharePart): (r: Result<nat, string>)
    requires Valid(c)
    ensures r.Ok? <==> 1 <= s.id <= c.max && |s.part| > 0
    ensures r.Ok? ==> r.value == s.id
    ensures r.Err? ==> r.error == (if 1 <= s.id <= c.max then EmptyShareError else ShareIdError)
  {
    if s.id < 1 || s.id > c.max then Err(ShareIdError)
    else if |s.part| == 0 then Err(EmptyShareError)
    else Ok(s.id)
  }

  /** The ids kept so far and, for each, the chunks of its share data. */
  predicate Gathered(c: Config, xs: seq<nat>, parts: seq<seq<nat>>)
  {
    Valid(c) && |parts| == |xs| && InField(c, xs) && Distinct(xs)
    && (forall k :: 0 <= k < |xs| ==> 1 <= xs[k])
    && (forall k :: 0 <= k < |parts| ==> InFieldChunks(c, parts[k]))
  }

  /**
   * The first loop of `_combine`: every share is checked in order, a share
   * whose id was already seen is skipped (the first one wins), and the
   * others contribute their id and the chunks of their data.
   */
  function Gather(c: Config, shares: seq<SharePart>): (r: Result<(seq<nat>, seq<seq<nat>>), string>)
    requires Valid(c)
    ensures r.Ok? ==> Gathered(c, r.value.0, r.value.1)
    decreases |shares|
  {
    if shares == [] then Ok(([], []))
    else
      var prev := Gather(c, shares[..|shares| - 1]);
      var s := shares[|shares| - 1];
      if prev.Err? then prev
      else match ProcessShare(c, s)
        case Err(e) => Err(e)
        case Ok(id) =>
          if id in prev.value.0 then prev
          else match HexToBits(s.part)
            case None => Err(HexError)
            case Some(b) => Ok((prev.value.0 + [id], prev.value.1 + [Chunks(b, c.bits)]))
  }

  /** The number of rows of `y`: the most chunks any kept share has. */
  function MaxLen(parts: seq<seq<nat>>): (m: nat)
    ensures forall k :: 0 <= k < |parts| ==> |parts[k]| <= m
  {
    if parts == [] then 0
    else
      var m0 := MaxLen(parts[..|parts| - 1]);
      if |parts[|parts| - 1]| > m0 then |parts[|parts| - 1]| else m0
  }

  /**
   * Entry `k` of a JavaScript array that may have holes or end early: an
   * absent entry reads as `undefined`, which `lagrange` skips exactly as
   * it skips 0.
   */
  function Cell(row: seq<nat>, k: nat): nat
  {
    if k < |row| then row[k] else 0
  }

  /** Row `j` of `y`: chunk `j` of every kept share, 0 for a share without one. */
  function Row(parts: seq<seq<nat>>, j: nat): (row: seq<nat>)
    ensures |row| == |parts|
  {
    seq(|parts|, k requires 0 <= k < |parts| => Cell(parts[k], j))
  }

  /** The chunk values `lagrange` interpolates at `at`, row by row. */
  function Recovered(c: Config, at: nat, xs: seq<nat>, parts: seq<seq<nat>>): (vals: seq<nat>)
    requires Gathered(c, xs, parts) && at < c.size
    ensures |vals| == MaxLen(parts)
  {
    seq(MaxLen(parts), j requires 0 <= j < MaxLen(parts) => LagrangeSum(c, at, xs, Row(parts, j), |xs|))
  }

  /** What `_combine(at, shares)` returns or throws. */
  function CombineSpec(c: Config, at: nat, shares: seq<SharePart>): Result<string, string>
    requires Valid(c) && at < c.size
  {
    match Gather(c, shares)
    case Err(e) => Err(e)
    case Ok((xs, parts)) =>
      var result := Assemble(Recovered(c, at, xs, parts), c.bits);
      if at == 0 then Ok(BitsToHex(result[IndexOfOne(result) + 1..]))
      else Ok(BitsToHex(result))
  }

  /** `y` holds, row by row, the chunks of the kept shares, column `k` for share `k`. */
  predicate RowsOf(y: seq<seq<nat>>, parts: seq<seq<nat>>)
  {
    |y| == MaxLen(parts)
    && (forall j :: 0 <= j < |y| ==> |y[j]| <= |parts|)
    && forall j, k :: 0 <= j < |y| && 0 <= k < |parts| ==> Cell(y[j], k) == Cell(parts[k], j)
  }

  /** `y[j][idx] = v` on a row no longer than `idx`: the entries in between are holes. */
  function Store(row: seq<nat>, idx: nat, v: nat): (r: seq<nat>)
    requires |row| <= idx
    ensures |r| == idx + 1
    ensures forall k :: 0 <= k <= idx ==> Cell(r, k) == if k == idx then v else Cell(row, k)
  {
    row + seq(idx - |row|, _ => 0) + [v]
  }

  /**
   * `_combine(at, shares)`: gather the distinct shares' chunks into rows,
   * interpolate each row at `at`, and write the values back to back; for
   * `at == 0` drop everything up to and including the first '1', the marker
   * `share` put in front of the secret.
   */
  method Combine(c: Config, at: nat, shares: seq<SharePart>) returns (r: Result<string, string>)
    requires Valid(c) && at < c.size
    ensures r == CombineSpec(c, at, shares)
  {
    var gathered := GatherRows(c, shares);
    if gathered.Err? {
      return Err(gathered.error);
    }
    var (xs, y) := gathered.value;
    var result := RecoverRows(c, at, xs, y, Gather(c, shares).value.1);
    if at == 0 {
      var idx := IndexOfOne(result);
      var hex := Bin2Hex(result[idx + 1..]);
      return Ok(hex);
    }
    var hex := Bin2Hex(result);
    return Ok(hex);
  }

  /**
   * The first loop of `_combine`: the kept ids in `xs` and their chunks in
   * `y`, row `j` holding chunk `j` of every kept share.
   */
  method GatherRows(c: Config, shares: seq<SharePart>) returns (r: Result<(seq<nat>, seq<seq<nat>>), string>)
    requires Valid(c)
    ensures r.Err? <==> Gather(c, shares).Err?
    ensures r.Err? ==> r.error == Gather(c, shares).error
    ensures r.Ok? ==> r.value.0 == Gather(c, shares).value.0 && RowsOf(r.value.1, Gather(c, shares).value.1)
  {
    var xs: seq<nat> := [];
    var y: seq<seq<nat>> := [];
    ghost var parts: seq<seq<nat>> := [];
    var i := 0;
    while i < |shares|
      invariant 0 <= i <= |shares|
      invariant Gather(c, shares[..i]) == Ok((xs, parts))
      invariant RowsOf(y, parts)
    {
      assert shares[..i + 1][..i] == shares[..i];
      var share := ProcessShare(c, shares[i]);
      if share.Err? {
        GatherErr(c, shares, i + 1);
        return Err(share.error);
      }
      var id := share.value;
      if id !in xs {
        var bin := Hex2Bin(shares[i].part);
        if bin.None? {
          GatherErr(c, shares, i + 1);
          return Err(HexError);
        }
        var ch := SplitChunks(bin.value, 0, c.bits);
        var idx := |xs|;
        xs := xs + [id];
        ghost var y0 := y;
        y := StoreChunks(y, idx, ch);
        StoreColumn(y0, y, parts, ch);
        parts := parts + [ch];
      }
      i := i + 1;
    }
    assert shares[..|shares|] == shares;
    return Ok((xs, y));
  }

  /** The second loop of `_combine`: interpolate every row at `at` and write the values back to back. */
  method RecoverRows(c: Config, at: nat, xs: seq<nat>, y: seq<seq<nat>>, ghost parts: seq<seq<nat>>)
    returns (result: Bits)
    requires Gathered(c, xs, parts) && at < c.size && RowsOf(y, parts)
    ensures result == Assemble(Recovered(c, at, xs, parts), c.bits)
  {
    result := [];
    ghost var vals := Recovered(c, at, xs, parts);
    var i := 0;
    while i < |y|
      invariant 0 <= i <= |y|
      invariant result == Assemble(vals[..i], c.bits)
    {
      var row := seq(|xs|, k requires 0 <= k < |xs| => Cell(y[i], k));
      assert row == Row(parts, i);
      var v := Lagrange(c, at, xs, row);
      PadLeftBinary(v, c.bits);
      assert vals[..i + 1] == vals[..i] + [v];
      AssembleSnoc(vals[..i], v, c.bits);
      result := PadLeft(Binary(v), c.bits) + result;
      i := i + 1;
    }
    assert vals[..|y|] == vals;
  }

  /** `y[j] = y[j] || []; y[j][idx] = chunks[j]` for every chunk of a new share. */
  method StoreChunks(y0: seq<seq<nat>>, idx: nat, ch: seq<nat>) returns (y: seq<seq<nat>>)
    requires forall r :: 0 <= r < |y0| ==> |y0[r]| <= idx
    ensures |y| == if |ch| > |y0| then |ch| else |y0|
    ensures forall r :: 0 <= r < |ch| ==> y[r] == Store(if r < |y0| then y0[r] else [], idx, ch[r])
    ensures forall r :: |ch| <= r < |y| ==> y[r] == y0[r]
  {
    y := y0;
    var j := 0;
    while j < |ch|
      invariant 0 <= j <= |ch|
      invariant |y| == if j > |y0| then j else |y0|
      invariant forall r :: 0 <= r < j ==> y[r] == Store(if r < |y0| then y0[r] else [], idx, ch[r])
      invariant forall r :: j <= r < |y| ==> y[r] == y0[r]
    {
      if j < |y| {
        y := y[j := Store(y[j], idx, ch[j])];
      } else {
        y := y + [Store([], idx, ch[j])];
      }
      j := j + 1;
    }
  }

  /** A failure while gathering a prefix is the failure of the whole list. */
  lemma {:induction false} GatherErr(c: Config, shares: seq<SharePart>, i: nat)
    requires Valid(c) && i <= |shares| && Gather(c, shares[..i]).Err?
    ensures Gather(c, shares) == Gather(c, shares[..i])
    decreases |shares| - i
  {
    if i < |shares| {
      assert shares[..i + 1][..i] == shares[..i];
      GatherErr(c, shares, i + 1);
    } else {
      assert shares[..i] == shares;
    }
  }

  /** Writing a new share's chunks into column `|parts|` keeps `y` the transpose of the chunk lists. */
  lemma StoreColumn(y0: seq<seq<nat>>, y: seq<seq<nat>>, parts: seq<seq<nat>>, ch: seq<nat>)
    requires RowsOf(y0, parts)
    requires |y| == if |ch| > |y0| then |ch| else |y0|
    requires forall r :: 0 <= r < |ch| ==> y[r] == Store(if r < |y0| then y0[r] else [], |parts|, ch[r])
    requires forall r :: |ch| <= r < |y| ==> y[r] == y0[r]
    ensures RowsOf(y, parts + [ch])
  {
    var ps := parts + [ch];
    assert ps[..|ps| - 1] == parts;
    forall j, k | 0 <= j < |y| && 0 <= k < |ps|
      ensures Cell(y[j], k) == Cell(ps[k], j)
    {
      if k < |parts| {
        assert ps[k] == parts[k];
        if j >= |y0| {
          assert |parts[k]| <= |y0|;
        }
      }
    }
  }
}
