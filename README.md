# Shamir39 in Dafny

A model of `src/js/shamir39.js`, the Shamir39 ("shamir39b") scheme. It
splits a BIP-0039 mnemonic, with an optional passphrase, into several
mnemonics of the same 2048-word list. Any `m` distinct ones, in any
order, give back the original words and the passphrase. The exception is a
passphrase that `isCompatibleASCII`, as written, misreads: 7-bit ASCII
that starts DEL '?' with a third code unit of 96 or more. For it,
`this.combine` throws (see Findings).

How the modules map onto the source:

- `NatBits`: JavaScript's `^` and `&` on naturals.
- `Bits` and `FixedWidth`: binary and hex strings, as sequences of
  booleans and of characters. `lpad`, `padLeft`, `hex2bin`, `bin2hex` and
  `split` (chunking) live here, together with fixed-width codes.
- `Field`: the `init` table loop over arrays, and what the tables hold.
- `Gf`: multiplication through the `exps`/`logs` tables. With a primitive
  polynomial, the tables form the field GF(2^bits).
- `Poly` and `Interp`: polynomials over that field, and Lagrange
  interpolation as a reference definition.
- `Shamir`: `horner`, `_getShares` and `lagrange`, as loops proved
  against `Poly.Eval` and the interpolation sum.
- `Sharing`: `share` (without the id prefix, as `this.split` calls it),
  `processShare` and `_combine`/`combine`.
- `RoundTrip`: shares combine back to the secret.
- `Words`: word lookups and `binToMnemonic`.
- `TextCodec`: `encodeStr`, `decodeStr`, `detectUTF16`, `isASCII`,
  `isCompatibleASCII`, `str2bin` and `bin2str`. Text is a sequence of
  UTF-16 code units. `isCompatibleASCII` is modelled as written, and
  beside it in corrected form.
- `Header`: the secret `this.split` builds. That is two digits of padding
  count, a three-digit word-count code, the padding, eleven digits per word
  and the passphrase encoded by `encodeStr` with `isCompatibleASCII` as
  written, all in hex. The module also covers how `this.combine` reads it
  back.
- `Params`: `paramsToBinaryStr`, and the parameter loop of `this.combine`.
- `Mnemonic`: `this.split` and `this.combine`, and their round trip.

Every loop of the source is a method with a `while` or `for` loop. Each is
proved equal to a specification function, and the properties are proved
about those functions. The `init` loop fills two arrays. The coefficient
draws of `_getShares` read the `rng` parameter, so their loop
(`Sharing.DrawCoeffs`) is proved equal to `Sharing.Coeffs`, the
comprehension over `rng`.

The module configuration is the `Field.Config` value that `init(12)`
builds at load time (`Mnemonic.TwelveBits`). It is passed to every
operation that reads `config`. The random source is a parameter: draw `k`
for chunk `i` is `rng(i, k)`, a field element.

## Model

| member | source | states |
|---|---|---|
| NatBits.XorComm | src/js/shamir39.js:578 | `^` is commutative |
| NatBits.XorAssoc | src/js/shamir39.js:578 | `^` is associative, so the order in which `lagrange` adds its terms does not matter |
| NatBits.XorSelf | src/js/shamir39.js:689 | `a ^ a == 0`: adding a value twice cancels it |
| NatBits.XorZeroIff | src/js/shamir39.js:578 | `a ^ b` is 0 exactly when `a == b` |
| NatBits.XorBound | src/js/shamir39.js:578 | the `^` of two values below 2^n is below 2^n, so sums stay field elements |
| NatBits.AndMask | src/js/shamir39.js:348 | `(2^n + l) & (2^n - 1) == l` for `l < 2^n`, which covers every value the `init` loop masks |
| Bits.Lpad | src/js/shamir39.js:291-297 | `lpad(s, n)` keeps `s` when it has at least `n` digits; otherwise it puts zeros in front up to exactly `n` digits |
| Bits.PadLeft | src/js/shamir39.js:712-716 | `padLeft(s, b)` has a length that is a multiple of `b`, and adds fewer than `b` digits |
| Bits.PadLeftZeros | src/js/shamir39.js:712-716 | what `padLeft` adds is zeros only |
| Bits.LpadIsPadLeft | src/js/shamir39.js:277-279 | `lpad` to `Math.ceil(len / b) * b` digits is `padLeft(s, b)` |
| Bits.ValueConcat | src/js/shamir39.js:282-283 | the value of a concatenation of digit strings is the high part times 2^(low length), plus the low part |
| Bits.ValueOfToBits | src/js/shamir39.js:282-283 | `parseInt(bits, 2)` of the n-digit encoding of `v < 2^n` returns `v` |
| Bits.ToBitsOfValue | src/js/shamir39.js:282-283 | writing a digit string's value back in as many digits returns the string |
| Bits.BinaryIsToBits | src/js/shamir39.js:63 | `v.toString(2)` has no leading zero digit and encodes `v` |
| Bits.LpadBinary | src/js/shamir39.js:63-64 | `lpad(v.toString(2), n)` is the n-digit encoding of `v`, for `v < 2^n` |
| Bits.PadLeftBinary | src/js/shamir39.js:725 | `padLeft(num.toString(2), 4)` is the 4-digit encoding of a hex digit |
| Bits.ValueOfBinary | src/js/shamir39.js:150-151 | `parseInt(v.toString(2), 2) == v` |
| Bits.HexChar | src/js/shamir39.js:738 | `num.toString(16)` is the lower-case digit whose value is `num` |
| Bits.HexToBits | src/js/shamir39.js:718-728 | `hex2bin` succeeds exactly when every character is a hex digit, and gives four digits per character |
| Bits.Hex2Bin | src/js/shamir39.js:718-728 | the right-to-left loop of `hex2bin` computes `HexToBits`; an invalid character is the error |
| Bits.NibblesToHex | src/js/shamir39.js:730-741 | whole nibbles give one lower-case hex digit each |
| Bits.Bin2Hex | src/js/shamir39.js:730-741 | `bin2hex` pads to whole nibbles and writes one digit per nibble |
| Bits.NibblesFromRight | src/js/shamir39.js:733-739 | the right-to-left loop of `bin2hex` writes the nibbles' digits in order |
| Bits.ZeroDigitsHex | src/js/shamir39.js:730-741 | `4j` leading zero digits become `j` leading '0' characters |
| Bits.NibblesRoundTrip | src/js/shamir39.js:718-741 | `hex2bin(bin2hex(t)) == t` when `t` is whole nibbles |
| Bits.BinHexRoundTrip | src/js/shamir39.js:718-741 | `hex2bin(bin2hex(s)) == padLeft(s, 4)` for every `s` |
| Bits.HexBinRoundTrip | src/js/shamir39.js:718-741 | `bin2hex(hex2bin(h)) == h` for lower-case hex `h` |
| Bits.Chunks | src/js/shamir39.js:699-709 | `split` returns at least one chunk, and every chunk is below 2^bits |
| Bits.SplitChunks | src/js/shamir39.js:699-709 | `split(str, padLength)` chunks the string, after `padLeft` when `padLength` is given |
| Bits.ChunkFromRight | src/js/shamir39.js:704-708 | the loop of `split` takes `bits` digits from the right, then the rest |
| Bits.ChunksAssemble | src/js/shamir39.js:699-709 | the chunks, each written back in `bits` digits with the last one first, give `padLeft(s, bits)` |
| Bits.ChunksOfAssemble | src/js/shamir39.js:699-709 | splitting values written in `bits` digits each gives the values back |
| Bits.AssembleLength | src/js/shamir39.js:528 | `k` values written in `bits` digits each make `k * bits` digits |
| Bits.IndexOfOne | src/js/shamir39.js:654 | `indexOf('1')` is the first 1, or -1 when there is none |
| Bits.IndexAfterZeros | src/js/shamir39.js:654-655 | after `w` zeros and a 1, the first 1 is at `w` |
| FixedWidth.CodesAppend | src/js/shamir39.js:54-66 | the fixed-width codes of a concatenation are the concatenation of the codes |
| FixedWidth.CodesLength | src/js/shamir39.js:54-66 | `k` codes of width `w` make `k * w` digits |
| FixedWidth.FlattenIsCodes | src/js/shamir39.js:259-271 | groups of `w` digits are the codes of their values |
| Field.Polynomial | src/js/shamir39.js:314 | the polynomial `init` picks for 3..20 bits is odd and below 2^bits |
| Field.Init | src/js/shamir39.js:330-354 | a width outside 3..20 is an error, 0 selects 8, and any other width builds its tables; the result is always valid settings |
| Field.BuildTables | src/js/shamir39.js:340-350 | after the array loop, `exps[i]` is the i-th power of the generator, and `logs[v]` is the last pass that produced `v` |
| Field.ValidIsTables | src/js/shamir39.js:330-354 | settings are valid exactly when they are the tables `init` builds for their width and polynomial |
| Field.StepIsDouble | src/js/shamir39.js:345-349 | the shift, xor and mask step multiplies by the generator |
| Field.DoubleLinear | src/js/shamir39.js:345-349 | that step distributes over `^` |
| Field.StepNLinear | src/js/shamir39.js:342-350 | so do any number of steps |
| Field.StepNAdd | src/js/shamir39.js:342-350 | `m + n` steps are `m` steps after `n` steps |
| Field.PowerRange | src/js/shamir39.js:343 | every `exps` entry is in 1..max, never 0 |
| Field.StepNRange | src/js/shamir39.js:345-349 | the steps keep values below 2^bits, and never reach 0 from a nonzero value |
| Field.PrimitiveThree | src/js/shamir39.js:314 | the polynomial for 3 bits is primitive: the first 7 powers differ |
| Field.PowerSurjective | src/js/shamir39.js:342-350 | with a primitive polynomial, every nonzero element is one of the first `max` powers |
| Field.PowerMax | src/js/shamir39.js:342-350 | with a primitive polynomial, the pass numbered `max` comes back to 1 |
| Field.LastPassUnique | src/js/shamir39.js:344 | with a primitive polynomial, `logs[v]` is the only pass below `max` that produced `v` |
| Field.ExpLog | src/js/shamir39.js:341-350 | `exps[logs[x]] == x` for every nonzero `x` |
| Field.LogExp | src/js/shamir39.js:341-350 | `logs[exps[i]] == i` for `1 <= i < max` |
| Field.WrapAround | src/js/shamir39.js:342-350 | the last pass stores `exps[max] == 1`, and overwrites `logs[1]` with `max` |
| Gf.Mul | src/js/shamir39.js:578 | the table product is a field element, and is 0 exactly when a factor is 0 |
| Gf.Add | src/js/shamir39.js:578 | `^` keeps elements in the field, and is 0 exactly when the operands are equal |
| Gf.MulIsStepN | src/js/shamir39.js:578 | the table product `a * b` is `logs[a]` generator steps from `b` |
| Gf.ExpMul | src/js/shamir39.js:686 | multiplying powers adds exponents, modulo `max` |
| Gf.LogOfExp | src/js/shamir39.js:686 | the log of a power is its exponent, modulo `max` |
| Gf.ExpOfLog | src/js/shamir39.js:686 | `exps[logs[a]] == a` for every nonzero element, reduced modulo `max` |
| Gf.Inv | src/js/shamir39.js:686 | the inverse a negative log stands for is a nonzero element |
| Gf.MulComm | src/js/shamir39.js:578 | the table product is commutative |
| Gf.MulOne | src/js/shamir39.js:578 | 1 is its identity |
| Gf.MulDistrib | src/js/shamir39.js:578 | it distributes over `^` |
| Gf.MulAssoc | src/js/shamir39.js:578 | it is associative |
| Gf.MulInv | src/js/shamir39.js:686 | every nonzero element has an inverse, `exps[max - logs[a]]` |
| Poly.EvalZero | src/js/shamir39.js:549-551 | a polynomial's value at 0 is its first coefficient, the secret chunk |
| Poly.EvalAdd | src/js/shamir39.js:689 | the value of a sum of polynomials is the `^` of their values |
| Poly.EvalScale | src/js/shamir39.js:686 | scaling a polynomial scales its value |
| Poly.EvalMulLin | src/js/shamir39.js:686 | multiplying by `(z ^ r)` multiplies the value by `z ^ r` |
| Poly.EvalQuot | src/js/shamir39.js:686 | division by `(z ^ r)` leaves the value at `r` as remainder |
| Poly.RootsVanish | src/js/shamir39.js:669-692 | a polynomial with fewer coefficients than distinct roots is zero everywhere |
| Interp.BasisAtOwnNode | src/js/shamir39.js:680-687 | the Lagrange basis of node `i` is 1 at `x[i]` |
| Interp.BasisAtOtherNode | src/js/shamir39.js:680-687 | the basis of node `i` is 0 at every other node among the first `k` |
| Interp.BasisPolyExists | src/js/shamir39.js:680-687 | the basis is a polynomial with as many coefficients as nodes |
| Interp.LagPolyExists | src/js/shamir39.js:674-690 | the Lagrange sum is a polynomial with at most as many coefficients as nodes |
| Interp.LagSumAtNode | src/js/shamir39.js:674-690 | at node `x[m]`, the sum over the first `k` terms is `y[m]` once `m < k`, and 0 before |
| Interp.LagSumStep | src/js/shamir39.js:689 | the step equation of the reference sum: one more node adds its `y` times its basis value (the term line 689 adds) |
| Interp.Interpolate | src/js/shamir39.js:669-692 | the Lagrange sum over points of a polynomial with at most as many coefficients as points is that polynomial's value |
| Shamir.Horner | src/js/shamir39.js:570-581 | `horner(x, coeffs)` returns the polynomial's value at `x` |
| Shamir.HornerStep | src/js/shamir39.js:573-579 | one pass, including the `fx === 0` shortcut, moves to one more coefficient |
| Shamir.EvalSuffix | src/js/shamir39.js:578 | Horner's rule: `p(x) = x * rest(x) ^ p[0]` |
| Shamir.GetShares | src/js/shamir39.js:549-563 | share `i` is the point `(i + 1, p(i + 1))` of the polynomial with the secret and the draws as coefficients |
| Shamir.PointProduct | src/js/shamir39.js:679-687 | the inner loop of `lagrange` computes `Product`, breaking to -1 when `at` is another node |
| Shamir.ProductSticky | src/js/shamir39.js:682-685 | once the product is -1 it stays -1 |
| Shamir.ProductIsBasis | src/js/shamir39.js:679-687 | the product is -1 exactly when the basis is 0; otherwise `exps[product] == y * basis` |
| Shamir.Lagrange | src/js/shamir39.js:669-692 | `lagrange(at, x, y)` computes the loop's sum; with a field it is the Lagrange sum, and `y == 0` terms are skipped |
| Shamir.LagrangeIsLagSum | src/js/shamir39.js:669-692 | the log-domain sum of `lagrange` equals the interpolation sum |
| Shamir.LagrangeEvaluates | src/js/shamir39.js:669-692 | on points of a polynomial with at most as many coefficients as points, `lagrange(at, ...)` is its value at `at` |
| Shamir.RecoverSecret | src/js/shamir39.js:662-692 | `lagrange(0, ...)` on at least `threshold` distinct points returns `coeffs[0]` |
| Shamir.ThresholdRecovers | src/js/shamir39.js:549-563 | any `threshold` or more distinct shares from `_getShares` give back the secret at 0 |
| Sharing.Draws | src/js/shamir39.js:553-555 | chunk `i` draws `threshold - 1` values, all field elements |
| Sharing.DrawCoeffs | src/js/shamir39.js:551-555 | the coefficient loop of `_getShares` builds `Coeffs`: the secret, then draw `k` at place `k` |
| Sharing.Coeffs | src/js/shamir39.js:551-555 | a chunk's coefficients are the chunk, then `threshold - 1` draws, all field elements |
| Sharing.ShareValues | src/js/shamir39.js:524-529 | share `x` holds one field element per chunk |
| Sharing.Share | src/js/shamir39.js:486-543 | `share(secret, n, m, padLength, true)` fails on `n` or `m` outside 2..max and on a non-hex secret; otherwise it returns `n` hex strings, share `t` holding `p_i(t + 1)` for every chunk `i` |
| Sharing.ShareChunks | src/js/shamir39.js:524-530 | `y[t]` holds share `t`'s values, `bits` digits each, the last chunk first |
| Sharing.ShareChunk | src/js/shamir39.js:525-529 | one chunk puts its values in front of every `y[t]` |
| Sharing.PrependValues | src/js/shamir39.js:526-529 | the inner loop puts each value, padded to `bits` digits, in front of `y[j]` |
| Sharing.HexAll | src/js/shamir39.js:532-535 | every share is written with `bin2hex` |
| Sharing.ShareValuesSnoc | src/js/shamir39.js:524-529 | one more chunk adds one more value to every share |
| Sharing.ProcessShare | src/js/shamir39.js:592-615 | a share is accepted exactly when its id is in 1..max and its data is nonempty, with the matching error otherwise |
| Sharing.Gather | src/js/shamir39.js:625-647 | the gathered ids are distinct field elements, and each has the chunks of its share |
| Sharing.Store | src/js/shamir39.js:644-645 | `y[j][idx] = v` sets entry `idx`, and leaves holes before it |
| Sharing.Combine | src/js/shamir39.js:622-659 | `_combine` gathers, interpolates every row and writes the result in hex; at 0 it drops everything up to the first 1 |
| Sharing.GatherRows | src/js/shamir39.js:625-647 | the first loop of `_combine` fails as `Gather` does, or keeps its ids with `y` holding its chunks row by row |
| Sharing.RecoverRows | src/js/shamir39.js:649-651 | the second loop interpolates each row, padded to `bits` digits, the last row first |
| Sharing.StoreChunks | src/js/shamir39.js:643-646 | storing a share's chunks grows the rows and touches only column `idx` |
| Sharing.GatherErr | src/js/shamir39.js:625-647 | an error among the first shares is the result |
| Sharing.StoreColumn | src/js/shamir39.js:643-646 | after the store, `y` holds one more share's chunks |
| RoundTrip.GatherDistinct | src/js/shamir39.js:637-646 | shares with distinct ids are all kept, in order |
| RoundTrip.LagrangeSumZeros | src/js/shamir39.js:675-677 | a row of zeros, entries `lagrange` skips, sums to 0 |
| RoundTrip.RecoveredChunks | src/js/shamir39.js:649-651 | interpolating at 0 over at least `threshold` shares gives the secret's chunks, and zeros for padding rows |
| RoundTrip.PartChunks | src/js/shamir39.js:642 | `split(hex2bin(part))` of a share gives its values, then zeros from the hex padding |
| RoundTrip.MarkedSecret | src/js/shamir39.js:521-522 | the reassembled chunks are zeros, the marker 1, then the secret's digits |
| RoundTrip.StripMarker | src/js/shamir39.js:653-655 | slicing after the first 1 returns the secret's digits |
| RoundTrip.SelectedGather | src/js/shamir39.js:625-647 | gathering distinct shares gives their ids and values |
| RoundTrip.CombineGathered | src/js/shamir39.js:622-659 | with enough of the shares gathered, `combine` returns the secret in hex |
| RoundTrip.ShareThenCombine | src/js/shamir39.js:486-664 | `combine` of any `threshold` or more distinct shares of `share(secret, ...)` returns `secret` |
| RoundTrip.SharesSameLength | src/js/shamir39.js:486-543 | all shares of a secret have the same length |
| RoundTrip.StringsSameLength | src/js/shamir39.js:532-535 | all share strings have the same length |
| RoundTrip.WidenedChunks | src/js/shamir39.js:642 | extra leading '0' digits on a share only add zero chunks |
| RoundTrip.WidenedGather | src/js/shamir39.js:625-647 | widened shares gather to their ids, with zero chunks in front |
| RoundTrip.WidenedThenCombine | src/js/shamir39.js:622-664 | shares with the same number of extra leading '0' digits still combine to the secret |
| Words.IndexOf | src/js/shamir39.js:56 | `indexOf` is the first position of the word, and fails exactly when the word is absent |
| Words.IndexOfDistinct | src/js/shamir39.js:56 | in a list without repeats, the word at `i` is found at `i` |
| Words.KnownPrefix | src/js/shamir39.js:54-62 | the loop stops at the first word not in the list |
| Words.IndexAll | src/js/shamir39.js:54-66 | every word's index names that word |
| Words.Lookups | src/js/shamir39.js:235 | `wordlist[i]` is the word, or `undefined` past the end |
| Words.Indices | src/js/shamir39.js:281-286 | eleven-digit fields give indices below 2048 |
| Words.IndicesOfCodes | src/js/shamir39.js:281-286 | reading eleven-digit codes back gives the indices |
| Words.CodesOfIndices | src/js/shamir39.js:281-286 | writing the indices back gives the digits |
| Words.BinToMnemonic | src/js/shamir39.js:274-288 | `binToMnemonic` pads to whole words and looks up one word per eleven digits |
| Words.MnemonicKeepsBits | src/js/shamir39.js:274-288 | every index is below 2048, fewer than eleven zeros are added, and the value is kept |
| Words.TrimToNibbles | src/js/shamir39.js:174-176 | the trim leaves whole nibbles |
| Words.TrimKeepsPayload | src/js/shamir39.js:174-176 | the trim drops only leading zeros |
| TextCodec.MarkersFromBytes | src/js/shamir39.js:802-804 | `BOM_BITS` and `BOM_REV_BITS` are the bytes FF FE and FE FF in binary |
| TextCodec.IsAscii | src/js/shamir39.js:857-864 | `isASCII` holds exactly when every code unit is at most 127 |
| TextCodec.BomSeptets | src/js/shamir39.js:875-877 | the first fourteen digits of `BOM_BITS` read as DEL DEL |
| TextCodec.BomRevSeptets | src/js/shamir39.js:804 | the first fourteen digits of `BOM_REV_BITS` read as DEL '?' |
| TextCodec.IsCompatibleAsciiAsWritten | src/js/shamir39.js:868-882 | as written: ASCII, and not starting with DEL DEL, which is both of its guards |
| TextCodec.IsCompatibleAscii | src/js/shamir39.js:868-882 | as intended: ASCII, and starting with what neither marker reads as |
| TextCodec.Str2BinFits | src/js/shamir39.js:886-904 | `str2bin` does not fail at 16 digits, or at 7 digits on ASCII |
| TextCodec.EncodeStrAsWritten | src/js/shamir39.js:807-816 | `encodeStr` with `isCompatibleASCII` as written: 7 digits per unit when it holds, otherwise the marker and 16 per unit |
| TextCodec.Str2Bin | src/js/shamir39.js:886-904 | `str2bin` fails on a width outside 1..32 or a code unit that does not fit, and otherwise writes each code unit in `bitsPerChar` digits |
| TextCodec.AppendCode | src/js/shamir39.js:899-901 | one pass appends one padded code |
| TextCodec.Bin2Str | src/js/shamir39.js:907-916 | `bin2str` pads to whole characters and reads them left to right |
| TextCodec.ReadCodes | src/js/shamir39.js:912-914 | the loop of `bin2str` reads one code unit per slice |
| TextCodec.DecodeCodes | src/js/shamir39.js:886-916 | `bin2str(str2bin(s, w), w) == s` when every code unit fits in `w` digits |
| TextCodec.EncodeWith | src/js/shamir39.js:807-816 | `encodeStr` writes 7-digit codes, or the marker and 16-digit codes |
| TextCodec.EncodeStr | src/js/shamir39.js:807-816 | the encoding has `7 * len` digits for compatible ASCII, otherwise `16 + 16 * len` |
| TextCodec.DecodeStr | src/js/shamir39.js:818-829 | a detection error is passed on; after UTF-16 detection the rest past the marker is read in 16-digit codes, otherwise the whole in 7-digit codes; the length check never fails |
| TextCodec.DetectUtf16 | src/js/shamir39.js:835-854 | UTF-16 exactly after the marker with whole code units, 7-bit exactly without either marker and with whole septets; the corrupt and reversed cases are errors |
| TextCodec.AsciiNotMarked | src/js/shamir39.js:868-882 | compatible ASCII never encodes to digits that start with either marker |
| TextCodec.TextRoundTrip | src/js/shamir39.js:807-854 | `decodeStr(encodeStr(s)) == s` for every text, with the corrected check |
| TextCodec.AsWrittenLosesText | src/js/shamir39.js:868-882 | as written, the text DEL, '?', grave accent passes `isCompatibleASCII`, encodes to digits that start with `BOM_REV_BITS`, and does not decode |
| TextCodec.TopTwo | src/js/shamir39.js:886-896 | the two leading digits of a septet are both 1 exactly when the unit is 96 or more |
| TextCodec.RevPrefix | src/js/shamir39.js:835-854 | septets DEL then '?' never start with `BOM_BITS`, and start with `BOM_REV_BITS` exactly when the next two digits are 1 |
| TextCodec.DelQuestionCodes | src/js/shamir39.js:835-854 | the 7-bit codes of ASCII text starting DEL '?' start with `BOM_REV_BITS` exactly when the third unit is 96 or more |
| TextCodec.AsWrittenRoundTrip | src/js/shamir39.js:807-882 | as written, `decodeStr(encodeStr(s))` is `s` for every text except the misread ones, for which it throws the reversed-marker error |
| Header.WordCountCode | src/js/shamir39.js:68-71 | the code for a supported count fits three digits, and `3 code + 9` (0 for 0) gives the count back |
| Header.SupportedCodes | src/js/shamir39.js:209-218 | of the eight codes, exactly 0..5 denote a supported count |
| Header.Padding | src/js/shamir39.js:75-76 | the padding is below 4, and makes `5 + p + len` a multiple of 4 |
| Header.PackedLength | src/js/shamir39.js:67-81 | the packed secret, with the passphrase encoded as written, has `5 + p + 11K + len(pass)` digits, a multiple of 4 |
| Header.SecretHex | src/js/shamir39.js:82-90 | the secret is lower-case hex |
| Header.NibblesToHexLoop | src/js/shamir39.js:83-90 | the hex loop of `this.split` writes one digit per nibble |
| Header.Pack | src/js/shamir39.js:67-90 | the packing steps of `this.split` build `SecretHex` of the words and the passphrase, encoded with `isCompatibleASCII` as written |
| Header.WordsOf | src/js/shamir39.js:227-237 | one word per eleven digits |
| Header.ReadWords | src/js/shamir39.js:227-237 | the final word loop of `this.combine` drops the leftover leading digits and looks up each eleven digits |
| Header.Unpack | src/js/shamir39.js:201-241 | the end of `this.combine` reads the header, refuses an unsupported count and decodes the rest |
| Header.UnpackBits | src/js/shamir39.js:204-225 | reading the header fields from the binary |
| Header.UnpackBody | src/js/shamir39.js:221-237 | the passphrase follows the words' digits |
| Header.UnsupportedCode | src/js/shamir39.js:208-218 | codes 6 and 7 are refused with their word count, 27 or 30 |
| Header.ReadPacked | src/js/shamir39.js:67-241 | unpacking the packed secret returns the words and the passphrase, except for a misread passphrase, where it throws the reversed-marker error |
| Header.ReadFields | src/js/shamir39.js:201-241 | a secret with well-formed fields unpacks to its words and decoded passphrase |
| Header.HeaderFields | src/js/shamir39.js:205-209 | the two header fields read back as written |
| Params.ParamWidth | src/js/shamir39.js:252-254 | the width is the smallest multiple of 5 (at least 5) that holds both `m` and `o` |
| Params.ParamGroups | src/js/shamir39.js:261-270 | every group is one lead digit (1 except the last), five digits of `m`, then five of `o` |
| Params.PaddedParams | src/js/shamir39.js:256-257 | both parameters are padded to that width |
| Params.ParamsToBinaryStr | src/js/shamir39.js:245-272 | `paramsToBinaryStr` builds the groups |
| Params.WriteGroups | src/js/shamir39.js:259-271 | the group loop concatenates the groups |
| Params.ParamsWords | src/js/shamir39.js:245-288 | parameter digits are whole words, `binToMnemonic` adds nothing, and the indices are the groups |
| Params.ReadParamWords | src/js/shamir39.js:128-148 | the parameter loop of `this.combine` reads digits until a word whose lead digit is 0 |
| Params.ReadParamsBack | src/js/shamir39.js:128-151 | the parameter words of a split read back as the padded `m` and `o`, and parse to `m` and `o` |
| Params.PaddedValue | src/js/shamir39.js:150-151 | padding does not change the parsed value |
| Params.ReadWord | src/js/shamir39.js:132-147 | one pass of the loop: five digits each, and the lead digit decides whether to stop |
| Params.ReadFrom | src/js/shamir39.js:128-148 | from any group on, the parameter loop reads the rest of both padded parameters |
| Mnemonic.TwelveBits | src/js/shamir39.js:964 | the module works with `init(12)`: 4096 elements, and at most 4095 shares |
| Mnemonic.Split | src/js/shamir39.js:8-113 | `this.split` follows `SplitSpec`, which packs the passphrase as the source does |
| Mnemonic.WordIndexBits | src/js/shamir39.js:52-66 | the word loop fails at the first unknown word; otherwise it writes every index in eleven digits |
| Mnemonic.WriteShares | src/js/shamir39.js:93-109 | one mnemonic per share |
| Mnemonic.WriteShare | src/js/shamir39.js:96-108 | the version, the parameter words, then the share's words |
| Mnemonic.ShareAllAt | src/js/shamir39.js:93-109 | mnemonic `o` is share `o` with parameter `o` |
| Mnemonic.SharesDecode | src/js/shamir39.js:92-104 | every share string is hex, so `hex2bin` on line 104 does not throw |
| Mnemonic.SplitOutcome | src/js/shamir39.js:8-113 | split succeeds exactly when both counts are in 2..4095, the list has 2048 words, there are words or a passphrase, the count is supported, the passphrase has at most 256 units and every word is known; refusals are returned errors; a success has `n` mnemonics |
| Mnemonic.SharesOk | src/js/shamir39.js:92 | `share` cannot fail on the packed secret |
| Mnemonic.SharesLowerHex | src/js/shamir39.js:92 | every share is nonempty lower-case hex |
| Mnemonic.IndexBitsCodes | src/js/shamir39.js:161-173 | the payload loop writes each index in eleven digits |
| Mnemonic.Place | src/js/shamir39.js:178-179 | `hexParts[o] = partHex`: the later share with an index wins, a gap becomes holes, and a NaN index is ignored |
| Mnemonic.Clean | src/js/shamir39.js:181-192 | the clean parts are the nonempty entries, in position order, with `id = position + 1` |
| Mnemonic.Combine | src/js/shamir39.js:116-242 | `this.combine` follows `CombineSpec` |
| Mnemonic.ReadPartWords | src/js/shamir39.js:120-177 | one mnemonic: the version, the parameters, the threshold check, then the payload |
| Mnemonic.ReadPayload | src/js/shamir39.js:161-177 | the payload words give the share's hex, and an unknown word is an error |
| Mnemonic.TrimmedHex | src/js/shamir39.js:174-177 | trim to whole nibbles, then `bin2hex` |
| Mnemonic.CleanParts | src/js/shamir39.js:181-192 | the loop that removes missing parts |
| Mnemonic.PayloadBack | src/js/shamir39.js:104-177 | a share's words read back as its hex, with at most two extra leading '0' digits |
| Mnemonic.TrimPadded | src/js/shamir39.js:174-176 | the trim after `binToMnemonic` padding leaves at most two extra zero digits |
| Mnemonic.ParamsBack | src/js/shamir39.js:99-151 | the parameter words read back as `m` and `o`, whatever follows |
| Mnemonic.ShareWordsBack | src/js/shamir39.js:96-177 | a written mnemonic reads back as `m`, its index and its hex |
| Mnemonic.ReadPartRequired | src/js/shamir39.js:153-160 | a mnemonic read with its own `m` required reads the same |
| Mnemonic.ReadPartSame | src/js/shamir39.js:149-160 | a mnemonic that passes under two required thresholds reads the same under both |
| Mnemonic.CollectAccepts | src/js/shamir39.js:120-180 | every mnemonic that passes carries the same `m` |
| Mnemonic.CombineAccepts | src/js/shamir39.js:116-198 | a successful combine had every mnemonic start with the version and carry the same `m`, and at least `m` distinct positions |
| Mnemonic.CleanHoles | src/js/shamir39.js:183-184 | holes are skipped |
| Mnemonic.CleanPlace | src/js/shamir39.js:178-191 | placing past the end adds one clean part |
| Mnemonic.CleanWidened | src/js/shamir39.js:178-192 | shares placed at distinct positions, in any order, clean to the same shares in increasing position order |
| Mnemonic.CleanSorted | src/js/shamir39.js:181-192 | the clean parts sit at increasing positions and hold the entries at those positions |
| Mnemonic.LayoutValues | src/js/shamir39.js:178-179 | every nonempty entry after placing holds the share placed at its position |
| Mnemonic.LayoutPositions | src/js/shamir39.js:178-179 | the nonempty entries are exactly at the placed positions |
| Mnemonic.LayoutCount | src/js/shamir39.js:178-192 | placing shares at distinct positions leaves as many clean parts as shares |
| Mnemonic.CleanFillHole | src/js/shamir39.js:181-192 | filling one hole adds one clean part |
| Mnemonic.ShareReadBack | src/js/shamir39.js:92-177 | each split mnemonic reads back as its share |
| Mnemonic.SplitThenCombine | src/js/shamir39.js:8-242 | `this.combine` of at least `m` distinct mnemonics from `this.split`, in any order, returns the words and the passphrase, or throws the reversed-marker error for a misread passphrase |
| Mnemonic.SplitThenCombineMisread | src/js/shamir39.js:8-242 | split with the passphrase DEL, '?', grave accent succeeds, and `this.combine` of any `m` of its mnemonics throws |
| Mnemonic.SplitResult | src/js/shamir39.js:8-113 | a split that passes its validation returns the mnemonics of the shares of the secret packed as the source packs it |
| Mnemonic.CombineShares | src/js/shamir39.js:116-242 | combining distinct chosen mnemonics of the shares, in any order, unpacks the secret |
| Mnemonic.CombineFrom | src/js/shamir39.js:193-241 | with enough parts, `combine` of the clean parts unpacks the secret |
| Mnemonic.WidenedSecret | src/js/shamir39.js:622-664 | the chosen shares of a split, with extra '0' digits from the word padding, combine to the secret |
| Mnemonic.LookupsPresent | src/js/shamir39.js:231-237 | looking the indices up gives back the words |

## Left out

- Random numbers (`getRNG`, `setRNG`, `random`, `construct`, `warn`, Node's `crypto` and `window.crypto`) are not modelled. The draws are a parameter `rng`, and the model assumes each draw is a field element.
- `config`: the module object that `init` overwrites is an immutable `Field.Config`, passed to each operation. `getConfig`, `isInited` and the re-initialisation in `share` and `_combine` are not modelled, because `init(12)` runs at load time and nothing else calls `init`.
- `share` without `withoutPrefix` (the bits and id prefix) is not modelled. `this.split` always asks for shares without it, and `this.combine` never passes one.
- The `typeof` and integer checks of `init`, `share`, `processShare`, `validateInt` and `validateStr` are not modelled: Dafny's types rule those inputs out. `processShare`'s width check and `_combine`'s "Mismatched shares" branch cannot fail, because every share uses the one configuration.
- `str2hex`, `hex2str` and `inArray` are not modelled. `inArray` is sequence membership.
- Error texts that JavaScript builds from numbers (`config.max`, the `Math.log` hint of needed bits, the code in `str2bin`) are fixed strings without those numbers.
- Numbers are exact. `parseInt` on more than 53 binary digits, which JavaScript rounds, is not modelled.
- A parameter index `o` of 2^32 - 1 or more sets a property rather than an array entry. It is modelled as ignored.
- Field.PowerSurjective: primitivity of the reduction polynomial is a hypothesis, `Primitive`, proved only for 3 bits (`Field.PrimitiveThree`). Checking the 4095 powers for 12 bits is beyond the verifier. Every field law in `Gf`, `Poly`, `Interp` and `Shamir` takes it through `Gf.IsField`.
- RoundTrip.ShareThenCombine: holds under the primitivity hypothesis (`Gf.IsField`).
- Mnemonic.SplitThenCombine: holds under the primitivity hypothesis. It also assumes a wordlist without repeated words, since a repeated word looks up as its first index.
- `this.split` does not check that `m <= n`, and neither does the model. The round trips need at least `m` shares, which requires `m <= n`.

## Findings

| source | as written | input that shows it | evidently intended | confidence | as-written member | corrected member |
|---|---|---|---|---|---|---|
| src/js/shamir39.js:875-880 | `bom_rev_asc` swaps the two characters of `bom_asc`, but both are DEL (127), so the second guard repeats the first. A text starting DEL '?' is taken as 7-bit ASCII. | the passphrase of code units 127, 63, 96 (DEL, '?', grave accent): its 7-bit encoding starts with `BOM_REV_BITS`, so `decodeStr` throws "Reversed UTF-16 byte order marker detected" | also refuse texts starting with what `BOM_REV_BITS` reads as (DEL '?'), so they are written as UTF-16 | high, not executed | TextCodec.AsWrittenLosesText, TextCodec.AsWrittenRoundTrip, Mnemonic.SplitThenCombineMisread | TextCodec.TextRoundTrip |
