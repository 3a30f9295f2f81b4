# RSA text codec: a Dafny model

This project models and proves the core of a small Python RSA tool.
- **blocks.py** turns a text, as a list of Unicode code points, into integer blocks and back.
  - A block has as many bytes as the modulus.
  - Its layout, from the least significant byte up, is `00`, the block type `02`, random non-zero padding, `00`, then the data. These are the fields of section 8.1 of RFC 2313, in reversed byte order.
  - In the data, each code point is a little-endian sequence of 7-bit groups. The high bit of each byte marks that more groups follow (the byte layout of unsigned LEB128).
  - `unpack` reads blocks of type 00, 01 or 02, checks the separator, and decodes the data.
- **utils.py** holds the extended Euclidean algorithm and the byte length of an integer.
- **rsa.py** derives the private exponent (`_get_d`) and generates keys (`_generate`). Its `encrypt` and `decrypt` apply `pow(block, x, n)` to each block.

Files:
- `numbers.dfy`: powers of two and 256, `bit_length`, and integers read from little-endian bytes.
- `results.dfy`: `Option` and `Result`.
- `codepoint.dfy`: the 7-bit code for one code point, and the decoding used by `_extract_data`.
- `utils.dfy`: `extended_euclid` and `byte_length`.
- `blocks.dfy`: `pack`, `_break_block_to_parts`, `_create_padding_string`, `unpack`, `predicates`, `_unpack_block`, `_extract_data`.
- `rsa.dfy`: `_get_d`, `_generate`, `encrypt`, `decrypt`.

How the model is organised:
- Each loop of the source is a `method` with its loop. It is proved to compute a specification function: `Packed`, `TakeCount`, `PadBytes`, `Unpacked`, `UnpackAll`, `DataOf`, `DecodeUnit`, `EuclidCoefficient`, `NormalizedCoefficient` or `Keys`.
- The properties are lemmas about those functions.
- The random padding source is a function `rng` from the number of earlier draws to a byte in 1..255.
- The primes of the prime library are a function `primes` from the number of earlier draws to a prime.

Where the source raises, the model returns a `Failure`:
- `pack` with n = 0 and nonempty data raises ZeroDivisionError. Its first round takes nothing, and `_create_padding_string(0, 0)` takes a remainder by 0 (blocks.py:44). `CreatePaddingString`, `Pack` and `Encrypt` return `Failure(DivisionByZero)`.
- `_unpack_block` raises KeyError for an unknown block type and ValueError for a missing separator, as `UnpackError` values.
- `_generate` raises ValueError when its final check fails, as a `GenerateError` value. This includes i = 0, where the loop makes no attempt.

Where the source does not return:
- `pack` with n > 0 loops forever when some code point does not fit an empty block.
- `_unpack_block` loops forever on a type-00 block with nothing after its type byte. `unpack` stops at the first block that raises, so only the blocks up to that one matter.
- `_get_d` loops forever for `phi <= 0` with a negative coefficient.

These cases are preconditions of the methods: `n == 0 || PackTerminates(...)` for Pack and Encrypt, `UnpackTerminates` for UnpackBlock, `UnpackReturns` for Unpack and Decrypt, and `phi > 0 || EuclidCoefficient(e, phi) >= 0` for GetD. The specification functions stay total. `TakeCountStopsBefore` and `RejectedStallsPack` show that `PackTerminates` is exactly the condition under which `pack` makes progress.

## Model

| member | source | states |
|---|---|---|
| Numbers.BitLengthBelow | utils.py:19 | `bit_length`: n < 2^k exactly when n has at most k binary digits |
| CodePoint.SetHighBit | blocks.py:30 | setting the high bit of a byte (OR with 0x80) gives `x % 0x80 + 0x80` |
| CodePoint.HighBitTest | blocks.py:89 | `d & 0x80 > 0` on a byte is `d >= 0x80` |
| CodePoint.LowSevenBits | blocks.py:90 | `d & 0x7F` on a byte is `d % 0x80` |
| CodePoint.Encode | blocks.py:28-32 | the bytes of one code point are at least one byte value; the last is below 0x80 and all the others are 0x80 or more |
| CodePoint.EncodeLength | blocks.py:28-32 | a code point of b > 7 bits takes ceil(b / 7) bytes, one of at most 7 bits takes one |
| CodePoint.EncodeShortIsOneByte | blocks.py:33-34 | a code point of at most 7 bits is stored as itself, in one byte |
| CodePoint.DecodeUnit | blocks.py:85-95 | defines one code point read by `_extract_data`'s inner loop; the block left is at most the block shifted by one byte |
| CodePoint.DataOf | blocks.py:82-98 | defines the list `_extract_data` returns, read until the block is 0 |
| CodePoint.DecodeEncode | blocks.py:85-97 | decoding a block whose low bytes encode c yields c and the block made of the bytes that follow |
| CodePoint.DataOfEncodeAll | blocks.py:82-98 | the encodings of code points decode back to the same list when the last code point is not 0 |
| CodePoint.TrailingZeroLost | blocks.py:84 | a code point 0 at the end of the data is dropped on decoding |
| Utils.FloorDiv | utils.py:13 | Python's `//`: the remainder `a - q*b` has the sign of b and is smaller than b in absolute value |
| Utils.GcdDivides | utils.py:12-15 | the Euclid recurrence's result divides both arguments, and is positive unless both are 0 |
| Utils.GcdGreatest | utils.py:12-15 | every common divisor divides that result, so it is the greatest common divisor |
| Utils.BezoutStep | utils.py:14 | the tuple update keeps both triples Bezout combinations `r = a*u + b*v` |
| Utils.GcdStep | utils.py:13-14 | for r >= 0 and r2 > 0 the new remainder is `r % r2`, and the gcd of the pair is kept |
| Utils.EuclidStateSound | utils.py:12-14 | from non-negative remainders, the loop ends at the gcd with its Bezout coefficients |
| Utils.EuclidCoefficientInverse | utils.py:4-15 | for coprime a >= 0 and b > 1 the returned u is an inverse of a modulo b |
| Utils.ExtendedEuclid | utils.py:4-15 | the loop returns the Euclid coefficient of a for all integers; for non-negative inputs `a*u + b*v == gcd(a, b)`; for coprime inputs u inverts a modulo b |
| Utils.ByteLength | utils.py:18-19 | defines `byte_length`; it is 0 exactly for 0 |
| Utils.EuclidCoefficient | utils.py:4-15 | defines the value `extended_euclid(a, b)` returns, by the loop's recurrence (EuclidState) |
| Utils.ByteLengthIsLeast | utils.py:18-19 | `byte_length(i)` is the least k with i < 256^k |
| Blocks.TakeCount | blocks.py:23-35 | defines how many code points one call of `_break_block_to_parts` takes, from the guard and the size check; never more than are left |
| Blocks.Packed | blocks.py:9-17 | defines the list `pack` returns: one block per round, with the later padding draws |
| Blocks.BreakBlockToParts | blocks.py:21-36 | the loop takes exactly TakeCount whole code points, returns their encodings as the parts, and leaves the rest of the list, in order |
| Blocks.AppendCodePoint | blocks.py:28-34 | the inner loop appends exactly the encoding of the code point |
| Blocks.TakeCountTake | blocks.py:23-35 | the next code point is taken when the loop guard and the size check both pass |
| Blocks.TakeCountStop | blocks.py:23-27 | no code point is taken once the guard or the size check fails |
| Blocks.TakeCountTakesAccepted | blocks.py:23-27 | every code point taken passed the guard and size check with the bytes already in the block |
| Blocks.TakeCountStopsAtRejected | blocks.py:23-27 | the first code point left fails the guard or the size check |
| Blocks.TakeCountStopsBefore | blocks.py:23-27 | no round takes or passes a code point that an empty block rejects |
| Blocks.RejectedStallsPack | blocks.py:10-11 | when such a code point is first, a round takes nothing, so `pack` makes no progress |
| Blocks.TakeCountPositive | blocks.py:10-11 | on data that packs, every round takes at least one code point and the block has more than 3 bytes |
| Blocks.TakeCountBound | blocks.py:23-32 | for code points of at most 63 bits, a block's data never exceeds `mod_size - 3` bytes |
| Blocks.WideCodePointOverflowsBlock | blocks.py:26 | a 64-bit code point passes the size check yet makes the data 11 bytes in a 13-byte block |
| Blocks.TakeCountAscii | blocks.py:23-34 | for ASCII data a block takes `min(remaining, mod_size - 3 - used)` code points |
| Blocks.PaddingLengthIsSourceFormula | blocks.py:39-46 | the padding length is 0 when `mod < size`, otherwise `mod - size % mod - 3` clamped at 0 |
| Blocks.PadBytes | blocks.py:45 | the padding has the requested length and every byte is in 1..255 |
| Blocks.CreatePaddingString | blocks.py:39-46 | the ZeroDivisionError for size = mod = 0; otherwise the loop draws the next `PaddingLength(size, mod)` bytes of the random source |
| Blocks.PaddingFillsBlock | blocks.py:44 | for data of at most `mod - 3` bytes the padding brings the block to exactly mod bytes |
| Blocks.PaddingCovers | blocks.py:12-16 | the padded parts are never shorter than the block, so each `pop(0)` has a byte |
| Blocks.PopBlock | blocks.py:14-16 | the loop builds the integer whose byte j is part j, for the first mod_size parts |
| Blocks.Pack | blocks.py:4-18 | `pack` raises ZeroDivisionError exactly for n = 0 and nonempty data; otherwise it returns Packed with n's byte length and the random source from its first draw |
| Blocks.PackedRound | blocks.py:10-17 | a round emits one block from 00, 02, padding, 00 and the taken data, then continues on the rest with the later padding draws |
| Blocks.PackedHead | blocks.py:10-17 | the first block holds k >= 1 code points as 1 to `mod_size - 3` bytes, with exactly as many padding bytes as make the block mod_size bytes long |
| Blocks.RoundSizes | blocks.py:11-13 | the sizes in one round: the data's length, the padding's, and a layout of exactly mod_size bytes |
| Blocks.LayoutShape | blocks.py:13-16 | such a layout is a block with low bytes 00 and 02, below `0x80 * 256^(mod_size - 1)` |
| Blocks.PackedBlocksLayout | blocks.py:9-17 | every block `pack` emits has that shape |
| Blocks.PackTerminatesSuffix | blocks.py:10-11 | what is left after a round still packs |
| Blocks.BlockCountIsCeiling | blocks.py:10-17 | filling blocks of c bytes one at a time gives ceil(len / c) blocks |
| Blocks.AsciiPackTerminates | blocks.py:23-34 | ASCII text always packs when the block has more than 3 bytes |
| Blocks.AsciiBlocks | blocks.py:10-17 | ASCII text packs into as many blocks as filling `mod_size - 3` bytes at a time gives |
| Blocks.AsciiBlockCount | blocks.py:10-17 | L ASCII code points give exactly ceil(L / (mod_size - 3)) blocks |
| Blocks.Unpacked | blocks.py:63-79 | defines the result of `_unpack_block`: the table lookup, padding skip, separator check and data |
| Blocks.UnpackAll | blocks.py:49-52 | defines the result of `unpack`: the blocks' code points in order, or the first failure |
| Blocks.Predicates | blocks.py:56-60 | the table answers exactly for block types 00, 01 and 02 |
| Blocks.PaddingSkipped | blocks.py:70-71 | the padding loop stops at a byte that is not padding of that type, except for type 00 on a block of 0 |
| Blocks.DecodeGroupStep | blocks.py:89-93 | a continuation byte adds its 7 bits at position 7i, below the bits still to come |
| Blocks.DecodeUnitLast | blocks.py:95 | the terminating byte goes in at position 7i and is shifted out |
| Blocks.ReadCodePoint | blocks.py:85-97 | one pass of the outer loop reads one code point and the block that remains |
| Blocks.ExtractData | blocks.py:82-98 | `_extract_data` returns DataOf(block) |
| Blocks.UnpackBlock | blocks.py:63-79 | `_unpack_block` returns Unpacked(block), or the KeyError or ValueError of Unpacked as a failure |
| Blocks.Unpack | blocks.py:49-53 | `unpack` returns the code points of all blocks in order, or the first block's failure, whenever the blocks up to the first failing one return |
| Blocks.AllTerminateReturns | blocks.py:49-52 | if `_unpack_block` returns on every block, `unpack` returns on the list |
| Blocks.UnpackAllAppend | blocks.py:49-52 | unpacking a concatenation is unpacking each part then concatenating, failing at the first failure |
| Blocks.UnpackCons | blocks.py:51-52 | the first block's code points come before the rest's |
| Blocks.SkipPadding | blocks.py:70-71 | the padding loop shifts out exactly the padding run and stops at the first other byte |
| Blocks.BlockHeader | blocks.py:64-68 | the type byte read is the second byte, and what follows is the rest |
| Blocks.UnpackPackedBlock | blocks.py:63-79 | a block laid out as 00, 02, non-zero padding, 00, D returns and yields the code points of D |
| Blocks.FFPaddingMissingSeparator | blocks.py:70-76 | type 01 followed by a byte x in 1..0xFE instead of the separator fails with that type and x |
| Blocks.FFPaddingWithSeparator | blocks.py:70-77 | type 01 with FF padding and the separator yields the code points after it |
| Blocks.ZeroPaddingNoSeparator | blocks.py:70-73 | type 00 takes no separator: the data starts at the first non-zero byte |
| Blocks.UnknownBlockTypeFails | blocks.py:67 | a type byte above 02 fails with that type |
| Blocks.RandomPaddingFindsSeparator | blocks.py:70-77 | for type 02 the separator check never fails |
| Blocks.UnpackFirstBlock | blocks.py:63-98 | the first block unpacks to exactly the code points it took |
| Blocks.PackRoundTrip | blocks.py:4-98 | unpacking the blocks `pack` emits gives the message back, for code points of 1 to 63 bits and any random padding |
| Blocks.PackedBlocksTerminate | blocks.py:70-71 | `unpack` returns on every list of blocks `pack` emits |
| Rsa.ModPow | rsa.py:44 | `pow(b, e, n)` is below n |
| Rsa.GetD | rsa.py:17-22 | `_get_d` returns the Euclid coefficient, shifted into 0..phi-1 when negative |
| Rsa.NormalizedCoefficient | rsa.py:18-22 | defines the value `_get_d` returns, which is never negative |
| Rsa.NormalizedCoefficientCongruent | rsa.py:18-22 | that value is non-negative and congruent to the coefficient modulo phi |
| Rsa.NormalizedCoefficientInverse | rsa.py:18-22 | for e coprime to phi > 1, `_get_d` returns an inverse of e modulo phi |
| Rsa.InverseImpliesCoprime | rsa.py:37-38 | an e with an inverse modulo phi is coprime to phi |
| Rsa.Keys | rsa.py:33-39 | defines what `_generate` returns once p and q are fixed: the ValueError, or a key pair whose two keys share the modulus p * q |
| Rsa.KeysSucceed | rsa.py:33-39 | the final check passes exactly when the chosen e is below phi and coprime to it; then the keys are (e, pq) and (d, pq) with d*e = 1 mod phi |
| Rsa.Generate | rsa.py:24-39 | for i > 0, `_generate` builds Keys from the first attempt whose p*q has 2i bits; for i = 0 it makes no attempt and returns the ValueError |
| Rsa.PhiPositive | rsa.py:33 | phi is positive for two primes, and for the p = q = 0 left when no attempt is made |
| Rsa.ModPowAll | rsa.py:44 | the comprehension gives one value per block, in order, each `pow(block, x, n) < n` |
| Rsa.PackedNeedsModulus | rsa.py:43-44 | `pack` emits no block for n = 0, so pow never sees a zero modulus |
| Rsa.Encrypt | rsa.py:41-45 | `encrypt` raises the ZeroDivisionError of `pack` exactly for n = 0 and a nonempty text; otherwise it returns `pow(block, e, n)` of each packed block, in order |
| Rsa.Decrypt | rsa.py:47-50 | `decrypt` unpacks `pow(block, d, n)` of each block, whenever `unpack` returns on those values |
| Rsa.PackedBlocksBelowModulus | rsa.py:29-44 | for n of a whole number of bytes, every packed block is below n |
| Rsa.TopByteBoundBelowModulus | rsa.py:29 | such an n is at least `0x80 * 256^(byte_length(n) - 1)` |
| Rsa.ModPowAllInverts | rsa.py:44-49 | with a key pair that inverts below n, decrypting the encrypted blocks gives them back |
| Rsa.CipherRoundTrip | rsa.py:53-56 | `decrypt(encrypt(text)) == text` for such a key pair with a whole-byte modulus and code points of 1 to 63 bits |

## Left out

- Conversion between `str` and code points (`ord`, `chr`, `''.join`): text is a sequence of code points. The `ValueError` of `chr` above 0x10FFFF is not modelled.
- `copy.copy` of the input list: lists are values here, so the caller's list cannot change.
- `random.randint(1, 0xFF)`: it is the parameter `rng`, a function from the number of earlier draws to a byte in 1..255.
- `number.getPrime` and `number.getStrongPrime`: the prime library is a foreign call. Its results are the parameters `primes` and `fallbackE`. Primality itself is not modelled, only that each value is at least 2.
- Rsa.Generate: for i > 0 it requires that some attempt fits, since otherwise the retry loop never ends. For i = 0 it returns the ValueError of the final check. It does not model the library raising first in `getStrongPrime(0, 1)`: `fallbackE` is taken as given.
- `read_key` and `read_keys`: file input and a foreign key parser, not modelled.
- `test`, `test_str`, `test_all` and the module-level script: file input and printing. `CipherRoundTrip` states the property `test` checks.
- That keys from `_generate` invert each other (Euler's theorem) is not proved: `Inverts` is a hypothesis of `ModPowAllInverts` and `CipherRoundTrip`.
- `RSA.__init__`: it only stores a key pair, modelled as the value `KeyPair`. The default `key_length` only feeds `_generate`.
- The in-place `pop(0)` calls on the caller's list and on the parts: modelled on values. `BreakBlockToParts` returns the remaining list, and `PopBlock` reads the parts in order.
- The nested loops of `_break_block_to_parts`, `pack` and `_extract_data` are split into the methods `AppendCodePoint`, `PopBlock` and `ReadCodePoint`, one loop each.
- Non-termination is not modelled: the methods require the inputs on which the source returns (see above).
- A `pow` with modulus 0 raises in Python. `ModPowAll` requires n > 0 or no blocks, and `PackedNeedsModulus` shows that `pack` guarantees this.
- Blocks.PackRoundTrip: restricted to code points of 1 to 63 bits, because the round trip is false outside that range:
  - a code point 0 that ends a block's data is lost (`TrailingZeroLost`);
  - a code point of 64 bits or more can pass the size check and overflow the block (`WideCodePointOverflowsBlock`), and `pop(0)` then drops its last byte.

  Code points from a Python `str` are at most 21 bits, so only list inputs reach the second case.
- Blocks.TakeCountBound: stated for code points of at most 63 bits, not 64. The size check estimates ceil(bits / 8) bytes and leaves one byte of slack, which covers ceil(bits / 7) only up to 63 bits: a 64-bit code point takes 10 bytes where the check counts 8.
- Rsa.CipherRoundTrip: also requires a modulus whose bit length is a multiple of 8. Otherwise a block can exceed n, which the source does not prevent.
