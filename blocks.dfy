/** blocks.py: packing a list of code points into blocks of the modulus' byte
    length, laid out (byte 0 being the least significant byte of the block
    integer) as 00, block type 02, padding, 00, data -- the fields of section
    8.1 of RFC 2313, in reversed byte order -- and unpacking such blocks.

    Each function below states what one loop of the source computes; the
    methods are the loops themselves, proved to compute it. */
module Blocks {
  import opened Numbers
  import opened Results
  import opened CodePoint
  import opened Utils

  /** A padding byte: the random source draws one from 1..255 (blocks.py:45). */
  type PadByte = b: nat | 1 <= b <= 0xFF witness 1

  /*********************************************************************
   * Packing
   *********************************************************************/

  /** Whether `_break_block_to_parts` takes code point c into a block that
      already holds `used` data bytes: the loop guard, then for a code point
      wider than 7 bits the size check, which estimates its length as
      ceil(bitlen / 8) bytes. */
  predicate Accepts(c: nat, used: nat, modSize: nat)
  {
    && used < modSize - 3
    && (BitLength(c) <= 7 || (BitLength(c) + 7) / 8 + used < modSize - 3)
  }

  /** The number of code points of `data` that `_break_block_to_parts` takes
      into a block that already holds `used` data bytes. */
  function TakeCount(data: seq<nat>, used: nat, modSize: nat): (k: nat)
    ensures k <= |data|
    decreases |data|
  {
    if |data| > 0 && Accepts(data[0], used, modSize)
    then 1 + TakeCount(data[1..], used + |Encode(data[0])|, modSize)
    else 0
  }

  /** For a block of at least one byte, `pack` terminates exactly when every
      code point would be taken into an empty block: otherwise, once it is
      first in the remaining data, each round takes nothing (see
      TakeCountStopsBefore and RejectedStallsPack). This needs a block of more
      than 3 bytes. For a block of 0 bytes (n = 0) and nonempty data, `pack`
      raises instead (see Pack). */
  predicate PackTerminates(data: seq<nat>, modSize: nat)
  {
    forall i :: 0 <= i < |data| ==> Accepts(data[i], 0, modSize)
  }

  /** The number of bytes `_create_padding_string(size, mod)` produces: none
      when mod < size, else `mod - size % mod - 3` (a negative count is an
      empty range). For size <= mod, `size % mod` is size, or 0 when size is
      mod; PaddingLengthIsSourceFormula shows the two agree. */
  function PaddingLength(size: nat, mod: nat): nat
    requires mod > 0 || size > 0
  {
    if mod < size then 0
    else if size == mod then (if mod < 3 then 0 else mod - 3)
    else if mod - size < 3 then 0
    else mod - size - 3
  }

  lemma PaddingLengthIsSourceFormula(size: nat, mod: nat)
    requires mod > 0
    ensures PaddingLength(size, mod) ==
      if mod < size then 0
      else if mod - size % mod - 3 < 0 then 0
      else mod - size % mod - 3
  {
    if size < mod {
      DivModUnique(size, mod, 0, size);
    } else if size == mod {
      DivModUnique(mod, mod, 1, 0);
    }
  }

  /** The `count` padding bytes the random source yields after `drawn` earlier
      draws. */
  function PadBytes(rng: nat -> PadByte, drawn: nat, count: nat): (ps: seq<nat>)
    ensures |ps| == count
    ensures forall j :: 0 <= j < count ==> 1 <= ps[j] <= 0xFF
  {
    seq(count, j requires 0 <= j < count => rng(drawn + j) as nat)
  }

  /** The integer whose bytes are the first modSize of `parts`, byte 0 the
      least significant: the `pop(0)` loop of `pack`. */
  function BlockOf(parts: seq<nat>, modSize: nat): nat
    requires modSize <= |parts|
  {
    FromBytes(parts[..modSize])
  }

  /** The list of blocks `pack` returns, for a block length of modSize bytes,
      when the random source has already produced `drawn` bytes. Where a
      round takes no code point, `pack` never returns or, for modSize = 0,
      raises (Pack rules both out); the list stops there. */
  function Packed(data: seq<nat>, modSize: nat, rng: nat -> PadByte, drawn: nat): seq<nat>
    decreases |data|
  {
    var k := TakeCount(data, 0, modSize);
    if k == 0 then []
    else
      var d := EncodeAll(data[..k]);
      var ps := PadBytes(rng, drawn, PaddingLength(|d|, modSize));
      PaddingCovers(|d|, modSize);
      [BlockOf([0, 2] + ps + [0] + d, modSize)] + Packed(data[k..], modSize, rng, drawn + |ps|)
  }

  /** One round of `pack`, with k, d and ps the code points taken, their
      bytes and the padding: the first block ... */
  lemma PackedStepHead(data: seq<nat>, modSize: nat, rng: nat -> PadByte, drawn: nat, k: nat, d: seq<nat>, ps: seq<nat>)
    requires |data| > 0 && Accepts(data[0], 0, modSize)
    requires k == TakeCount(data, 0, modSize) && d == EncodeAll(data[..k])
    requires ps == PadBytes(rng, drawn, PaddingLength(|d|, modSize))
    ensures modSize <= |[0, 2] + ps + [0] + d|
    ensures |Packed(data, modSize, rng, drawn)| > 0
    ensures Packed(data, modSize, rng, drawn)[0] == BlockOf([0, 2] + ps + [0] + d, modSize)
  {
    PaddingCovers(|d|, modSize);
  }

  /** ... and the rounds that follow. */
  lemma PackedStepTail(data: seq<nat>, modSize: nat, rng: nat -> PadByte, drawn: nat, k: nat, d: seq<nat>, ps: seq<nat>)
    requires |data| > 0 && Accepts(data[0], 0, modSize)
    requires k == TakeCount(data, 0, modSize) && d == EncodeAll(data[..k])
    requires ps == PadBytes(rng, drawn, PaddingLength(|d|, modSize))
    ensures Packed(data, modSize, rng, drawn)[1..] == Packed(data[k..], modSize, rng, drawn + |ps|)
  {
  }

  /** ... so that each round adds one block. */
  lemma PackedLength(data: seq<nat>, modSize: nat, rng: nat -> PadByte, drawn: nat, k: nat, d: seq<nat>, ps: seq<nat>)
    requires |data| > 0 && Accepts(data[0], 0, modSize)
    requires k == TakeCount(data, 0, modSize) && d == EncodeAll(data[..k])
    requires ps == PadBytes(rng, drawn, PaddingLength(|d|, modSize))
    ensures |Packed(data, modSize, rng, drawn)| == 1 + |Packed(data[k..], modSize, rng, drawn + |ps|)|
  {
    PackedStepTail(data, modSize, rng, drawn, k, d, ps);
  }

  /** ... so that a round of `pack` that emits `block` continues with the
      rounds on the rest of the data. */
  lemma PackedRound(data: seq<nat>, modSize: nat, rng: nat -> PadByte, drawn: nat, k: nat, d: seq<nat>, ps: seq<nat>, block: nat)
    requires |data| > 0 && Accepts(data[0], 0, modSize)
    requires k == TakeCount(data, 0, modSize) && d == EncodeAll(data[..k])
    requires ps == PadBytes(rng, drawn, PaddingLength(|d|, modSize))
    requires modSize <= |[0, 2] + ps + [0] + d| && block == BlockOf([0, 2] + ps + [0] + d, modSize)
    ensures Packed(data, modSize, rng, drawn) == [block] + Packed(data[k..], modSize, rng, drawn + |ps|)
  {
    PackedStepHead(data, modSize, rng, drawn, k, d, ps);
    PackedStepTail(data, modSize, rng, drawn, k, d, ps);
    HeadTail(Packed(data, modSize, rng, drawn), block, Packed(data[k..], modSize, rng, drawn + |ps|));
  }

  /** Equal arguments, equal blocks: a congruence step that `Pack` needs
      because it hides the definition of Packed from the prover. */
  lemma PackedSameArguments(data: seq<nat>, data': seq<nat>, modSize: nat, rng: nat -> PadByte, drawn: nat, drawn': nat)
    requires data == data' && drawn == drawn'
    ensures Packed(data, modSize, rng, drawn) == Packed(data', modSize, rng, drawn')
  {
  }

  lemma PackTerminatesSuffix(data: seq<nat>, modSize: nat, k: nat)
    requires k <= |data| && PackTerminates(data, modSize)
    ensures PackTerminates(data[k..], modSize)
  {
    assert forall i :: 0 <= i < |data[k..]| ==> data[k..][i] == data[k + i];
  }

  /** `_break_block_to_parts`. The source pops the taken code points off the
      front of its argument list; here the remaining list is returned as
      `rest`. */
  method BreakBlockToParts(data: seq<nat>, modSize: nat) returns (parts: seq<nat>, rest: seq<nat>)
    ensures |rest| <= |data|
    ensures var k := |data| - |rest|;
      && k == TakeCount(data, 0, modSize)
      && rest == data[k..]
      && parts == EncodeAll(data[..k])
    ensures modSize <= 3 ==> parts == [] && rest == data
  {
    parts := [];
    rest := data;
    ghost var k := 0;
    while |rest| > 0 && |parts| < modSize - 3
      invariant k == |data| - |rest| && rest == data[k..]
      invariant modSize <= 3 ==> k == 0 && parts == []
      invariant parts == EncodeAll(data[..k])
      invariant TakeCount(data, 0, modSize) == k + TakeCount(rest, |parts|, modSize)
      decreases |rest|
    {
      var i := rest[0];  // read first and removed only once taken (blocks.py:24, 35)
      if BitLength(i) > 7 && (BitLength(i) + 7) / 8 + |parts| >= modSize - 3 {
        TakeCountStop(rest, |parts|, modSize);
        break;
      }
      ghost var used := |parts|;
      parts := AppendCodePoint(parts, i);
      TakeCountTake(rest, used, modSize, |parts|);
      EncodeStep(data, k);
      rest := rest[1..];
      k := k + 1;
    }
    if !(|rest| > 0 && |parts| < modSize - 3) {
      TakeCountStop(rest, |parts|, modSize);
    }
  }

  /** The bytes `_break_block_to_parts` appends for one code point i: while
      i is wider than 7 bits its low 7 bits with the high bit set, then what
      is left of i. */
  method AppendCodePoint(parts: seq<nat>, c: nat) returns (r: seq<nat>)
    ensures r == parts + Encode(c)
  {
    r := parts;
    var i := c;
    if BitLength(i) > 7 {
      while BitLength(i) > 7
        invariant r + Encode(i) == parts + Encode(c)
        decreases i
      {
        BitLengthBelow(i, 7);
        assert Pow2(7) == 0x80;
        r := r + [i % 0x80 + 0x80];  // low 7 bits, high bit set (blocks.py:30; see SetHighBit)
        i := i / 0x80;               // shift out 7 bits (blocks.py:31)
      }
      EncodeShortIsOneByte(i);
      r := r + [i];                  // the last group, already below 0x80 (blocks.py:32)
    } else {
      EncodeShortIsOneByte(i);
      r := r + [i];
    }
  }

  /** The loop of `_break_block_to_parts` takes the next code point when
      the guard holds and the size check does not break ... */
  lemma TakeCountTake(s: seq<nat>, used: nat, modSize: nat, used': nat)
    requires |s| > 0 && used < modSize - 3
    requires !(BitLength(s[0]) > 7 && (BitLength(s[0]) + 7) / 8 + used >= modSize - 3)
    requires used' == used + |Encode(s[0])|
    ensures TakeCount(s, used, modSize) == 1 + TakeCount(s[1..], used', modSize)
  {
  }

  /** ... and takes no more when either fails. */
  lemma TakeCountStop(s: seq<nat>, used: nat, modSize: nat)
    requires !(|s| > 0 && used < modSize - 3)
      || (BitLength(s[0]) > 7 && (BitLength(s[0]) + 7) / 8 + used >= modSize - 3)
    ensures TakeCount(s, used, modSize) == 0
  {
  }

  /** One step of TakeCount. */
  lemma TakeCountUnfold(s: seq<nat>, used: nat, modSize: nat)
    ensures |s| > 0 && Accepts(s[0], used, modSize) ==>
      TakeCount(s, used, modSize) == 1 + TakeCount(s[1..], used + |Encode(s[0])|, modSize)
    ensures !(|s| > 0 && Accepts(s[0], used, modSize)) ==> TakeCount(s, used, modSize) == 0
  {
  }

  /** Every round of `pack` on data that packs takes a code point. */
  lemma TakeCountPositive(data: seq<nat>, modSize: nat)
    requires |data| > 0 && PackTerminates(data, modSize)
    ensures modSize > 3 && TakeCount(data, 0, modSize) >= 1
  {
    assert Accepts(data[0], 0, modSize);
  }

  /** One more code point encoded. */
  lemma EncodeStep(data: seq<nat>, k: nat)
    requires k < |data|
    ensures EncodeAll(data[..k + 1]) == EncodeAll(data[..k]) + Encode(data[k])
  {
    assert data[..k + 1] == data[..k] + [data[k]];
    EncodeAllAppend(data[..k], [data[k]]);
    assert EncodeAll([data[k]]) == Encode(data[k]);
  }

  /** The ZeroDivisionError `_create_padding_string(0, 0)` raises at
      blocks.py:44, which `pack` reaches for n = 0 and nonempty data. */
  datatype PackError = DivisionByZero

  /** `_create_padding_string`: the bytes the source draws at random are here
      the next values of `rng`. */
  method CreatePaddingString(size: nat, mod: nat, rng: nat -> PadByte, drawn: nat) returns (r: Result<seq<nat>, PackError>)
    ensures size == 0 && mod == 0 ==> r == Failure(DivisionByZero)
    ensures !(size == 0 && mod == 0) ==> r == Success(PadBytes(rng, drawn, PaddingLength(size, mod)))
  {
    if mod < size {
      return Success([]);
    }
    if mod == 0 {
      return Failure(DivisionByZero);  // the remainder by mod (blocks.py:44)
    }
    PaddingLengthIsSourceFormula(size, mod);
    var ps := [];
    var count := mod - size % mod - 3;
    for j := 0 to if count < 0 then 0 else count
      invariant ps == PadBytes(rng, drawn, j)
    {
      ps := ps + [rng(drawn + j) as nat];
    }
    return Success(ps);
  }

  /** `pack`. The source copies the caller's list before consuming it; a Dafny
      sequence is a value, so the caller's `data` is unchanged as well. The
      count of bytes drawn from the random source so far is `drawn`. For
      n = 0 the first round takes nothing and the padding fails with
      DivisionByZero; otherwise `pack` returns when PackTerminates holds. */
  method Pack(data: seq<nat>, n: nat, rng: nat -> PadByte) returns (r: Result<seq<nat>, PackError>)
    requires n == 0 || PackTerminates(data, ByteLength(n))
    ensures n == 0 && |data| > 0 ==> r == Failure(DivisionByZero)
    ensures !(n == 0 && |data| > 0) ==> r == Success(Packed(data, ByteLength(n), rng, 0))
  {
    hide Packed, TakeCount, EncodeAll, PadBytes, PaddingLength;
    var blocks := [];
    var rest := data;
    var modSize := ByteLength(n);
    var drawn: nat := 0;  // how many bytes the random source has produced
    while |rest| > 0
      invariant modSize == 0 ==> rest == data
      invariant modSize > 0 ==> PackTerminates(rest, modSize)
      invariant blocks + Packed(rest, modSize, rng, drawn) == Packed(data, modSize, rng, 0)
      decreases |rest|
    {
      ghost var before, drawnBefore := rest, drawn;
      if modSize > 0 {
        assert Accepts(rest[0], 0, modSize);
        TakeCountPositive(rest, modSize);
      }
      var parts;
      parts, rest := BreakBlockToParts(rest, modSize);
      ghost var k, d := |before| - |rest|, parts;
      var padding := CreatePaddingString(|parts|, modSize, rng, drawn);
      if padding.Failure? {
        return Failure(padding.error);
      }
      var ps := padding.value;
      drawn := drawn + |ps|;
      parts := [0, 2] + ps + [0] + parts;  // the header of blocks.py:13
      PaddingCovers(|d|, modSize);
      PackTerminatesSuffix(before, modSize, k);
      var block := PopBlock(parts, modSize);
      PackedRound(before, modSize, rng, drawnBefore, k, d, ps, block);
      PackedSameArguments(before[k..], rest, modSize, rng, drawnBefore + |ps|, drawn);
      assert (blocks + [block]) + Packed(rest, modSize, rng, drawn) == blocks + ([block] + Packed(rest, modSize, rng, drawn));
      blocks := blocks + [block];
    }
    NoBlocks(rest, modSize, rng, drawn);
    assert blocks + [] == blocks;
    return Success(blocks);
  }

  /** The `pop(0)` loop of `pack`: byte j of the block is the j-th of the
      first modSize parts. */
  method PopBlock(parts: seq<nat>, modSize: nat) returns (block: nat)
    requires modSize <= |parts|
    ensures block == BlockOf(parts, modSize)
  {
    block := 0;
    var left := parts;
    for j := 0 to modSize
      invariant left == parts[j..]
      invariant block == FromBytes(parts[..j])
    {
      assert parts[..j + 1] == parts[..j] + [parts[j]];
      FromBytesSnoc(parts[..j], parts[j]);
      block := block + left[0] * Pow256(j);  // the popped part as byte j (blocks.py:16)
      left := left[1..];
    }
  }

  /** A nonempty sequence is its head followed by its tail. */
  lemma HeadTail(s: seq<nat>, x: nat, t: seq<nat>)
    requires |s| > 0 && s[0] == x && s[1..] == t
    ensures s == [x] + t
  {
    assert s == [s[0]] + s[1..];
  }

  /*********************************************************************
   * Properties of packing
   *********************************************************************/

  /** PaddingLength fills the block: the padding and the three fixed bytes
      leave room for exactly `size` data bytes. */
  lemma PaddingFillsBlock(size: nat, mod: nat)
    requires size <= mod - 3
    ensures PaddingLength(size, mod) == mod - 3 - size
  {
  }

  /** The padded parts are never shorter than the block, so the `pop(0)` loop
      of `pack` never runs out. */
  lemma PaddingCovers(size: nat, mod: nat)
    requires mod > 0
    ensures 3 + PaddingLength(size, mod) + size >= mod
  {
  }

  /** The bytes of a nonempty prefix: those of its first code point, then
      those of the rest. */
  lemma EncodeAllPrefix(data: seq<nat>, j: nat)
    requires 0 < j <= |data|
    ensures EncodeAll(data[..j]) == Encode(data[0]) + EncodeAll(data[1..][..j - 1])
  {
    assert data[..j] == [data[0]] + data[1..][..j - 1];
    assert data[..j][1..] == data[1..][..j - 1];
  }

  /** `_break_block_to_parts` is greedy: every code point it takes passed the
      checks at the point where it was taken ... */
  lemma {:induction false} TakeCountTakesAccepted(data: seq<nat>, used: nat, modSize: nat, j: nat)
    requires j < TakeCount(data, used, modSize)
    ensures Accepts(data[j], used + |EncodeAll(data[..j])|, modSize)
    decreases j
  {
    TakeCountUnfold(data, used, modSize);
    if j == 0 {
      assert data[..0] == [];
    } else {
      EncodeAllPrefix(data, j);
      TakeCountTakesAccepted(data[1..], used + |Encode(data[0])|, modSize, j - 1);
      assert data[1..][j - 1] == data[j];
    }
  }

  /** ... and the first code point it leaves does not. */
  lemma {:induction false} TakeCountStopsAtRejected(data: seq<nat>, used: nat, modSize: nat)
    requires TakeCount(data, used, modSize) < |data|
    ensures var k := TakeCount(data, used, modSize);
      !Accepts(data[k], used + |EncodeAll(data[..k])|, modSize)
    decreases |data|
  {
    var k := TakeCount(data, used, modSize);
    TakeCountUnfold(data, used, modSize);
    if k == 0 {
      assert data[..0] == [];
    } else {
      var used' := used + |Encode(data[0])|;
      TakeCountStopsAtRejected(data[1..], used', modSize);
      EncodeAllPrefix(data, k);
      assert data[1..][k - 1] == data[k];
    }
  }

  /** Why `pack` needs PackTerminates: a code point that an empty block
      rejects is rejected however full the block is, so no round takes it
      or goes past it ... */
  lemma {:induction false} TakeCountStopsBefore(data: seq<nat>, used: nat, modSize: nat, i: nat)
    requires i < |data| && !Accepts(data[i], 0, modSize)
    ensures TakeCount(data, used, modSize) <= i
    decreases i
  {
    TakeCountUnfold(data, used, modSize);
    if i > 0 && Accepts(data[0], used, modSize) {
      assert data[1..][i - 1] == data[i];
      TakeCountStopsBefore(data[1..], used + |Encode(data[0])|, modSize, i - 1);
    }
  }

  /** ... and once it is first, a round takes nothing, so the loop of `pack`
      repeats that round forever. */
  lemma RejectedStallsPack(data: seq<nat>, modSize: nat)
    requires |data| > 0 && !Accepts(data[0], 0, modSize)
    ensures TakeCount(data, 0, modSize) == 0
    ensures !PackTerminates(data, modSize)
  {
  }

  /** The size check lets at most one byte too many through for a wider code
      point, and the check's `>=` leaves that byte spare: a block never gets
      more than modSize - 3 data bytes while code points are at most 63 bits
      wide (so all of Unicode). */
  lemma {:induction false} TakeCountBound(data: seq<nat>, used: nat, modSize: nat)
    requires used <= modSize - 3
    requires forall i :: 0 <= i < |data| ==> BitLength(data[i]) <= 63
    ensures used + |EncodeAll(data[..TakeCount(data, used, modSize)])| <= modSize - 3
    decreases |data|
  {
    var k := TakeCount(data, used, modSize);
    TakeCountUnfold(data, used, modSize);
    if k == 0 {
      assert data[..0] == [];
    } else {
      var c := data[0];
      EncodeLength(c);
      var used' := used + |Encode(c)|;
      assert forall i :: 0 <= i < |data[1..]| ==> data[1..][i] == data[i + 1];
      TakeCountBound(data[1..], used', modSize);
      EncodeAllPrefix(data, k);
    }
  }

  /** The bound fails from bit length 64 on: a code point c of 64 bits (such
      as 2^63, see Pow2BitLength) after one ASCII character in a 13-byte block
      is taken, and the data then has 11 bytes where 10 fit. */
  lemma WideCodePointOverflowsBlock(c: nat)
    requires BitLength(c) == 64
    ensures TakeCount([0x41, c], 0, 13) == 2
    ensures |EncodeAll([0x41, c])| == 11 > 13 - 3
  {
    var data := [0x41, c];
    EncodeLength(c);
    assert |Encode(c)| == 10;
    BitLengthBelow(0x41, 7);
    assert Pow2(7) == 0x80;
    EncodeShortIsOneByte(0x41);
    assert Accepts(data[0], 0, 13);
    assert Accepts(data[1..][0], 1, 13);
    assert data[1..][1..] == [];
    TakeCountUnfold(data, 0, 13);
    TakeCountUnfold(data[1..], 1, 13);
    TakeCountUnfold(data[1..][1..], 11, 13);
    assert data[1..] == [c];
    assert EncodeAll([c]) == Encode(c) + EncodeAll([]);
    assert EncodeAll(data) == [0x41] + EncodeAll([c]);
  }

  /** For ASCII data a block takes as many code points as fit. */
  lemma {:induction false} TakeCountAscii(data: seq<nat>, used: nat, modSize: nat)
    requires used <= modSize - 3
    requires forall i :: 0 <= i < |data| ==> data[i] < 0x80
    ensures TakeCount(data, used, modSize) == if |data| < modSize - 3 - used then |data| else modSize - 3 - used
    decreases |data|
  {
    if |data| > 0 {
      BitLengthBelow(data[0], 7);
      assert Pow2(7) == 0x80;
      if used < modSize - 3 {
        TakeCountAscii(data[1..], used + 1, modSize);
      }
    }
  }

  /** The last data byte of a block is the terminating byte of a code point. */
  lemma {:induction false} EncodeAllLastByte(cs: seq<nat>)
    requires |cs| > 0
    ensures |EncodeAll(cs)| > 0 && EncodeAll(cs)[|EncodeAll(cs)| - 1] < 0x80
    decreases |cs|
  {
    if |cs| > 1 {
      EncodeAllLastByte(cs[1..]);
    }
  }

  /** The sizes in the first round of `pack`: it takes at least one code
      point, whose bytes fill at most modSize - 3 bytes, and exactly
      modSize - 3 - |D| padding bytes fill the rest. */
  lemma RoundSizes(data: seq<nat>, modSize: nat, rng: nat -> PadByte, drawn: nat, k: nat, d: seq<nat>, ps: seq<nat>)
    requires |data| > 0 && Accepts(data[0], 0, modSize)
    requires forall i :: 0 <= i < |data| ==> BitLength(data[i]) <= 63
    requires k == TakeCount(data, 0, modSize) && d == EncodeAll(data[..k])
    requires ps == PadBytes(rng, drawn, PaddingLength(|d|, modSize))
    ensures 1 <= k && 1 <= |d| <= modSize - 3 && |ps| == modSize - 3 - |d|
    ensures |[0, 2] + ps + [0] + d| == modSize
  {
    TakeCountUnfold(data, 0, modSize);
    TakeCountBound(data, 0, modSize);
    var taken := data[..k];
    assert EncodeAll(taken) == Encode(taken[0]) + EncodeAll(taken[1..]);
    PaddingFillsBlock(|EncodeAll(taken)|, modSize);
  }

  /** The first block `pack` emits: the greedy prefix of the data, encoded,
      preceded by 00, 02, exactly modSize - 3 - |D| padding bytes and 00, so
      that the block has exactly modSize bytes with the data at the top. */
  lemma PackedHead(data: seq<nat>, modSize: nat, rng: nat -> PadByte, drawn: nat)
    requires |data| > 0 && PackTerminates(data, modSize)
    requires forall i :: 0 <= i < |data| ==> BitLength(data[i]) <= 63
    ensures var k := TakeCount(data, 0, modSize);
      var d := EncodeAll(data[..k]);
      var ps := PadBytes(rng, drawn, PaddingLength(|d|, modSize));
      && 1 <= k
      && 1 <= |d| <= modSize - 3
      && |ps| == modSize - 3 - |d|
      && |[0, 2] + ps + [0] + d| == modSize
      && Packed(data, modSize, rng, drawn)
         == [FromBytes([0, 2] + ps + [0] + d)] + Packed(data[k..], modSize, rng, drawn + |ps|)
  {
    assert Accepts(data[0], 0, modSize);
    var k := TakeCount(data, 0, modSize);
    var d := EncodeAll(data[..k]);
    var ps := PadBytes(rng, drawn, PaddingLength(|d|, modSize));
    RoundSizes(data, modSize, rng, drawn, k, d, ps);
    var layout := [0, 2] + ps + [0] + d;
    assert layout[..modSize] == layout;
    PackedRound(data, modSize, rng, drawn, k, d, ps, FromBytes(layout));
  }

  /** The shape of a block `pack` emits: it starts (at its low end) with the
      bytes 00 and 02 and stays below 0x80 * 256^(modSize - 1), hence below
      256^modSize. */
  predicate PackedBlockShape(block: nat, modSize: nat)
  {
    && modSize > 0
    && block % 256 == 0x00
    && block / 256 % 256 == 0x02
    && block < 0x80 * Pow256(modSize - 1)
    && block < Pow256(modSize)
  }

  /** 00, 02, padding, 00 and data ending in a terminating byte make a block
      of that shape. */
  lemma LayoutShape(ps: seq<nat>, d: seq<nat>, modSize: nat)
    requires forall j :: 0 <= j < |ps| ==> 1 <= ps[j] <= 0xFF
    requires IsBytes(d) && |d| > 0 && d[|d| - 1] < 0x80
    requires |[0, 2] + ps + [0] + d| == modSize
    ensures PackedBlockShape(FromBytes([0, 2] + ps + [0] + d), modSize)
  {
    var parts := [0, 2] + ps + [0] + d;
    assert parts == [0] + ([2] + (ps + [0] + d));
    FromBytesCons(0, [2] + (ps + [0] + d));
    FromBytesCons(2, ps + [0] + d);
    assert parts[|parts| - 1] == d[|d| - 1];
    FromBytesBelowTop(parts, 0x80);
    assert Pow256(modSize) == 256 * Pow256(modSize - 1);
    MulMonotone(0x80, 256, Pow256(modSize - 1));
  }

  /** Every block of the list has that shape. */
  predicate AllShaped(blocks: seq<nat>, modSize: nat)
  {
    forall i :: 0 <= i < |blocks| ==> PackedBlockShape(blocks[i], modSize)
  }

  /** Every block `pack` emits has that shape. */
  lemma {:induction false} PackedBlocksLayout(data: seq<nat>, modSize: nat, rng: nat -> PadByte, drawn: nat)
    requires PackTerminates(data, modSize)
    requires forall i :: 0 <= i < |data| ==> BitLength(data[i]) <= 63
    ensures AllShaped(Packed(data, modSize, rng, drawn), modSize)
    decreases |data|
  {
    hide Packed, TakeCount, EncodeAll, PackedBlockShape, PaddingLength;
    if |data| > 0 {
      assert Accepts(data[0], 0, modSize);
      var k := TakeCount(data, 0, modSize);
      var d := EncodeAll(data[..k]);
      var ps := PadBytes(rng, drawn, PaddingLength(|d|, modSize));
      RoundSizes(data, modSize, rng, drawn, k, d, ps);
      var layout := [0, 2] + ps + [0] + d;
      PackedStepHead(data, modSize, rng, drawn, k, d, ps);
      PackedStepTail(data, modSize, rng, drawn, k, d, ps);
      PackTerminatesSuffix(data, modSize, k);
      PackedBlocksLayout(data[k..], modSize, rng, drawn + |ps|);
      EncodeAllLastByte(data[..k]);
      LayoutShape(ps, d, modSize);
      assert layout[..modSize] == layout;
      ShapedCons(Packed(data, modSize, rng, drawn), Packed(data[k..], modSize, rng, drawn + |ps|), modSize);
    } else {
      NoBlocks(data, modSize, rng, drawn);
    }
  }

  /** No data, no blocks. */
  lemma NoBlocks(data: seq<nat>, modSize: nat, rng: nat -> PadByte, drawn: nat)
    requires |data| == 0
    ensures Packed(data, modSize, rng, drawn) == []
  {
  }

  /** A list of blocks has that shape when its head and its tail do. */
  lemma ShapedCons(blocks: seq<nat>, tail: seq<nat>, modSize: nat)
    requires |blocks| > 0 && blocks[1..] == tail && PackedBlockShape(blocks[0], modSize)
    requires AllShaped(tail, modSize)
    ensures AllShaped(blocks, modSize)
  {
    forall i | 0 < i < |blocks| ensures PackedBlockShape(blocks[i], modSize) {
      assert blocks[i] == tail[i - 1];
    }
  }

  /** The number of blocks of c bytes needed for len bytes, counted block
      by block; BlockCountIsCeiling shows it is len / c rounded up. */
  function BlockCount(len: nat, c: nat): nat
    requires c > 0
    decreases len
  {
    if len == 0 then 0 else if len <= c then 1 else 1 + BlockCount(len - c, c)
  }

  lemma {:induction false} BlockCountIsCeiling(len: nat, c: nat)
    requires c > 0
    ensures BlockCount(len, c) == (len + c - 1) / c
    decreases len
  {
    if len == 0 {
      DivModUnique(c - 1, c, 0, c - 1);
    } else if len <= c {
      DivModUnique(len + c - 1, c, 1, len - 1);
    } else {
      BlockCountIsCeiling(len - c, c);
      var q := (len - c + c - 1) / c;
      assert len - 1 == c * q + (len - 1) % c;
      DivModUnique(len + c - 1, c, q + 1, (len - 1) % c);
    }
  }

  /** Text of 7-bit code points always packs: each fits an empty block. */
  lemma AsciiPackTerminates(data: seq<nat>, modSize: nat)
    requires modSize > 3
    requires forall i :: 0 <= i < |data| ==> data[i] < 0x80
    ensures PackTerminates(data, modSize)
  {
    forall i | 0 <= i < |data| ensures Accepts(data[i], 0, modSize) {
      BitLengthBelow(data[i], 7);
      assert Pow2(7) == 0x80;
    }
  }

  /** An all-ASCII message of L code points packs into BlockCount(L,
      modSize - 3) blocks: each round takes modSize - 3 code points, or what
      is left. */
  lemma {:induction false} AsciiBlocks(data: seq<nat>, modSize: nat, rng: nat -> PadByte, drawn: nat)
    requires modSize > 3
    requires forall i :: 0 <= i < |data| ==> data[i] < 0x80
    ensures |Packed(data, modSize, rng, drawn)| == BlockCount(|data|, modSize - 3)
    decreases |data|
  {
    AsciiPackTerminates(data, modSize);
    if |data| > 0 {
      TakeCountAscii(data, 0, modSize);
      var k := TakeCount(data, 0, modSize);
      var d := EncodeAll(data[..k]);
      var ps := PadBytes(rng, drawn, PaddingLength(|d|, modSize));
      AsciiBlocks(data[k..], modSize, rng, drawn + |ps|);
      PackedLength(data, modSize, rng, drawn, k, d, ps);
    }
  }

  /** ... that is, ceil(L / (modSize - 3)) blocks. */
  lemma AsciiBlockCount(data: seq<nat>, modSize: nat, rng: nat -> PadByte, drawn: nat)
    requires modSize > 3
    requires forall i :: 0 <= i < |data| ==> data[i] < 0x80
    ensures PackTerminates(data, modSize)
    ensures |Packed(data, modSize, rng, drawn)| == (|data| + modSize - 4) / (modSize - 3)
  {
    AsciiPackTerminates(data, modSize);
    AsciiBlocks(data, modSize, rng, drawn);
    BlockCountIsCeiling(|data|, modSize - 3);
  }

  /*********************************************************************
   * Unpacking
   *********************************************************************/

  /** The three entries of `predicates`: which bytes count as padding, and
      whether a 00 separator must follow the padding. */
  datatype BlockType = ZeroPadding | FFPadding | RandomPadding
  {
    predicate IsPadding(part: nat)
    {
      match this
      case ZeroPadding => part == 0x00
      case FFPadding => part == 0xFF
      case RandomPadding => part != 0x00
    }

    predicate SeparatorRequired()
    {
      !ZeroPadding?
    }
  }

  /** The table lookup of blocks.py:67; None where Python raises KeyError. */
  function Predicates(bt: nat): (t: Option<BlockType>)
    ensures t.Some? <==> bt <= 0x02
  {
    if bt == 0x00 then Some(ZeroPadding)
    else if bt == 0x01 then Some(FFPadding)
    else if bt == 0x02 then Some(RandomPadding)
    else None
  }

  /** The failures of `_unpack_block`: the KeyError of an unknown block type,
      and the ValueError of a missing separator. */
  datatype UnpackError = UnknownBlockType(bt: nat) | MissingSeparator(bt: nat, got: nat)

  /** The padding loop of `_unpack_block` returns except for block type
      00 with nothing but zero bytes after the type byte, where 0 % 256 == 0
      keeps the predicate true forever. */
  predicate UnpackTerminates(block: nat)
  {
    block / 256 % 256 == 0x00 ==> block / 256 / 256 > 0
  }

  predicate AllUnpackTerminate(blocks: seq<nat>)
  {
    forall i :: 0 <= i < |blocks| ==> UnpackTerminates(blocks[i])
  }

  /** Whether `unpack` returns on the list: its loop leaves at the first
      block that fails, so the blocks after that one are never read. */
  predicate UnpackReturns(blocks: seq<nat>)
    decreases |blocks|
  {
    || |blocks| == 0
    || (&& UnpackTerminates(blocks[0])
        && (Unpacked(blocks[0]).Failure? || UnpackReturns(blocks[1..])))
  }

  /** A list on whose every block `_unpack_block` returns is one on which
      `unpack` returns. */
  lemma {:induction false} AllTerminateReturns(blocks: seq<nat>)
    requires AllUnpackTerminate(blocks)
    ensures UnpackReturns(blocks)
    decreases |blocks|
  {
    if |blocks| > 0 {
      assert forall i :: 0 <= i < |blocks[1..]| ==> blocks[1..][i] == blocks[i + 1];
      AllTerminateReturns(blocks[1..]);
    }
  }

  /** The padding loop of `_unpack_block`: shift bytes out while the low byte
      is padding of type t. It stops at the first byte that is not, except
      for type 00 on a block of 0, where the source loops forever (see
      UnpackTerminates) and the value here is 0. */
  function PaddingSkipped(t: BlockType, block: nat): (r: nat)
    ensures (t.ZeroPadding? && block == 0) || !t.IsPadding(r % 256)
    decreases block
  {
    if block > 0 && t.IsPadding(block % 256) then PaddingSkipped(t, block / 256) else block
  }

  /** The result of `_unpack_block`, for a block on which it returns
      (UnpackTerminates). */
  function Unpacked(block: nat): Result<seq<nat>, UnpackError>
  {
    var bt := block / 256 % 256;
    match Predicates(bt)
    case None => Failure(UnknownBlockType(bt))
    case Some(t) =>
      var rest := PaddingSkipped(t, block / 256 / 256);
      if !t.SeparatorRequired() then Success(DataOf(rest))
      else if rest % 256 != 0 then Failure(MissingSeparator(bt, rest % 256))
      else Success(DataOf(rest / 256))
  }

  /** The code points `unpack` collects from the blocks in order, or the
      failure of the first block that fails. */
  function UnpackAll(blocks: seq<nat>): Result<seq<nat>, UnpackError>
    decreases |blocks|
  {
    if |blocks| == 0 then Success([]) else Then(Unpacked(blocks[0]), UnpackAll(blocks[1..]))
  }

  /** The code points of r followed by those of s, or the first failure. */
  function Then(r: Result<seq<nat>, UnpackError>, s: Result<seq<nat>, UnpackError>): Result<seq<nat>, UnpackError>
  {
    match r
    case Failure(e) => Failure(e)
    case Success(x) =>
      match s
      case Failure(e) => Failure(e)
      case Success(y) => Success(x + y)
  }

  /** One pass of the inner loop of `_extract_data`: a continuation byte adds
      its 7 bits at position 7*i, below the bits still to come. */
  lemma DecodeGroupStep(num: nat, i: nat, b: nat)
    requires b % 256 >= 0x80 && num < Pow2(7 * i)
    ensures 0 <= (b % 256 % 0x80) * Pow2(7 * i)
    ensures var num' := num + (b % 256 % 0x80) * Pow2(7 * i);
      && num' < Pow2(7 * (i + 1))
      && num + Pow2(7 * i) * DecodeUnit(b).0 == num' + Pow2(7 * (i + 1)) * DecodeUnit(b / 256).0
      && DecodeUnit(b).1 == DecodeUnit(b / 256).1
  {
    var p, lo, next := Pow2(7 * i), b % 256 % 0x80, DecodeUnit(b / 256).0;
    Pow2Add(7 * i, 7);
    assert Pow2(7) == 0x80;
    assert Pow2(7 * (i + 1)) == p * 0x80;
    assert DecodeUnit(b).0 == lo + 0x80 * next;
    MulDistrib(p, lo, 0x80 * next);
    MulAssoc(p, 0x80, next);
    MulSucc(lo, p);
    MulMonotone(lo + 1, 0x80, p);
  }

  /** The terminating byte of a code point, shifted to position 7*i. */
  lemma DecodeUnitLast(b: nat, p: nat)
    requires b % 256 < 0x80
    ensures DecodeUnit(b).1 == b / 256
    ensures p * DecodeUnit(b).0 == (b % 256) * p
  {
  }

  /** `_extract_data`. The source ORs the terminating byte in at bit 7*i;
      the bits below hold `num`, which is less than 2^(7*i), so the OR is the
      addition written here. */
  method ExtractData(block: nat) returns (data: seq<nat>)
    ensures data == DataOf(block)
  {
    data := [];
    var b: nat := block;
    while b > 0
      invariant data + DataOf(b) == DataOf(block)
      decreases b
    {
      var num, rest := ReadCodePoint(b);
      assert DataOf(b) == [num] + DataOf(rest);
      data := data + [num];
      b := rest;
    }
  }

  /** One pass of the outer loop of `_extract_data`: the code point read from
      the low bytes of the block, and the block with those bytes shifted out. */
  method ReadCodePoint(block: nat) returns (num: nat, rest: nat)
    ensures (num, rest) == DecodeUnit(block)
  {
    var b: nat := block;
    var d := b % 256;
    num := 0;
    var i: nat := 0;
    while d >= 0x80  // high bit set (blocks.py:89; see HighBitTest)
      invariant b <= block && d == b % 256
      invariant num < Pow2(7 * i)
      invariant DecodeUnit(block).0 == num + Pow2(7 * i) * DecodeUnit(b).0
      invariant DecodeUnit(block).1 == DecodeUnit(b).1
      decreases b
    {
      DecodeGroupStep(num, i, b);
      num := num + (d % 0x80) * Pow2(7 * i);  // its 7 bits at position 7i (blocks.py:90)
      i := i + 1;
      b := b / 256;
      d := b % 256;
    }
    DecodeUnitLast(b, Pow2(7 * i));
    num := num + d * Pow2(7 * i);  // the last group at position 7i (blocks.py:95)
    rest := b / 256;
  }

  /** `_unpack_block`. */
  method UnpackBlock(block: nat) returns (r: Result<seq<nat>, UnpackError>)
    requires UnpackTerminates(block)
    ensures r == Unpacked(block)
  {
    var b: nat := block / 256;  // skip the leading zero
    var part := b % 256;
    var bt := part;
    var entry := Predicates(bt);
    if entry.None? {
      return Failure(UnknownBlockType(bt));  // KeyError
    }
    var t := entry.value;
    b := b / 256;
    while t.IsPadding(b % 256)
      invariant t.ZeroPadding? ==> b > 0
      invariant PaddingSkipped(t, b) == PaddingSkipped(t, block / 256 / 256)
      decreases b
    {
      b := b / 256;
    }
    if t.SeparatorRequired() {
      if b % 256 != 0 {
        return Failure(MissingSeparator(bt, b % 256));  // ValueError
      }
      b := b / 256;
    }
    var data := ExtractData(b);
    return Success(data);
  }

  /** `unpack`, up to the final conversion of code points to a string. */
  method Unpack(blocks: seq<nat>) returns (r: Result<seq<nat>, UnpackError>)
    requires UnpackReturns(blocks)
    ensures r == UnpackAll(blocks)
  {
    var ret: seq<nat> := [];
    for i := 0 to |blocks|
      invariant UnpackAll(blocks[..i]) == Success(ret)
      invariant UnpackReturns(blocks[i..])
    {
      assert blocks[i..][0] == blocks[i] && blocks[i..][1..] == blocks[i + 1..];
      var part := UnpackBlock(blocks[i]);
      assert blocks[..i + 1] == blocks[..i] + [blocks[i]];
      UnpackAllAppend(blocks[..i], [blocks[i]]);
      UnpackAllSingle(blocks[i]);
      assert [blocks[i]][1..] == [];
      if part.Failure? {
        UnpackAllAppend(blocks[..i + 1], blocks[i + 1..]);
        assert blocks[..i + 1] + blocks[i + 1..] == blocks;
        return Failure(part.error);
      }
      ret := ret + part.value;
    }
    assert blocks[..|blocks|] == blocks;
    return Success(ret);
  }

  /*********************************************************************
   * Properties of unpacking
   *********************************************************************/

  lemma UnpackAllSingle(b: nat)
    ensures UnpackAll([b]) == Unpacked(b)
  {
    assert [b][1..] == [];
    ThenSuccessEmpty(Unpacked(b));
  }

  /** Success([]) is a unit of Then ... */
  lemma ThenSuccessEmpty(r: Result<seq<nat>, UnpackError>)
    ensures Then(r, Success([])) == r
    ensures Then(Success([]), r) == r
  {
    if r.Success? {
      assert r.value + [] == r.value;
      assert [] + r.value == r.value;
    }
  }

  /** ... and it is associative. */
  lemma ThenAssociative(r: Result<seq<nat>, UnpackError>, s: Result<seq<nat>, UnpackError>, t: Result<seq<nat>, UnpackError>)
    ensures Then(Then(r, s), t) == Then(r, Then(s, t))
  {
    if r.Success? && s.Success? && t.Success? {
      assert (r.value + s.value) + t.value == r.value + (s.value + t.value);
    }
  }

  /** Unpacking a concatenation of block lists: the code points of the first
      followed by those of the second, or the first failure. */
  lemma {:induction false} UnpackAllAppend(a: seq<nat>, b: seq<nat>)
    ensures UnpackAll(a + b) == Then(UnpackAll(a), UnpackAll(b))
    decreases |a|
  {
    if |a| == 0 {
      assert a + b == b;
      ThenSuccessEmpty(UnpackAll(b));
    } else {
      assert (a + b)[0] == a[0] && (a + b)[1..] == a[1..] + b;
      UnpackAllAppend(a[1..], b);
      ThenAssociative(Unpacked(a[0]), UnpackAll(a[1..]), UnpackAll(b));
    }
  }

  /** Skipping padding of type t stops exactly at the first byte that is not
      padding of that type. */
  lemma {:induction false} SkipPadding(t: BlockType, ps: seq<nat>, tail: seq<nat>)
    requires forall j :: 0 <= j < |ps| ==> ps[j] < 256 && t.IsPadding(ps[j])
    requires |tail| > 0 && tail[0] < 256 && !t.IsPadding(tail[0])
    ensures t.ZeroPadding? ==> FromBytes(ps + tail) > 0
    ensures PaddingSkipped(t, FromBytes(ps + tail)) == FromBytes(tail)
    decreases |ps|
  {
    if |ps| == 0 {
      assert ps + tail == tail;
      assert tail == [tail[0]] + tail[1..];
      FromBytesCons(tail[0], tail[1..]);
    } else {
      assert ps + tail == [ps[0]] + (ps[1..] + tail);
      FromBytesCons(ps[0], ps[1..] + tail);
      SkipPadding(t, ps[1..], tail);
    }
  }

  /** The low end of a block laid out as 00, bt, rest: the type byte read is
      bt and the padding loop starts on rest. */
  lemma BlockHeader(bt: nat, rest: seq<nat>)
    requires bt < 256
    ensures var block := FromBytes([0, bt] + rest);
      block / 256 % 256 == bt && block / 256 / 256 == FromBytes(rest)
  {
    assert [0, bt] + rest == [0] + ([bt] + rest);
    FromBytesCons(0, [bt] + rest);
    FromBytesCons(bt, rest);
  }

  /** A block laid out as 00, 02, nonzero padding, 00, D unpacks to the code
      points decoded from D. */
  lemma UnpackPackedBlock(ps: seq<nat>, d: seq<nat>)
    requires forall j :: 0 <= j < |ps| ==> 1 <= ps[j] <= 0xFF
    requires IsBytes(d)
    ensures UnpackTerminates(FromBytes([0, 2] + ps + [0] + d))
    ensures Unpacked(FromBytes([0, 2] + ps + [0] + d)) == Success(DataOf(FromBytes(d)))
  {
    assert [0, 2] + ps + [0] + d == [0, 2] + (ps + ([0] + d));
    BlockHeader(2, ps + ([0] + d));
    SkipPadding(RandomPadding, ps, [0] + d);
    FromBytesCons(0, d);
  }

  /** Block type 01: after the run of FF bytes the next byte x must be the 00
      separator; any other byte fails. */
  lemma FFPaddingMissingSeparator(ps: seq<nat>, x: nat, d: seq<nat>)
    requires forall j :: 0 <= j < |ps| ==> ps[j] == 0xFF
    requires 0 < x < 0xFF
    ensures UnpackTerminates(FromBytes([0, 1] + ps + [x] + d))
    ensures Unpacked(FromBytes([0, 1] + ps + [x] + d)) == Failure(MissingSeparator(0x01, x))
  {
    assert [0, 1] + ps + [x] + d == [0, 1] + (ps + ([x] + d));
    BlockHeader(1, ps + ([x] + d));
    SkipPadding(FFPadding, ps, [x] + d);
    FromBytesCons(x, d);
  }

  /** Block type 01 with the separator: the data is what follows it. */
  lemma FFPaddingWithSeparator(ps: seq<nat>, d: seq<nat>)
    requires forall j :: 0 <= j < |ps| ==> ps[j] == 0xFF
    ensures UnpackTerminates(FromBytes([0, 1] + ps + [0] + d))
    ensures Unpacked(FromBytes([0, 1] + ps + [0] + d)) == Success(DataOf(FromBytes(d)))
  {
    assert [0, 1] + ps + [0] + d == [0, 1] + (ps + ([0] + d));
    BlockHeader(1, ps + ([0] + d));
    SkipPadding(FFPadding, ps, [0] + d);
    FromBytesCons(0, d);
  }

  /** Block type 00: no separator is consumed; the data starts at the first
      nonzero byte after the type byte. */
  lemma ZeroPaddingNoSeparator(ps: seq<nat>, d: seq<nat>)
    requires forall j :: 0 <= j < |ps| ==> ps[j] == 0x00
    requires |d| > 0 && 0 < d[0] < 256
    ensures UnpackTerminates(FromBytes([0, 0] + ps + d))
    ensures Unpacked(FromBytes([0, 0] + ps + d)) == Success(DataOf(FromBytes(d)))
  {
    assert [0, 0] + ps + d == [0, 0] + (ps + d);
    BlockHeader(0, ps + d);
    SkipPadding(ZeroPadding, ps, d);
  }

  /** Unpacking a nonempty list of blocks: the code points of its first block
      followed by those of the rest. */
  lemma UnpackCons(blocks: seq<nat>, tail: seq<nat>, x: seq<nat>, y: seq<nat>)
    requires |blocks| > 0 && blocks[1..] == tail
    requires Unpacked(blocks[0]) == Success(x) && UnpackAll(tail) == Success(y)
    ensures UnpackAll(blocks) == Success(x + y)
  {
  }

  /** The first block `pack` emits unpacks to the code points it took. */
  lemma UnpackFirstBlock(data: seq<nat>, modSize: nat, rng: nat -> PadByte, drawn: nat, k: nat, d: seq<nat>, ps: seq<nat>)
    requires |data| > 0 && Accepts(data[0], 0, modSize)
    requires forall i :: 0 <= i < |data| ==> 1 <= data[i] && BitLength(data[i]) <= 63
    requires k == TakeCount(data, 0, modSize) && d == EncodeAll(data[..k])
    requires ps == PadBytes(rng, drawn, PaddingLength(|d|, modSize))
    ensures |Packed(data, modSize, rng, drawn)| > 0
    ensures Unpacked(Packed(data, modSize, rng, drawn)[0]) == Success(data[..k])
  {
    RoundSizes(data, modSize, rng, drawn, k, d, ps);
    var layout := [0, 2] + ps + [0] + d;
    assert layout[..modSize] == layout;
    PackedStepHead(data, modSize, rng, drawn, k, d, ps);
    UnpackPackedBlock(ps, d);
    assert data[..k][k - 1] == data[k - 1];
    DataOfEncodeAll(data[..k]);
  }

  /** One round of the codec round trip: if the blocks `pack` emits for the
      rest of the data unpack to it, so do the blocks for all of it. */
  lemma PackRoundTripStep(data: seq<nat>, modSize: nat, rng: nat -> PadByte, drawn: nat, k: nat, d: seq<nat>, ps: seq<nat>)
    requires |data| > 0 && PackTerminates(data, modSize)
    requires forall i :: 0 <= i < |data| ==> 1 <= data[i] && BitLength(data[i]) <= 63
    requires k == TakeCount(data, 0, modSize) && d == EncodeAll(data[..k])
    requires ps == PadBytes(rng, drawn, PaddingLength(|d|, modSize))
    requires UnpackAll(Packed(data[k..], modSize, rng, drawn + |ps|)) == Success(data[k..])
    ensures UnpackAll(Packed(data, modSize, rng, drawn)) == Success(data)
  {
    hide Packed, UnpackAll, Unpacked, TakeCount, EncodeAll;
    assert Accepts(data[0], 0, modSize);
    UnpackFirstBlock(data, modSize, rng, drawn, k, d, ps);
    PackedStepTail(data, modSize, rng, drawn, k, d, ps);
    UnpackCons(Packed(data, modSize, rng, drawn), Packed(data[k..], modSize, rng, drawn + |ps|), data[..k], data[k..]);
    assert data[..k] + data[k..] == data;
  }

  /** Codec round trip: unpacking what `pack` produced gives back the message,
      for code points from 1 up to 63 bits wide (Unicode's 21 bits included).
      Code point 0 is excluded because a trailing one is lost
      (TrailingZeroLost). */
  lemma {:induction false} PackRoundTrip(data: seq<nat>, modSize: nat, rng: nat -> PadByte, drawn: nat)
    requires PackTerminates(data, modSize)
    requires forall i :: 0 <= i < |data| ==> 1 <= data[i] && BitLength(data[i]) <= 63
    ensures UnpackAll(Packed(data, modSize, rng, drawn)) == Success(data)
    decreases |data|
  {
    hide *;  // the proof needs only the contracts of the lemmas it calls
    if |data| == 0 {
      PackedEmpty(data, modSize, rng, drawn);
    } else {
      TakeCountPositive(data, modSize);
      var k := TakeCount(data, 0, modSize);
      var d := EncodeAll(data[..k]);
      var ps := PadBytes(rng, drawn, PaddingLength(|d|, modSize));
      PackTerminatesSuffix(data, modSize, k);
      PackRoundTrip(data[k..], modSize, rng, drawn + |ps|);
      PackRoundTripStep(data, modSize, rng, drawn, k, d, ps);
    }
  }

  /** The round trip on no data. */
  lemma PackedEmpty(data: seq<nat>, modSize: nat, rng: nat -> PadByte, drawn: nat)
    requires |data| == 0
    ensures UnpackAll(Packed(data, modSize, rng, drawn)) == Success(data)
  {
    NoBlocks(data, modSize, rng, drawn);
  }

  /** `unpack` returns on every list of blocks `pack` emits: their type byte
      is 02, so the padding loop stops at the latest at the separator. */
  lemma PackedBlocksTerminate(data: seq<nat>, modSize: nat, rng: nat -> PadByte, drawn: nat)
    requires PackTerminates(data, modSize)
    requires forall i :: 0 <= i < |data| ==> BitLength(data[i]) <= 63
    ensures AllUnpackTerminate(Packed(data, modSize, rng, drawn))
  {
    PackedBlocksLayout(data, modSize, rng, drawn);
  }

  /** A block type outside {00, 01, 02} fails at the table lookup. */
  lemma UnknownBlockTypeFails(block: nat)
    requires block / 256 % 256 > 0x02
    ensures UnpackTerminates(block)
    ensures Unpacked(block) == Failure(UnknownBlockType(block / 256 % 256))
  {
  }

  /** For block type 02 the separator check cannot fail: the padding loop only
      stops at a zero byte, which is then the separator. */
  lemma RandomPaddingFindsSeparator(block: nat)
    requires block / 256 % 256 == 0x02
    ensures Unpacked(block) == Success(DataOf(PaddingSkipped(RandomPadding, block / 256 / 256) / 256))
  {
  }
}
