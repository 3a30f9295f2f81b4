/** The variable-length code blocks.py uses for one code point inside a block
    (the byte layout of unsigned LEB128, section 7.6 of DWARF version 4), and
    the grouping rule with which `_extract_data` reads code points back out of
    the integer that remains of a block.

    The source writes the byte operations with bit masks on a byte; the model
    writes them as arithmetic on byte values, which the three lemmas below show
    to be the same: setting the high bit adds 0x80 to the low seven bits,
    testing it compares with 0x80, and masking with 0x7F takes the remainder
    modulo 0x80. (Masking with 0xFF first, as blocks.py:30 does, keeps the low
    byte, which leaves the remainder modulo 0x80 unchanged.) */
module CodePoint {
  import opened Numbers

  lemma SetHighBit(x: bv8)
    ensures (x | 0x80) as int == x as int % 0x80 + 0x80
  {
  }

  lemma HighBitTest(x: bv8)
    ensures (x & 0x80 != 0) <==> x as int >= 0x80
  {
  }

  lemma LowSevenBits(x: bv8)
    ensures (x & 0x7F) as int == x as int % 0x80
  {
  }

  /** The bytes `_break_block_to_parts` appends for code point c: 7-bit groups,
      least significant first; every byte but the last has its high bit set. */
  function Encode(c: nat): (r: seq<nat>)
    ensures |r| >= 1 && IsBytes(r)
    ensures r[|r| - 1] < 0x80
    ensures forall j :: 0 <= j < |r| - 1 ==> r[j] >= 0x80
    decreases c
  {
    if c < 0x80 then [c] else [c % 0x80 + 0x80] + Encode(c / 0x80)
  }

  /** The encodings of a list of code points, one after the other. */
  function EncodeAll(cs: seq<nat>): (r: seq<nat>)
    ensures IsBytes(r)
    decreases |cs|
  {
    if |cs| == 0 then [] else Encode(cs[0]) + EncodeAll(cs[1..])
  }

  lemma {:induction false} EncodeAllAppend(a: seq<nat>, b: seq<nat>)
    ensures EncodeAll(a + b) == EncodeAll(a) + EncodeAll(b)
    decreases |a|
  {
    if |a| == 0 {
      assert a + b == b;
    } else {
      assert (a + b)[1..] == a[1..] + b;
      EncodeAllAppend(a[1..], b);
    }
  }

  /** A code point of at most 7 bits is the single byte it already is. */
  lemma EncodeShortIsOneByte(c: nat)
    requires BitLength(c) <= 7
    ensures Encode(c) == [c]
  {
    BitLengthBelow(c, 7);
    assert Pow2(7) == 0x80;
  }

  /** A wider code point takes one byte per 7 bits, rounded up. */
  lemma {:induction false} EncodeLength(c: nat)
    ensures |Encode(c)| == if BitLength(c) <= 7 then 1 else (BitLength(c) + 6) / 7
    decreases c
  {
    BitLengthBelow(c, 7);
    assert Pow2(7) == 0x80;
    if c >= 0x80 {
      BitLengthShift7(c);
      EncodeLength(c / 0x80);
    }
  }

  /** `_extract_data`'s inner loop: read bytes from the low end of the block
      while their high bit is set, each carrying 7 bits, then one terminating
      byte. Gives the code point and the block with those bytes shifted out. */
  function DecodeUnit(block: nat): (r: (nat, nat))
    ensures r.1 <= block / 256
    decreases block
  {
    var d := block % 256;
    if d >= 0x80 then
      var (num, rest) := DecodeUnit(block / 256);
      (d % 0x80 + 0x80 * num, rest)
    else
      (d, block / 256)
  }

  /** `_extract_data`: the code points read from the block until nothing but
      zero bytes remain. */
  function DataOf(block: nat): seq<nat>
    decreases block
  {
    if block == 0 then []
    else
      var (num, rest) := DecodeUnit(block);
      [num] + DataOf(rest)
  }

  /** Code point round trip: decoding the block whose low bytes are Encode(c)
      gives back c and consumes exactly the |Encode(c)| bytes, leaving the
      block made of the bytes that follow. */
  lemma {:induction false} DecodeEncode(c: nat, rest: seq<nat>)
    requires IsBytes(rest)
    ensures DecodeUnit(FromBytes(Encode(c) + rest)) == (c, FromBytes(rest))
    decreases c
  {
    if c < 0x80 {
      FromBytesCons(c, rest);
    } else {
      var tail := Encode(c / 0x80) + rest;
      assert Encode(c) + rest == [c % 0x80 + 0x80] + tail;
      FromBytesCons(c % 0x80 + 0x80, tail);
      DecodeEncode(c / 0x80, rest);
    }
  }

  /** The encodings of a list of code points decode back to the list, provided
      the last code point is not 0. */
  lemma {:induction false} DataOfEncodeAll(cs: seq<nat>)
    requires |cs| == 0 || cs[|cs| - 1] > 0
    ensures DataOf(FromBytes(EncodeAll(cs))) == cs
    decreases |cs|
  {
    if |cs| > 0 {
      var enc, tail := Encode(cs[0]), EncodeAll(cs[1..]);
      assert EncodeAll(cs) == enc + tail;
      DecodeEncode(cs[0], tail);
      DataOfEncodeAll(cs[1..]);
      var block := FromBytes(enc + tail);
      assert (enc + tail)[0] == enc[0];
      if cs[0] == 0 {
        assert enc + tail == [0] + tail;
        assert FromBytes(tail) != 0;
        FromBytesCons(0, tail);
      } else {
        assert enc[0] > 0;
      }
      assert block > 0;
      assert DataOf(block) == [cs[0]] + DataOf(FromBytes(tail));
    }
  }

  /** A code point 0 at the end of the data is lost: `_extract_data` stops as
      soon as the block is 0, and its encoding is a zero byte. */
  lemma TrailingZeroLost(cs: seq<nat>)
    requires |cs| == 0 || cs[|cs| - 1] > 0
    ensures DataOf(FromBytes(EncodeAll(cs + [0]))) == cs
  {
    EncodeAllAppend(cs, [0]);
    assert [0][1..] == [];
    assert EncodeAll([0]) == Encode(0) + EncodeAll([]) == [0];
    assert EncodeAll(cs + [0]) == EncodeAll(cs) + [0];
    FromBytesTrailingZero(EncodeAll(cs));
    DataOfEncodeAll(cs);
  }
}
