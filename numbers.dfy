/** Integer facts the codec relies on: powers of two and of 256, Python's
    `int.bit_length()`, and the reading of a list of bytes as one integer with
    byte 0 as the least significant byte (the order blocks.py builds blocks in). */
module Numbers {

  function Pow2(k: nat): (r: nat)
    ensures r >= 1
  {
    if k == 0 then 1 else 2 * Pow2(k - 1)
  }

  function Pow256(k: nat): (r: nat)
    ensures r >= 1
  {
    if k == 0 then 1 else 256 * Pow256(k - 1)
  }

  lemma {:induction false} Pow2Add(a: nat, b: nat)
    ensures Pow2(a + b) == Pow2(a) * Pow2(b)
    decreases a
  {
    if a > 0 {
      Pow2Add(a - 1, b);
      MulAssoc(2, Pow2(a - 1), Pow2(b));
    }
  }

  lemma {:induction false} Pow2Monotone(a: nat, b: nat)
    requires a <= b
    ensures Pow2(a) <= Pow2(b)
    decreases b
  {
    if a < b {
      Pow2Monotone(a, b - 1);
    }
  }

  /** A shift by 8*k bits is a multiplication by 256^k. */
  lemma {:induction false} Pow256IsPow2(k: nat)
    ensures Pow256(k) == Pow2(8 * k)
    decreases k
  {
    if k > 0 {
      Pow256IsPow2(k - 1);
      Pow2Add(8, 8 * (k - 1));
      assert Pow2(8) == 256;
      assert 8 * k == 8 + 8 * (k - 1);
    }
  }

  /** Python's `int.bit_length()` on a non-negative integer: the number of
      binary digits, 0 for 0. */
  function BitLength(n: nat): nat
  {
    if n == 0 then 0 else 1 + BitLength(n / 2)
  }

  /** The defining property of bit_length: n fits in k bits exactly when
      its bit length is at most k. */
  lemma {:induction false} BitLengthBelow(n: nat, k: nat)
    ensures n < Pow2(k) <==> BitLength(n) <= k
    decreases n
  {
    if n > 0 && k > 0 {
      BitLengthBelow(n / 2, k - 1);
    }
  }

  /** 2^k has k + 1 binary digits. */
  lemma Pow2BitLength(k: nat)
    ensures BitLength(Pow2(k)) == k + 1
  {
    BitLengthBelow(Pow2(k), k + 1);
    BitLengthBelow(Pow2(k), k);
    assert Pow2(k + 1) == 2 * Pow2(k);
  }

  /** Dropping the low 7 bits of a value wider than 7 bits shortens it by 7. */
  lemma BitLengthShift7(c: nat)
    requires c >= 0x80
    ensures BitLength(c / 0x80) == BitLength(c) - 7
  {
    var b := BitLength(c);
    BitLengthBelow(c, 7);
    BitLengthBelow(c, b);
    BitLengthBelow(c, b - 1);
    assert Pow2(7) == 0x80;
    Pow2Add(7, b - 7);
    Pow2Add(7, b - 8);
    BitLengthBelow(c / 0x80, b - 7);
    BitLengthBelow(c / 0x80, b - 8);
  }

  /** All elements are byte values. */
  predicate IsBytes(s: seq<nat>)
  {
    forall i :: 0 <= i < |s| ==> s[i] < 256
  }

  /** The integer whose byte j (counting from the least significant) is s[j]. */
  function FromBytes(s: seq<nat>): nat
  {
    if |s| == 0 then 0 else s[0] + 256 * FromBytes(s[1..])
  }

  /** Reading the low byte of the integer and shifting it out by 8 bits. */
  lemma FromBytesCons(b: nat, s: seq<nat>)
    requires b < 256
    ensures FromBytes([b] + s) % 256 == b
    ensures FromBytes([b] + s) / 256 == FromBytes(s)
  {
    assert ([b] + s)[1..] == s;
  }

  lemma {:induction false} FromBytesAppend(s: seq<nat>, t: seq<nat>)
    ensures FromBytes(s + t) == FromBytes(s) + Pow256(|s|) * FromBytes(t)
    decreases |s|
  {
    if |s| > 0 {
      assert (s + t)[1..] == s[1..] + t;
      FromBytesAppend(s[1..], t);
      var a, p, x := FromBytes(s[1..]), Pow256(|s| - 1), FromBytes(t);
      var px := p * x;
      assert FromBytes(s + t) == s[0] + 256 * (a + px);
      MulAssoc(256, p, x);
      assert FromBytes(s) == s[0] + 256 * a;
    } else {
      assert s + t == t;
    }
  }

  /** Adding one more most significant byte. */
  lemma FromBytesSnoc(s: seq<nat>, x: nat)
    ensures FromBytes(s + [x]) == FromBytes(s) + x * Pow256(|s|)
  {
    FromBytesAppend(s, [x]);
    FromBytesSingle(x);
  }

  lemma FromBytesSingle(x: nat)
    ensures FromBytes([x]) == x
  {
    assert [x][1..] == [];
  }

  lemma {:induction false} FromBytesBound(s: seq<nat>)
    requires IsBytes(s)
    ensures FromBytes(s) < Pow256(|s|)
    decreases |s|
  {
    if |s| > 0 {
      FromBytesBound(s[1..]);
    }
  }

  /** A byte list whose last (most significant) byte is below `top` stays
      below top * 256^(len-1). */
  lemma FromBytesBelowTop(s: seq<nat>, top: nat)
    requires |s| > 0 && IsBytes(s) && s[|s| - 1] < top
    ensures FromBytes(s) < top * Pow256(|s| - 1)
  {
    var init, last, p := s[..|s| - 1], s[|s| - 1], Pow256(|s| - 1);
    assert s == init + [last];
    FromBytesSnoc(init, last);
    FromBytesBound(init);
    MulSucc(last, p);
    MulMonotone(last + 1, top, p);
  }

  lemma MulMonotone(a: nat, b: nat, c: nat)
    requires a <= b
    ensures a * c <= b * c
  {
    var e: nat := b - a;
    assert b * c == a * c + e * c;
  }

  lemma MulAssoc(a: int, b: int, c: int)
    ensures (a * b) * c == a * (b * c)
  {
  }

  lemma MulDistrib(a: int, b: int, c: int)
    ensures a * (b + c) == a * b + a * c
  {
  }

  lemma MulSucc(a: nat, c: nat)
    ensures (a + 1) * c == a * c + c
  {
  }

  /** Trailing zero bytes do not change the integer. */
  lemma FromBytesTrailingZero(s: seq<nat>)
    ensures FromBytes(s + [0]) == FromBytes(s)
  {
    FromBytesAppend(s, [0]);
  }

  /** A non-zero multiple of d is at least d in absolute value. */
  lemma {:induction false} MulAtLeast(d: int, k: int)
    requires d > 0
    ensures k >= 1 ==> d * k >= d
    ensures k <= -1 ==> d * k <= -d
    decreases if k < 0 then -k else k
  {
    if k > 1 {
      MulAtLeast(d, k - 1);
      assert d * k == d * (k - 1) + d;
    } else if k < -1 {
      MulAtLeast(d, k + 1);
      assert d * k == d * (k + 1) - d;
    }
  }

  /** Euclidean division is determined by the quotient-remainder equation. */
  lemma DivModUnique(x: int, d: int, q: int, r: int)
    requires d > 0 && 0 <= r < d && x == d * q + r
    ensures x / d == q && x % d == r
  {
    var q', r' := x / d, x % d;
    assert x == d * q' + r';
    assert d * (q - q') == r' - r;
    MulAtLeast(d, q - q');
  }

  lemma AddMulMod(x: int, d: int, m: int)
    requires d > 0
    ensures (x + d * m) % d == x % d
  {
    assert x == d * (x / d) + x % d;
    assert x + d * m == d * (x / d + m) + x % d;
    DivModUnique(x + d * m, d, x / d + m, x % d);
  }

  /** A combination x*m + y of two multiples of g is a multiple of g. */
  lemma MultipleCombination(x: int, y: int, g: int, m: int)
    requires g > 0 && x % g == 0 && y % g == 0
    ensures (x * m + y) % g == 0
  {
    var i, j := x / g, y / g;
    assert x == g * i && y == g * j;
    assert x * m + y == g * (i * m + j);
    DivModUnique(x * m + y, g, i * m + j, 0);
  }
}
