/** rsa.py: the key arithmetic of `RSA._get_d` and `RSA._generate`, and
    `encrypt` / `decrypt` as modular exponentiation over the blocks of the
    codec. Prime generation is a foreign library; the primes it would return
    are the values of a function `primes`, indexed by the number of earlier
    draws, so that `primes(2 * j)` and `primes(2 * j + 1)` are the p and q of
    attempt j of the retry loop. */
module Rsa {
  import opened Numbers
  import opened Results
  import opened Utils
  import opened Blocks

  /** A key as rsa.py holds it: the tuple (exponent, modulus). */
  datatype Key = Key(exponent: nat, modulus: nat)

  /** The `pub` and `prv` fields of an `RSA` object, set once by `__init__`. */
  datatype KeyPair = KeyPair(pub: Key, prv: Key)

  /** The ValueError `_generate` raises when its check of d and e fails. */
  datatype GenerateError = InvalidKey(d: int, e: int, phi: int)

  function Pow(b: nat, e: nat): nat
    decreases e
  {
    if e == 0 then 1 else b * Pow(b, e - 1)
  }

  /** Python's three-argument `pow(b, e, n)` for e >= 0: b^e reduced modulo n,
      so always below n. */
  function ModPow(b: nat, e: nat, n: nat): (r: nat)
    requires n > 0
    ensures r < n
  {
    Pow(b, e) % n
  }

  /*********************************************************************
   * _get_d
   *********************************************************************/

  /** The value `_get_d(e, phi)` returns: the Euclid coefficient when it is
      non-negative, else the first non-negative value reached by adding phi,
      which is its remainder modulo phi. */
  function NormalizedCoefficient(e: int, phi: int): (d: int)
    requires phi > 0 || EuclidCoefficient(e, phi) >= 0
    ensures d >= 0
  {
    var d0 := EuclidCoefficient(e, phi);
    if d0 >= 0 then d0 else d0 % phi
  }

  /** `_get_d`. Its loop stops only when phi > 0 or the coefficient is
      already non-negative; otherwise d never grows. */
  method GetD(e: int, phi: int) returns (d: int)
    requires phi > 0 || EuclidCoefficient(e, phi) >= 0
    ensures d == NormalizedCoefficient(e, phi)
  {
    ghost var v;
    d, v := ExtendedEuclid(e, phi);
    ghost var d0, k := d, 0;
    while d < 0
      invariant d0 == EuclidCoefficient(e, phi)
      invariant d0 >= 0 ==> d == d0
      invariant d0 < 0 ==> d < phi && d == d0 + k * phi
      decreases -d
    {
      d := d + phi;
      k := k + 1;
    }
    if d0 < 0 {
      DivModUnique(d0, phi, -k, d);
    }
  }

  /** `_get_d` returns a non-negative value congruent to the coefficient
      modulo phi, below phi when the coefficient was negative, and the
      coefficient itself when it was not. */
  lemma NormalizedCoefficientCongruent(e: int, phi: int)
    requires phi > 0
    ensures var d, d0 := NormalizedCoefficient(e, phi), EuclidCoefficient(e, phi);
      && d >= 0
      && d % phi == d0 % phi
      && (d0 < 0 ==> d < phi)
      && (d0 >= 0 ==> d == d0)
  {
    var d0 := EuclidCoefficient(e, phi);
    if d0 < 0 {
      DivModUnique(d0 % phi, phi, 0, d0 % phi);
    }
  }

  /** Multiplying congruent values by the same factor keeps them congruent. */
  lemma MulCongruent(x: int, y: int, c: int, m: int)
    requires m > 0 && x % m == y % m
    ensures (x * c) % m == (y * c) % m
  {
    var q := x / m - y / m;
    assert x == y + m * q;
    assert x * c == y * c + m * (q * c);
    AddMulMod(y * c, m, q * c);
  }

  /** For e coprime to phi > 1, `_get_d` returns an inverse of e. */
  lemma NormalizedCoefficientInverse(e: nat, phi: int)
    requires phi > 1 && Gcd(e, phi) == 1
    ensures (NormalizedCoefficient(e, phi) * e) % phi == 1
  {
    var d, d0 := NormalizedCoefficient(e, phi), EuclidCoefficient(e, phi);
    EuclidCoefficientInverse(e, phi);
    NormalizedCoefficientCongruent(e, phi);
    MulCongruent(d, d0, e, phi);
    assert d0 * e == e * d0;
  }

  /** If d * e is 1 modulo phi then e is coprime to phi: a common divisor of
      e and phi divides d * e - k * phi = 1. */
  lemma InverseImpliesCoprime(d: int, e: nat, phi: int)
    requires phi > 1 && (d * e) % phi == 1
    ensures Gcd(e, phi) == 1
  {
    var g := Gcd(e, phi);
    GcdDivides(e, phi);
    OneAsCombination(d, e, phi);
    var k := (d * e) / phi;
    MultipleCombination(phi, 0, g, -k);
    MultipleCombination(e, phi * -k + 0, g, d);
    if g > 1 {
      DivModUnique(1, g, 0, 1);
    }
  }

  /** d * e = 1 + k * phi, written as a combination of e and phi. */
  lemma OneAsCombination(d: int, e: int, phi: int)
    requires phi > 0 && (d * e) % phi == 1
    ensures e * d + (phi * -((d * e) / phi) + 0) == 1
  {
    var x, k := d * e, (d * e) / phi;
    assert x == phi * k + x % phi;
    assert e * d == x;
    assert phi * -k == -(phi * k);
  }

  /*********************************************************************
   * _generate
   *********************************************************************/

  /** What `_generate` does once the retry loop has found p and q: the key
      pair, or the ValueError of its final check. A public exponent that is
      not below phi is replaced by the fallback the prime library supplies. */
  function Keys(p: nat, q: nat, e: nat, fallbackE: nat): (r: Result<KeyPair, GenerateError>)
    requires (p >= 2 && q >= 2) || (p == 0 && q == 0)
    ensures r.Success? ==> r.value.pub.modulus == r.value.prv.modulus == p * q
  {
    PhiPositive(p, q);
    var n, phi := p * q, (p - 1) * (q - 1);
    var e' := if e >= phi then fallbackE else e;
    NormalizedCoefficientCongruent(e', phi);
    var d := NormalizedCoefficient(e', phi);
    if (d * e') % phi != 1 || e' >= phi then Failure(InvalidKey(d, e', phi))
    else Success(KeyPair(Key(e', n), Key(d, n)))
  }

  /** phi is positive both for two primes and for the p = q = 0 that
      `_generate` keeps when it makes no attempt. */
  lemma PhiPositive(p: nat, q: nat)
    requires (p >= 2 && q >= 2) || (p == 0 && q == 0)
    ensures (p - 1) * (q - 1) > 0
  {
    if p >= 2 {
      MulMonotone(1, p - 1, q - 1);
    }
  }

  /** The check `_generate` makes passes exactly when the chosen public
      exponent is below phi and coprime to it; when it passes, d is an
      inverse of e modulo phi and both keys share the modulus p * q. */
  lemma KeysSucceed(p: nat, q: nat, e: nat, fallbackE: nat)
    requires p >= 2 && q >= 2 && (p - 1) * (q - 1) > 1
    ensures var phi := (p - 1) * (q - 1);
      var e' := if e >= phi then fallbackE else e;
      var r := Keys(p, q, e, fallbackE);
      && (r.Success? <==> e' < phi && Gcd(e', phi) == 1)
      && (r.Success? ==>
            && r.value.pub == Key(e', p * q)
            && r.value.prv.modulus == p * q
            && (r.value.prv.exponent * e') % phi == 1)
  {
    var phi := (p - 1) * (q - 1);
    var e' := if e >= phi then fallbackE else e;
    var d := NormalizedCoefficient(e', phi);
    if e' < phi && Gcd(e', phi) == 1 {
      NormalizedCoefficientInverse(e', phi);
    }
    if (d * e') % phi == 1 {
      InverseImpliesCoprime(d, e', phi);
    }
  }

  /** Attempt j of the retry loop draws p = primes(2 * j) and
      q = primes(2 * j + 1); it succeeds when p * q has 2 * i bits. */
  predicate Fits(primes: nat -> nat, i: nat, j: nat)
  {
    BitLength(primes(2 * j) * primes(2 * j + 1)) == 2 * i
  }

  /** `_generate(i, e)`. The library returns primes, so at least 2; for
      i > 0 the loop ends because some attempt fits, and the ghost `attempt`
      names the attempt whose primes the keys are made from: the first one
      that fits. For i = 0 the loop makes no attempt: p = q = 0, phi = 1,
      and the final check fails, since every value is 0 modulo 1. */
  method Generate(i: nat, e: nat, primes: nat -> nat, fallbackE: nat)
      returns (r: Result<KeyPair, GenerateError>, ghost attempt: nat)
    requires forall j :: primes(j) >= 2
    requires i == 0 || exists j :: Fits(primes, i, j)
    ensures i == 0 ==> r == Keys(0, 0, e, fallbackE) && r.Failure?
    ensures i > 0 ==> Fits(primes, i, attempt)
    ensures i > 0 ==> forall j :: 0 <= j < attempt ==> !Fits(primes, i, j)
    ensures i > 0 ==> r == Keys(primes(2 * attempt), primes(2 * attempt + 1), e, fallbackE)
  {
    ghost var w: nat := 0;
    if i > 0 {
      w :| Fits(primes, i, w);
    }
    var p: nat, q: nat, n: nat := 0, 0, 0;
    var k: nat := 0;  // attempts made
    while BitLength(n) != i * 2
      invariant k == 0 ==> p == 0 && q == 0 && n == 0
      invariant k > 0 ==> p == primes(2 * (k - 1)) && q == primes(2 * (k - 1) + 1) && n == p * q
      invariant forall j :: 0 <= j < k - 1 ==> !Fits(primes, i, j)
      invariant i == 0 ==> k == 0
      invariant k <= w + 1
      decreases w + 1 - k
    {
      if k > 0 {
        assert !Fits(primes, i, k - 1);
      }
      p := primes(2 * k);
      q := primes(2 * k + 1);
      n := p * q;
      k := k + 1;
    }
    attempt := if k > 0 then k - 1 else 0;
    var phi := (p - 1) * (q - 1);
    PhiPositive(p, q);
    var e' := e;
    if e' >= phi {
      e' := fallbackE;  // the prime library's fallback (rsa.py:35)
    }
    var d := GetD(e', phi);
    NormalizedCoefficientCongruent(e', phi);
    if (d * e') % phi != 1 || e' >= phi {
      return Failure(InvalidKey(d, e', phi)), attempt;  // ValueError
    }
    r := Success(KeyPair(Key(e', n), Key(d, n)));
  }

  /*********************************************************************
   * encrypt and decrypt
   *********************************************************************/

  /** The comprehension `[pow(block, x, n) for block in block_list]`. */
  function ModPowAll(blocks: seq<nat>, x: nat, n: nat): (r: seq<nat>)
    requires n > 0 || |blocks| == 0
    ensures |r| == |blocks|
    ensures forall j :: 0 <= j < |r| ==> r[j] == ModPow(blocks[j], x, n) && r[j] < n
  {
    seq(|blocks|, j requires 0 <= j < |blocks| => ModPow(blocks[j], x, n))
  }

  /** `pack` emits blocks only for a modulus of more than 3 bytes, so pow
      never sees a zero modulus. */
  lemma PackedNeedsModulus(data: seq<nat>, n: nat, rng: nat -> PadByte)
    ensures n > 0 || |Packed(data, ByteLength(n), rng, 0)| == 0
  {
    if n == 0 {
      TakeCountStop(data, 0, ByteLength(n));
    }
  }

  /** `RSA.encrypt`: one value `pow(block, e, n)` per packed block, in
      order, or the error `pack` raises for n = 0 and a nonempty text. */
  method Encrypt(keys: KeyPair, text: seq<nat>, rng: nat -> PadByte) returns (r: Result<seq<nat>, PackError>)
    requires keys.pub.modulus == 0 || PackTerminates(text, ByteLength(keys.pub.modulus))
    ensures keys.pub.modulus > 0 || |Packed(text, ByteLength(keys.pub.modulus), rng, 0)| == 0
    ensures keys.pub.modulus == 0 && |text| > 0 ==> r == Failure(DivisionByZero)
    ensures !(keys.pub.modulus == 0 && |text| > 0) ==>
      r == Success(ModPowAll(Packed(text, ByteLength(keys.pub.modulus), rng, 0),
                             keys.pub.exponent, keys.pub.modulus))
  {
    var e, n := keys.pub.exponent, keys.pub.modulus;
    PackedNeedsModulus(text, n, rng);
    var blockList := Pack(text, n, rng);
    if blockList.Failure? {
      return Failure(blockList.error);
    }
    r := Success(ModPowAll(blockList.value, e, n));
  }

  /** `RSA.decrypt`: `pow(block, d, n)` on each block, in order, then
      `unpack`, which must return on the decrypted blocks. */
  method Decrypt(keys: KeyPair, blockList: seq<nat>) returns (r: Result<seq<nat>, UnpackError>)
    requires keys.prv.modulus > 0 || |blockList| == 0
    requires UnpackReturns(ModPowAll(blockList, keys.prv.exponent, keys.prv.modulus))
    ensures r == UnpackAll(ModPowAll(blockList, keys.prv.exponent, keys.prv.modulus))
  {
    var d, n := keys.prv.exponent, keys.prv.modulus;
    var decrypted := ModPowAll(blockList, d, n);
    r := Unpack(decrypted);
  }

  /** With a modulus of a whole number of bytes, every block `pack` emits is
      below it: the top byte of a block is at most 0x7F, so the block is below
      2^(8 * mod_size - 1) <= n. */
  lemma PackedBlocksBelowModulus(data: seq<nat>, n: nat, rng: nat -> PadByte)
    requires PackTerminates(data, ByteLength(n))
    requires forall j :: 0 <= j < |data| ==> BitLength(data[j]) <= 63
    requires BitLength(n) % 8 == 0
    ensures forall j :: 0 <= j < |Packed(data, ByteLength(n), rng, 0)| ==> Packed(data, ByteLength(n), rng, 0)[j] < n
  {
    var m := ByteLength(n);
    var blocks := Packed(data, m, rng, 0);
    PackedBlocksLayout(data, m, rng, 0);
    PackedNeedsModulus(data, n, rng);
    if n > 0 {
      TopByteBoundBelowModulus(n);
      forall j | 0 <= j < |blocks| ensures blocks[j] < n {
        BlockBelowTopByte(blocks, m, j);
      }
    }
  }

  lemma BlockBelowTopByte(blocks: seq<nat>, m: nat, j: nat)
    requires AllShaped(blocks, m)
    requires m > 0 && j < |blocks|
    ensures blocks[j] < 0x80 * Pow256(m - 1)
  {
    assert PackedBlockShape(blocks[j], m);
  }

  /** For n of a whole number m of bytes, 0x80 * 256^(m - 1) = 2^(bitlen(n) - 1)
      is at most n. */
  lemma TopByteBoundBelowModulus(n: nat)
    requires n > 0 && BitLength(n) % 8 == 0
    ensures ByteLength(n) >= 1 && 0x80 * Pow256(ByteLength(n) - 1) <= n
  {
    var m, b := ByteLength(n), BitLength(n);
    assert b == 8 * (b / 8);
    DivModUnique(b + 7, 8, b / 8, 7);
    assert b == 8 * m;
    BitLengthBelow(n, 0);
    Pow256IsPow2(m - 1);
    Pow2Add(7, 8 * (m - 1));
    assert Pow2(7) == 0x80;
    BitLengthBelow(n, b - 1);
  }

  /** The RSA property of a key pair, taken as a hypothesis: decryption
      undoes encryption on every value below the modulus. That it holds for
      keys from `_generate` is Euler's theorem, which is not part of this
      model. */
  predicate Inverts(keys: KeyPair)
  {
    && keys.pub.modulus == keys.prv.modulus > 0
    && forall x: nat :: x < keys.pub.modulus ==>
         ModPow(ModPow(x, keys.pub.exponent, keys.pub.modulus), keys.prv.exponent, keys.prv.modulus) == x
  }

  /** Decrypting the encryption of values below the modulus gives them back. */
  lemma ModPowAllInverts(keys: KeyPair, blocks: seq<nat>)
    requires Inverts(keys)
    requires forall j :: 0 <= j < |blocks| ==> blocks[j] < keys.pub.modulus
    ensures ModPowAll(ModPowAll(blocks, keys.pub.exponent, keys.pub.modulus), keys.prv.exponent, keys.prv.modulus) == blocks
  {
    var n := keys.pub.modulus;
    var c := ModPowAll(blocks, keys.pub.exponent, n);
    var r := ModPowAll(c, keys.prv.exponent, n);
    forall j | 0 <= j < |blocks| ensures r[j] == blocks[j] {
      assert c[j] == ModPow(blocks[j], keys.pub.exponent, n);
    }
  }

  /** The cipher round trip `decrypt(encrypt(text)) == text` of the test in
      rsa.py, for a key pair with the RSA property, a modulus of a whole
      number of bytes (so of bit length 2 * i with i a multiple of 4, as for
      the default key length 512), and code points from 1 to 63 bits. */
  lemma CipherRoundTrip(keys: KeyPair, text: seq<nat>, rng: nat -> PadByte)
    requires Inverts(keys) && BitLength(keys.pub.modulus) % 8 == 0
    requires PackTerminates(text, ByteLength(keys.pub.modulus))
    requires forall j :: 0 <= j < |text| ==> 1 <= text[j] && BitLength(text[j]) <= 63
    ensures var n := keys.pub.modulus;
      var decrypted := ModPowAll(ModPowAll(Packed(text, ByteLength(n), rng, 0), keys.pub.exponent, n),
                                 keys.prv.exponent, n);
      && AllUnpackTerminate(decrypted)
      && UnpackReturns(decrypted)
      && UnpackAll(decrypted) == Success(text)
  {
    var n := keys.pub.modulus;
    var blocks := Packed(text, ByteLength(n), rng, 0);
    PackedBlocksBelowModulus(text, n, rng);
    ModPowAllInverts(keys, blocks);
    PackedBlocksTerminate(text, ByteLength(n), rng, 0);
    AllTerminateReturns(blocks);
    PackRoundTrip(text, ByteLength(n), rng, 0);
  }
}
