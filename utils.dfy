/** utils.py: the extended Euclidean algorithm and the byte length of an
    integer. */
module Utils {
  import opened Numbers

  function Abs(x: int): nat
  {
    if x < 0 then -x else x
  }

  /** Python's `//`: the quotient rounded toward negative infinity, so that
      the remainder takes the sign of the divisor. */
  function FloorDiv(a: int, b: int): (q: int)
    requires b != 0
    ensures b > 0 ==> 0 <= a - q * b < b
    ensures b < 0 ==> b < a - q * b <= 0
  {
    if b > 0 then a / b
    else
      assert -a == (-b) * ((-a) / (-b)) + (-a) % (-b);
      (-a) / (-b)
  }

  /** The greatest common divisor, by Euclid's recurrence; GcdDivides and
      GcdGreatest below show that it is the greatest common divisor. */
  function Gcd(a: nat, b: nat): nat
    decreases b
  {
    if b == 0 then a else Gcd(b, a % b)
  }

  lemma {:induction false} GcdDivides(a: nat, b: nat)
    ensures a > 0 || b > 0 ==> Gcd(a, b) > 0
    ensures Gcd(a, b) > 0 ==> a % Gcd(a, b) == 0 && b % Gcd(a, b) == 0
    decreases b
  {
    if b == 0 {
      if a > 0 {
        DivModUnique(a, a, 1, 0);
        DivModUnique(0, a, 0, 0);
      }
    } else {
      GcdDivides(b, a % b);
      assert a == b * (a / b) + a % b;
      MultipleCombination(b, a % b, Gcd(a, b), a / b);
    }
  }

  lemma {:induction false} GcdGreatest(a: nat, b: nat, d: nat)
    requires d > 0 && a % d == 0 && b % d == 0
    ensures Gcd(a, b) % d == 0
    decreases b
  {
    if b > 0 {
      assert a % b == b * -(a / b) + a;
      MultipleCombination(b, a, d, -(a / b));
      GcdGreatest(b, a % b, d);
    }
  }

  /** One step of the loop of `extended_euclid`, repeated until r2 is 0:
      the final (r, u, v). */
  function EuclidState(r: int, u: int, v: int, r2: int, u2: int, v2: int): (int, int, int)
    decreases Abs(r2)
  {
    if r2 == 0 then (r, u, v)
    else
      var q := FloorDiv(r, r2);
      EuclidState(r2, u2, v2, r - q * r2, u - q * u2, v - q * v2)
  }

  /** The value `extended_euclid(a, b)` returns: the Bezout coefficient of a. */
  function EuclidCoefficient(a: int, b: int): int
  {
    EuclidState(a, 1, 0, b, 0, 1).1
  }

  /** r is the combination a*u + b*v. */
  predicate Bezout(a: int, b: int, r: int, u: int, v: int)
  {
    r == a * u + b * v
  }

  /** Subtracting q times one Bezout combination from another gives the
      combination of the differences. */
  lemma BezoutStep(a: int, b: int, r: int, u: int, v: int, r2: int, u2: int, v2: int, q: int)
    requires Bezout(a, b, r, u, v) && Bezout(a, b, r2, u2, v2)
    ensures Bezout(a, b, r - q * r2, u - q * u2, v - q * v2)
  {
  }

  /** A Bezout combination equal to 1 makes u an inverse of a modulo b. */
  lemma InverseFromBezout(a: int, b: int, u: int, v: int)
    requires b > 1 && Bezout(a, b, 1, u, v)
    ensures (a * u) % b == 1
  {
    assert a * u == 1 + b * -v;
    AddMulMod(1, b, -v);
  }

  /** A step of the loop keeps the gcd of (r, r2). */
  lemma GcdStep(r: int, r2: int)
    requires r >= 0 && r2 > 0
    ensures r - FloorDiv(r, r2) * r2 == r % r2
    ensures Gcd(r, r2) == Gcd(r2, r - FloorDiv(r, r2) * r2)
  {
  }

  /** From non-negative (r, r2), Euclid's recurrence ends at gcd(r, r2) and
      keeps the Bezout combination. */
  lemma {:induction false} EuclidStateSound(a: int, b: int, r: int, u: int, v: int, r2: int, u2: int, v2: int)
    requires Bezout(a, b, r, u, v) && Bezout(a, b, r2, u2, v2) && r >= 0 && r2 >= 0
    ensures var (g, x, y) := EuclidState(r, u, v, r2, u2, v2);
      Bezout(a, b, g, x, y) && g == Gcd(r, r2)
    decreases r2
  {
    if r2 != 0 {
      var q := FloorDiv(r, r2);
      BezoutStep(a, b, r, u, v, r2, u2, v2, q);
      GcdStep(r, r2);
      EuclidStateSound(a, b, r2, u2, v2, r - q * r2, u - q * u2, v - q * v2);
    }
  }

  /** The value of `extended_euclid(a, b)` is an inverse of a modulo b when
      a and b are coprime, which is what `_get_d` relies on. */
  lemma EuclidCoefficientInverse(a: int, b: int)
    requires a >= 0 && b > 1 && Gcd(a, b) == 1
    ensures (a * EuclidCoefficient(a, b)) % b == 1
  {
    EuclidStateSound(a, b, a, 1, 0, b, 0, 1);
    var (g, x, y) := EuclidState(a, 1, 0, b, 0, 1);
    InverseFromBezout(a, b, x, y);
  }

  /** `extended_euclid`. It terminates for all integers, because the new r2
      is a remainder of the old one and so smaller in absolute value. The
      coefficient v of b is computed by the source and thrown away; here it
      is a ghost output, so that the Bezout identity can be stated. */
  method ExtendedEuclid(a: int, b: int) returns (u: int, ghost v: int)
    ensures u == EuclidCoefficient(a, b)
    ensures a >= 0 && b >= 0 ==> a * u + b * v == Gcd(a, b)
    ensures a >= 0 && b > 1 && Gcd(a, b) == 1 ==> (a * u) % b == 1
  {
    var r := a;
    u := 1;
    v := 0;
    var r2 := b;
    var u2 := 0;
    ghost var v2 := 1;

    while r2 != 0
      invariant Bezout(a, b, r, u, v) && Bezout(a, b, r2, u2, v2)
      invariant EuclidState(r, u, v, r2, u2, v2) == EuclidState(a, 1, 0, b, 0, 1)
      invariant a >= 0 && b >= 0 ==> r >= 0 && r2 >= 0 && Gcd(r, r2) == Gcd(a, b)
      decreases Abs(r2)
    {
      var q := FloorDiv(r, r2);
      var rest := r - q * r2;
      BezoutStep(a, b, r, u, v, r2, u2, v2, q);
      if a >= 0 && b >= 0 {
        GcdStep(r, r2);
        assert rest >= 0 && Gcd(r2, rest) == Gcd(a, b);
      }
      r, u, v, r2, u2, v2 := r2, u2, v2, rest, u - q * u2, v - q * v2;
    }
    if a >= 0 && b > 1 && Gcd(a, b) == 1 {
      InverseFromBezout(a, b, u, v);
    }
  }

  /** `byte_length`: the number of bytes of i, rounding its bit length up to
      whole bytes. */
  function ByteLength(i: nat): (k: nat)
    ensures k == 0 <==> i == 0
  {
    (BitLength(i) + 7) / 8
  }

  /** byte_length(i) is the least k with i < 256^k (so byte_length(0) == 0). */
  lemma ByteLengthIsLeast(i: nat)
    ensures i < Pow256(ByteLength(i))
    ensures ByteLength(i) > 0 ==> Pow256(ByteLength(i) - 1) <= i
  {
    var b, k := BitLength(i), ByteLength(i);
    BitLengthBelow(i, b);
    Pow2Monotone(b, 8 * k);
    Pow256IsPow2(k);
    if k > 0 {
      BitLengthBelow(i, b - 1);
      Pow2Monotone(8 * (k - 1), b - 1);
      Pow256IsPow2(k - 1);
    }
  }
}
