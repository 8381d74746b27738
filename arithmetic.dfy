/** Integer powers, modular exponentiation and the facts about `%` the model relies on.
    Dafny's `%` is Euclidean; every quantity that reaches it here is nonnegative or is
    reduced modulo a positive modulus, so it agrees with C#'s BigInteger remainder. */
module Arithmetic {

  /** b raised to the power e. */
  function Pow(b: int, e: nat): (r: int)
    ensures b >= 0 ==> r >= 0
    ensures b >= 1 ==> r >= 1
  {
    if e == 0 then 1 else b * Pow(b, e - 1)
  }

  /** The value BigInteger.ModPow(b, e, m) computes, defined by one multiplication per unit
      of the exponent. */
  function ModPow(b: int, e: nat, m: int): (r: int)
    requires m >= 1
    ensures 0 <= r < m
  {
    if e == 0 then 1 % m else (b * ModPow(b, e - 1, m)) % m
  }

  /** Division with remainder is unique. */
  lemma DivModUnique(x: int, m: int, q: int, r: int)
    requires m >= 1 && 0 <= r < m && x == q * m + r
    ensures x % m == r && x / m == q
  {
    var q', r' := x / m, x % m;
    assert q' * m + r' == x;
    assert (q - q') * m == r' - r;
    if q - q' >= 1 {
      MulAtLeast(q - q', m);
    } else if q' - q >= 1 {
      MulAtLeast(q' - q, m);
    }
  }

  lemma MulAtLeast(k: int, m: int)
    requires k >= 1 && m >= 1
    ensures k * m >= m
  {
  }

  /** Adding a multiple of the modulus does not change the remainder. */
  lemma ModAddMultiple(x: int, k: int, m: int)
    requires m >= 1
    ensures (x + k * m) % m == x % m
  {
    DivModUnique(x + k * m, m, x / m + k, x % m);
  }

  /** A multiple of the modulus leaves remainder 0. */
  lemma ModMultiple(k: int, m: int)
    requires m >= 1
    ensures (k * m) % m == 0
  {
    DivModUnique(k * m, m, k, 0);
  }

  /** Reducing one factor first does not change the remainder of a product. */
  lemma MulModRight(x: int, y: int, m: int)
    requires m >= 1
    ensures (x * (y % m)) % m == (x * y) % m
  {
    var q := y / m;
    assert y == q * m + y % m;
    assert x * y == x * (y % m) + (x * q) * m;
    ModAddMultiple(x * (y % m), x * q, m);
  }

  /** Reducing both factors first does not change the remainder of a product. */
  lemma MulMod(x: int, y: int, m: int)
    requires m >= 1
    ensures ((x % m) * (y % m)) % m == (x * y) % m
  {
    MulModRight(x % m, y, m);
    assert (x % m) * y == y * (x % m);
    MulModRight(y, x, m);
    assert y * x == x * y;
  }

  /** Congruent left factors give congruent products. */
  lemma MulCongruent(x: int, y: int, z: int, m: int)
    requires m >= 1 && x % m == y % m
    ensures (x * z) % m == (y * z) % m
  {
    MulModRight(z, x, m);
    MulModRight(z, y, m);
    assert z * x == x * z && z * y == y * z;
  }

  /** Congruent numbers differ by a multiple of the modulus. */
  lemma CongruentDifference(x: int, y: int, m: int)
    requires m >= 1 && x % m == y % m
    ensures (x - y) % m == 0
  {
    assert x == (x / m) * m + x % m;
    assert y == (y / m) * m + y % m;
    assert x - y == (x / m - y / m) * m;
    ModMultiple(x / m - y / m, m);
  }

  lemma {:induction false} PowAdd(b: int, e1: nat, e2: nat)
    ensures Pow(b, e1 + e2) == Pow(b, e1) * Pow(b, e2)
  {
    if e1 > 0 {
      var x, y := Pow(b, e1 - 1), Pow(b, e2);
      PowAdd(b, e1 - 1, e2);
      assert Pow(b, e1 + e2) == b * Pow(b, e1 - 1 + e2);
      assert e1 - 1 + e2 == (e1 - 1) + e2;
      MulAssociative(b, x, y);
    }
  }

  lemma MulAssociative(x: int, y: int, z: int)
    ensures x * (y * z) == (x * y) * z
  {
  }

  /** ModPow is the ordinary power reduced once at the end. */
  lemma {:induction false} ModPowIsPowMod(b: int, e: nat, m: int)
    requires m >= 1
    ensures ModPow(b, e, m) == Pow(b, e) % m
  {
    if e > 0 {
      ModPowIsPowMod(b, e - 1, m);
      MulModRight(b, Pow(b, e - 1), m);
    }
  }

  /** ModPow with exponent 2 is one squaring. */
  lemma ModPowTwo(x: int, m: int)
    requires m >= 1
    ensures ModPow(x, 2, m) == (x * x) % m
  {
    var one := ModPow(x, 1, m);
    assert ModPow(x, 0, m) == 1 % m;
    assert one == (x * ModPow(x, 0, m)) % m;
    MulModRight(x, 1, m);
    assert one == x % m;
    assert ModPow(x, 2, m) == (x * one) % m;
    MulModRight(x, x, m);
  }

  /** Squaring a reduced power reduces the doubled power. */
  lemma ModPowSquare(b: int, e: nat, m: int)
    requires m >= 1
    ensures ModPow(ModPow(b, e, m), 2, m) == ModPow(b, e + e, m)
  {
    var x, y := ModPow(b, e, m), Pow(b, e);
    ModPowIsPowMod(b, e, m);
    assert x == y % m;
    ModPowTwo(x, m);
    MulMod(y, y, m);
    assert (x * x) % m == (y * y) % m;
    PowAdd(b, e, e);
    ModPowIsPowMod(b, e + e, m);
  }
}
