/** BigIntegerExtension.IsProbablyPrime: the Miller-Rabin test with caller-supplied bases. */
module MillerRabin {
  import opened Arithmetic
  import opened NumberTheory
  import opened BigIntegerBytes

  /** The witness count used when the caller passes none, or zero or fewer. */
  const DefaultWitnesses: nat := 10

  /** The number of rounds the test runs for a requested witness count. */
  function WitnessRounds(witnesses: int): (rounds: nat)
    ensures rounds >= 1
    ensures witnesses >= 1 ==> rounds == witnesses
    ensures witnesses <= 0 ==> rounds == DefaultWitnesses
  {
    if witnesses <= 0 then DefaultWitnesses else witnesses
  }

  // ---------------------------------------------------------------------------------------------
  // Writing value - 1 as d * 2^s with d odd

  /** The odd part d of m = d * 2^s. */
  function OddPart(m: nat): (d: nat)
    requires m >= 1
    ensures d % 2 == 1
  {
    if m % 2 == 0 then OddPart(m / 2) else m
  }

  /** The exponent s of m = d * 2^s with d odd. */
  function TwoAdicity(m: nat): nat
    requires m >= 1
  {
    if m % 2 == 0 then 1 + TwoAdicity(m / 2) else 0
  }

  /** The odd part and the power of two multiply back to m. */
  lemma {:induction false} OddPartFactorization(m: nat)
    requires m >= 1
    ensures OddPart(m) * Pow(2, TwoAdicity(m)) == m
  {
    if m % 2 == 0 {
      OddPartFactorization(m / 2);
      var d, w := OddPart(m / 2), Pow(2, TwoAdicity(m / 2));
      assert Pow(2, TwoAdicity(m)) == 2 * w;
      assert d * (2 * w) == 2 * (d * w);
    }
  }

  /** The decomposition is unique: any odd d and s with d * 2^s == m are OddPart(m), TwoAdicity(m). */
  lemma {:induction false} FactorizationUnique(m: nat, d: nat, s: nat)
    requires m >= 1 && d % 2 == 1 && d * Pow(2, s) == m
    ensures d == OddPart(m) && s == TwoAdicity(m)
  {
    if s > 0 {
      var w := Pow(2, s - 1);
      var h := d * w;
      assert Pow(2, s) == 2 * w;
      assert d * (2 * w) == 2 * h;
      DivModUnique(m, 2, h, 0);
      FactorizationUnique(h, d, s - 1);
    } else {
      assert d == m;
    }
  }

  /** The halving loop: strips the factors of two from value - 1. */
  method Factor(value: int) returns (d: nat, s: nat)
    requires value >= 2
    ensures d == OddPart(value - 1) && s == TwoAdicity(value - 1)
    ensures d % 2 == 1 && d * Pow(2, s) == value - 1
  {
    d, s := value - 1, 0;
    while d % 2 == 0
      invariant d >= 1
      invariant OddPart(d) == OddPart(value - 1)
      invariant s + TwoAdicity(d) == TwoAdicity(value - 1)
      decreases d
    {
      d := d / 2;
      s := s + 1;
    }
    OddPartFactorization(value - 1);
  }

  // ---------------------------------------------------------------------------------------------
  // Drawing the bases

  /** The exit condition of the redraw loop: a base is kept once it lies in [2, value - 3]. */
  predicate Accepted(value: int, a: int) {
    !(a < 2 || a >= value - 2)
  }

  /** The bases a caller supplies in place of the random draws: one accepted base per round. */
  predicate DrawnBases(value: int, witnesses: int, bases: seq<int>) {
    value >= 5 && |bases| == WitnessRounds(witnesses) &&
    forall i :: 0 <= i < |bases| ==> Accepted(value, bases[i])
  }

  /** For value in {2, 3, 4} no base is ever accepted, so the redraw loop never ends. */
  lemma RedrawNeverEndsBelowFive(value: int, a: int)
    requires 2 <= value <= 4
    ensures !Accepted(value, a)
  {
  }

  /** From value 5 on, the base 2 is accepted, so the redraw loop can end. */
  lemma RedrawCanEndFromFive(value: int)
    requires value >= 5
    ensures Accepted(value, 2)
  {
  }

  /** Every accepted base can be drawn: it is the value of some array of the byte length of
      value, the length of the array the draws are made into. */
  lemma AcceptedBaseIsDrawable(value: int, a: int)
    requires value >= 5 && Accepted(value, a)
    ensures var n := ByteLength(value);
      -Pow(2, 8 * n - 1) <= a < Pow(2, 8 * n - 1) &&
      |ToBytes(a, n)| == n && FromBytes(ToBytes(a, n)) == a
  {
    DecodeEncode(a, ByteLength(value));
  }

  /** A draw whose top bit is set is negative and is drawn again. */
  lemma NegativeDrawRejected(value: int, bytes: seq<Byte>)
    requires |bytes| >= 1 && bytes[|bytes| - 1] >= 128
    ensures !Accepted(value, FromBytes(bytes))
  {
    DecodeRange(bytes);
  }

  // ---------------------------------------------------------------------------------------------
  // One round

  /** a^(d * 2^r) mod n, where n - 1 == d * 2^s with d odd: the value x holds after r squarings. */
  function Chain(n: int, a: int, r: nat): int
    requires n >= 2
  {
    ModPow(a, OddPart(n - 1) * Pow(2, r), n)
  }

  /** The condition under which one round lets value through: a^d mod n is 1 or n - 1, or one
      of the squarings a^(d * 2^r) mod n with 1 <= r < s is n - 1. */
  ghost predicate IsStrongBase(n: int, a: int)
    requires n >= 2
  {
    Chain(n, a, 0) == 1 || Chain(n, a, 0) == n - 1 ||
    exists r :: 1 <= r < TwoAdicity(n - 1) && Chain(n, a, r) == n - 1
  }

  /** Each squaring moves one step along the chain. */
  lemma ChainStep(n: int, a: int, r: nat)
    requires n >= 2
    ensures Chain(n, a, r + 1) == ModPow(Chain(n, a, r), 2, n)
  {
    var o, w := OddPart(n - 1), Pow(2, r);
    var e := o * w;
    assert Pow(2, r + 1) == 2 * w;
    assert o * (2 * w) == e + e;
    ModPowSquare(a, e, n);
  }

  /** Once the chain reaches 1 it stays at 1. */
  lemma {:induction false} OnesStay(n: int, a: int, r: nat, k: nat)
    requires n >= 2 && r <= k && Chain(n, a, r) == 1
    ensures Chain(n, a, k) == 1
    decreases k - r
  {
    if r < k {
      ChainStep(n, a, r);
      ModPowTwo(1, n);
      DivModUnique(1 * 1, n, 0, 1);
      OnesStay(n, a, r + 1, k);
    }
  }

  /** A square that reaches 1 from a value other than 1 and n - 1 shows that n is composite. */
  lemma EarlyOneRevealsComposite(n: int, a: int, r: nat)
    requires n >= 2 && Chain(n, a, r + 1) == 1 && Chain(n, a, r) != 1 && Chain(n, a, r) != n - 1
    ensures !IsPrime(n)
  {
    var x := Chain(n, a, r);
    ChainStep(n, a, r);
    ModPowTwo(x, n);
    if IsPrime(n) {
      SquareRootOfOne(n, x);
    }
  }

  /** A round that meets 1 before n - 1 rejects the base. */
  lemma OneBeforeMinusOne(n: int, a: int, r: nat)
    requires n >= 3 && r >= 1 && Chain(n, a, r) == 1
    requires forall k :: 0 <= k < r ==> Chain(n, a, k) != 1 && Chain(n, a, k) != n - 1
    ensures !IsStrongBase(n, a)
  {
    forall k | r <= k
      ensures Chain(n, a, k) == 1
    {
      OnesStay(n, a, r, k);
    }
  }

  /** A round whose squarings all miss n - 1 rejects the base. */
  lemma MinusOneNeverMet(n: int, a: int, r: nat)
    requires n >= 3 && r >= 1 && r >= TwoAdicity(n - 1)
    requires forall k :: 0 <= k < r ==> Chain(n, a, k) != 1 && Chain(n, a, k) != n - 1
    ensures !IsStrongBase(n, a)
  {
  }

  // ---------------------------------------------------------------------------------------------
  // No false negatives

  /** Going down from a 1 in the chain, the first value that is not 1 is n - 1. */
  lemma {:induction false} DescendToMinusOne(n: int, a: int, k: nat)
    requires IsPrime(n) && k >= 1 && Chain(n, a, k) == 1 && Chain(n, a, 0) != 1
    ensures exists r :: 0 <= r < k && Chain(n, a, r) == n - 1
  {
    var x := Chain(n, a, k - 1);
    ChainStep(n, a, k - 1);
    ModPowTwo(x, n);
    SquareRootOfOne(n, x);
    if x == 1 {
      DescendToMinusOne(n, a, k - 1);
    }
  }

  /** A prime n >= 3 lets every base in [1, n - 1] through: the test never rejects a prime. */
  lemma PrimeIsStrongForEveryBase(n: int, a: int)
    requires IsPrime(n) && n >= 3 && 1 <= a < n
    ensures IsStrongBase(n, a)
  {
    assert !Divides(2, n);
    var s := TwoAdicity(n - 1);
    assert s >= 1;
    OddPartFactorization(n - 1);
    assert OddPart(n - 1) * Pow(2, s) == n - 1;
    ModPowIsPowMod(a, n - 1, n);
    FermatLittle(n, a);
    assert Chain(n, a, s) == ModPow(a, n - 1, n);
    if Chain(n, a, 0) != 1 {
      DescendToMinusOne(n, a, s);
    }
  }

  /** A base that fails its round proves that n is composite. */
  lemma RejectedBaseRevealsComposite(n: int, a: int)
    requires n >= 5 && Accepted(n, a) && !IsStrongBase(n, a)
    ensures !IsPrime(n)
  {
    if IsPrime(n) {
      PrimeIsStrongForEveryBase(n, a);
    }
  }

  // ---------------------------------------------------------------------------------------------
  // The test

  /** IsProbablyPrime(value, witnesses), with bases[i] the base the redraw loop settles on in
      round i. It answers false for value <= 1; for value >= 5 it answers true exactly when every
      base passes its round. */
  method IsProbablyPrime(value: int, witnesses: int, bases: seq<int>) returns (result: bool)
    requires value <= 1 || DrawnBases(value, witnesses, bases)
    ensures value <= 1 ==> !result
    ensures value >= 2 ==> (result <==> forall i :: 0 <= i < |bases| ==> IsStrongBase(value, bases[i]))
    ensures IsPrime(value) ==> result
  {
    if value <= 1 {
      return false;
    }
    var rounds := WitnessRounds(witnesses);
    var d, s := Factor(value);
    for i := 0 to rounds
      invariant forall j :: 0 <= j < i ==> IsStrongBase(value, bases[j])
    {
      var a := bases[i];
      var x := ModPow(a, d, value);
      assert x == Chain(value, a, 0);
      if x == 1 || x == value - 1 {
        continue;
      }
      var r := 1;
      while r < s
        invariant 1 <= r <= if s == 0 then 1 else s
        invariant x == Chain(value, a, r - 1)
        invariant forall k :: 0 <= k < r ==> Chain(value, a, k) != 1 && Chain(value, a, k) != value - 1
      {
        ChainStep(value, a, r - 1);
        x := ModPow(x, 2, value);
        if x == 1 {
          OneBeforeMinusOne(value, a, r);
          RejectedBaseRevealsComposite(value, a);
          return false;
        }
        if x == value - 1 {
          break;
        }
        r := r + 1;
      }
      if x != value - 1 {
        MinusOneNeverMet(value, a, r);
        RejectedBaseRevealsComposite(value, a);
        return false;
      }
      assert 1 <= r < s && Chain(value, a, r) == value - 1;
    }
    result := true;
  }

  /** What the corrected test answers: primality itself below 5, and from 5 on whether every
      base passes its round. */
  ghost predicate PassesTest(value: int, bases: seq<int>) {
    if value <= 4 then IsPrime(value)
    else forall i :: 0 <= i < |bases| ==> IsStrongBase(value, bases[i])
  }

  /** The test as evidently intended: 2 and 3 are prime and 4 is not, answered without drawing
      bases; every other value goes through IsProbablyPrime. */
  method IsProbablyPrimeCorrected(value: int, witnesses: int, bases: seq<int>) returns (result: bool)
    requires value <= 4 || DrawnBases(value, witnesses, bases)
    ensures result == PassesTest(value, bases)
    ensures value <= 4 ==> (result <==> IsPrime(value))
    ensures value >= 5 ==> (result <==> forall i :: 0 <= i < |bases| ==> IsStrongBase(value, bases[i]))
    ensures IsPrime(value) ==> result
  {
    if value <= 4 {
      result := value == 2 || value == 3;
      assert IsPrime(2) && IsPrime(3);
      assert Divides(2, 4);
      return;
    }
    result := IsProbablyPrime(value, witnesses, bases);
  }
}
