/** The facts about primes behind the claim that the Miller-Rabin test never rejects a prime:
    Euclid's lemma, Fermat's little theorem and the square roots of 1 modulo a prime. */
module NumberTheory {
  import opened Arithmetic

  /** k is a divisor of n. */
  predicate Divides(k: int, n: int) {
    k != 0 && n % k == 0
  }

  /** n is a prime number. */
  ghost predicate IsPrime(n: int) {
    n >= 2 && forall k :: 2 <= k < n ==> !Divides(k, n)
  }

  /** Euclid's lemma: a prime that divides a product and not one factor divides the other. */
  lemma {:induction false} Euclid(p: int, x: int, y: int)
    requires IsPrime(p) && 0 < x < p && (x * y) % p == 0
    ensures y % p == 0
    decreases x
  {
    if x > 1 {
      assert !Divides(x, p);
      var q, r := p / x, p % x;
      assert 0 < r < x;
      var t := (x * y) / p;
      assert x * y == t * p;
      assert p == q * x + r;
      assert r * y == (y - q * t) * p by {
        calc {
          r * y;
          (p - q * x) * y;
          p * y - q * (x * y);
          p * y - q * (t * p);
          (y - q * t) * p;
        }
      }
      ModMultiple(y - q * t, p);
      Euclid(p, r, y);
    }
  }

  /** n factorial. */
  function Fact(n: nat): (r: nat)
    ensures r >= 1
  {
    if n == 0 then 1 else n * Fact(n - 1)
  }

  /** The product of the elements of s. */
  function Product(s: seq<int>): int {
    if s == [] then 1 else Product(s[..|s| - 1]) * s[|s| - 1]
  }

  /** No value occurs twice in s. */
  predicate Distinct(s: seq<int>) {
    forall i, j :: 0 <= i < j < |s| ==> s[i] != s[j]
  }

  /** Every element of s lies in [lo, hi]. */
  predicate AllIn(s: seq<int>, lo: int, hi: int) {
    forall i :: 0 <= i < |s| ==> lo <= s[i] <= hi
  }

  /** A prime does not divide the factorial of a smaller number. */
  lemma {:induction false} FactCoprime(p: int, k: nat)
    requires IsPrime(p) && k < p
    ensures Fact(k) % p != 0
  {
    if k > 0 {
      FactCoprime(p, k - 1);
      if Fact(k) % p == 0 {
        Euclid(p, k, Fact(k - 1));
      }
    }
  }

  lemma {:induction false} ProductConcat(a: seq<int>, b: seq<int>)
    ensures Product(a + b) == Product(a) * Product(b)
  {
    if b == [] {
      assert a + b == a;
    } else {
      var c := a + b;
      assert c[..|c| - 1] == a + b[..|b| - 1];
      ProductConcat(a, b[..|b| - 1]);
    }
  }

  /** Taking one element out of a sequence divides it out of the product. */
  lemma ProductRemove(s: seq<int>, k: nat)
    requires k < |s|
    ensures Product(s) == Product(s[..k] + s[k + 1..]) * s[k]
  {
    var left, right, v := s[..k], s[k + 1..], s[k];
    assert s == left + ([v] + right);
    ProductInsert(left, right, v);
  }

  lemma ProductInsert(left: seq<int>, right: seq<int>, v: int)
    ensures Product(left + ([v] + right)) == Product(left + right) * v
  {
    ProductConcat(left, [v] + right);
    ProductSingleton(v, right);
    ProductConcat(left, right);
  }

  lemma ProductSingleton(v: int, right: seq<int>)
    ensures Product([v] + right) == v * Product(right)
  {
    ProductConcat([v], right);
    assert [v][..0] == [];
  }

  /** Taking one element out keeps the rest distinct, and none of the rest equals it. */
  lemma RemoveDistinct(s: seq<int>, k: nat)
    requires k < |s| && Distinct(s)
    ensures var t := s[..k] + s[k + 1..];
      |t| == |s| - 1 && Distinct(t) &&
      forall j :: 0 <= j < |t| ==> t[j] != s[k] && t[j] == s[if j < k then j else j + 1]
  {
    var t := s[..k] + s[k + 1..];
    forall j | 0 <= j < |t|
      ensures t[j] == s[if j < k then j else j + 1]
    {
    }
  }

  /** Taking the largest value m out of distinct values from [1, m] leaves values from [1, m - 1]. */
  lemma RemoveLargest(s: seq<int>, k: nat, m: int)
    requires Distinct(s) && AllIn(s, 1, m) && k < |s| && s[k] == m
    ensures Distinct(s[..k] + s[k + 1..]) && AllIn(s[..k] + s[k + 1..], 1, m - 1)
  {
    RemoveDistinct(s, k);
  }

  /** Pigeonhole: distinct values from [1, m] number at most m. */
  lemma {:induction false} DistinctBounded(s: seq<int>, m: nat)
    requires Distinct(s) && AllIn(s, 1, m)
    ensures |s| <= m
    decreases m
  {
    if |s| > 0 {
      assert 1 <= s[0] <= m;
      if k :| 0 <= k < |s| && s[k] == m {
        RemoveLargest(s, k, m);
        DistinctBounded(s[..k] + s[k + 1..], m - 1);
      } else {
        assert AllIn(s, 1, m - 1);
        DistinctBounded(s, m - 1);
      }
    }
  }

  /** Distinct values from [1, n], n of them, include n. */
  lemma IncludesLargest(s: seq<int>, n: nat)
    requires Distinct(s) && AllIn(s, 1, n) && |s| == n && n > 0
    ensures exists k :: 0 <= k < |s| && s[k] == n
  {
    if !exists k :: 0 <= k < |s| && s[k] == n {
      assert AllIn(s, 1, n - 1);
      DistinctBounded(s, n - 1);
    }
  }

  /** A rearrangement of 1..n has product n!. */
  lemma {:induction false} PermutationProduct(s: seq<int>, n: nat)
    requires Distinct(s) && AllIn(s, 1, n) && |s| == n
    ensures Product(s) == Fact(n)
  {
    if n > 0 {
      IncludesLargest(s, n);
      var k :| 0 <= k < |s| && s[k] == n;
      var t := s[..k] + s[k + 1..];
      RemoveLargest(s, k, n);
      PermutationProduct(t, n - 1);
      ProductRemove(s, k);
      var pt := Product(t);
      assert Product(s) == pt * n;
      assert Fact(n) == n * pt;
    }
  }

  /** The residues a*1 mod p, ..., a*k mod p. */
  function Residues(a: int, p: int, k: nat): (r: seq<int>)
    requires p >= 1
    ensures |r| == k && forall i :: 0 <= i < k ==> r[i] == (a * (i + 1)) % p
  {
    if k == 0 then [] else Residues(a, p, k - 1) + [(a * k) % p]
  }

  /** The product of the residues is congruent to a^k * k!. */
  lemma {:induction false} ResiduesProduct(a: int, p: int, k: nat)
    requires p >= 1
    ensures Product(Residues(a, p, k)) % p == (Pow(a, k) * Fact(k)) % p
  {
    if k > 0 {
      var prev := Residues(a, p, k - 1);
      var r := Residues(a, p, k);
      assert r[..k - 1] == prev;
      var pw, f := Pow(a, k - 1), Fact(k - 1);
      var pr, q, m := Product(prev), pw * f, a * k;
      ResiduesProduct(a, p, k - 1);
      assert Product(r) == pr * (m % p);
      MulModRight(pr, m, p);
      MulCongruent(pr, q, m, p);
      Rearrange(pw, f, a, k);
      assert Pow(a, k) == a * pw && Fact(k) == k * f;
    }
  }

  lemma Rearrange(pw: int, f: int, a: int, k: int)
    ensures (pw * f) * (a * k) == (a * pw) * (k * f)
  {
  }

  /** For a prime p and 1 <= a < p, no multiple a*i with 0 < i < p is divisible by p. */
  lemma ResidueNonzero(p: int, a: int, i: int)
    requires IsPrime(p) && 1 <= a < p && 0 < i < p
    ensures (a * i) % p != 0
  {
    if (a * i) % p == 0 {
      assert a * i == i * a;
      DivModUnique(a, p, 0, a);
      Euclid(p, i, a);
    }
  }

  /** For a prime p and 1 <= a < p, the multiples a*i with 0 < i < p differ modulo p. */
  lemma ResiduesDiffer(p: int, a: int, i: int, j: int)
    requires IsPrime(p) && 1 <= a < p && 0 < i < j < p
    ensures (a * i) % p != (a * j) % p
  {
    if (a * i) % p == (a * j) % p {
      DifferenceOfMultiples(p, a, i, j);
      DivModUnique(a, p, 0, a);
      Euclid(p, j - i, a);
    }
  }

  lemma DifferenceOfMultiples(p: int, a: int, i: int, j: int)
    requires p >= 1 && (a * i) % p == (a * j) % p
    ensures ((j - i) * a) % p == 0
  {
    var x, y := a * i, a * j;
    CongruentDifference(y, x, p);
    assert y - x == (j - i) * a;
  }

  /** For a prime p and 1 <= a < p, the residues a*1, ..., a*(p-1) mod p are 1..p-1 rearranged. */
  lemma ResiduesArePermutation(p: int, a: int)
    requires IsPrime(p) && 1 <= a < p
    ensures Distinct(Residues(a, p, p - 1)) && AllIn(Residues(a, p, p - 1), 1, p - 1)
  {
    var r := Residues(a, p, p - 1);
    forall i | 0 <= i < p - 1
      ensures 1 <= r[i] <= p - 1
    {
      var x := a * (i + 1);
      assert r[i] == x % p;
      ResidueNonzero(p, a, i + 1);
    }
    forall i, j | 0 <= i < j < p - 1
      ensures r[i] != r[j]
    {
      var x, y := a * (i + 1), a * (j + 1);
      assert r[i] == x % p && r[j] == y % p;
      ResiduesDiffer(p, a, i + 1, j + 1);
    }
  }

  /** Fermat's little theorem. */
  lemma FermatLittle(p: int, a: int)
    requires IsPrime(p) && 1 <= a < p
    ensures Pow(a, p - 1) % p == 1
  {
    var f, pw := Fact(p - 1), Pow(a, p - 1);
    assert f % p == (pw * f) % p by {
      var r := Residues(a, p, p - 1);
      ResiduesArePermutation(p, a);
      PermutationProduct(r, p - 1);
      ResiduesProduct(a, p, p - 1);
    }
    FactCoprime(p, p - 1);
    CancelFactor(p, f, pw);
  }

  /** A factor the prime does not divide cancels from a congruence. */
  lemma CancelFactor(p: int, f: int, w: int)
    requires IsPrime(p) && f % p != 0 && w >= 1 && f % p == (w * f) % p
    ensures w % p == 1
  {
    CongruentDifference(w * f, f, p);
    assert w * f - f == (f % p + (f / p) * p) * (w - 1);
    assert (f % p + (f / p) * p) * (w - 1) == (f % p) * (w - 1) + ((f / p) * (w - 1)) * p;
    ModAddMultiple((f % p) * (w - 1), (f / p) * (w - 1), p);
    Euclid(p, f % p, w - 1);
    DivModUnique(w, p, (w - 1) / p, 1);
  }

  /** Modulo a prime, the only square roots of 1 are 1 and -1. */
  lemma SquareRootOfOne(p: int, x: int)
    requires IsPrime(p) && 0 <= x < p && (x * x) % p == 1
    ensures x == 1 || x == p - 1
  {
    if x != 1 {
      assert x != 0;
      DivModUnique(1, p, 0, 1);
      CongruentDifference(x * x, 1, p);
      var y, z := x - 1, x + 1;
      assert x * x - 1 == y * z;
      Euclid(p, y, z);
    }
  }
}
