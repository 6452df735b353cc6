/** The arithmetic behind an RSA key: powers, congruences, Euclid's lemma, the
    binomial theorem, Fermat's little theorem, and the statement that raising to
    e and then to d modulo p * q gives the starting value back. */
module NumberTheory {
  // --- Powers ---------------------------------------------------------------

  function Pow(b: int, e: nat): int {
    if e == 0 then 1 else b * Pow(b, e - 1)
  }

  lemma {:induction false} PowPositive(b: nat, e: nat)
    requires b > 0
    ensures Pow(b, e) > 0
  {
    if e == 0 {
    } else {
      PowPositive(b, e - 1);
      assert b * Pow(b, e - 1) > 0;
    }
  }

  lemma MulAssociates(x: int, y: int, z: int)
    ensures x * (y * z) == (x * y) * z
  {
  }

  lemma {:induction false} PowAdd(b: int, x: nat, y: nat)
    ensures Pow(b, x + y) == Pow(b, x) * Pow(b, y)
  {
    if x == 0 {
    } else {
      PowAdd(b, x - 1, y);
      MulAssociates(b, Pow(b, x - 1), Pow(b, y));
    }
  }

  lemma {:induction false} PowMul(b: int, x: nat, y: nat)
    ensures x * y >= 0 && Pow(b, x * y) == Pow(Pow(b, x), y)
  {
    if y == 0 {
      assert x * y == 0;
    } else {
      PowMul(b, x, y - 1);
      assert x * y == x + x * (y - 1);
      PowAdd(b, x, x * (y - 1));
    }
  }

  // --- Congruences ----------------------------------------------------------

  ghost predicate Divides(d: int, x: int) {
    exists k :: x == d * k
  }

  ghost predicate Congruent(x: int, y: int, n: int) {
    Divides(n, x - y)
  }

  lemma DividesSum(d: int, x: int, y: int)
    requires Divides(d, x) && Divides(d, y)
    ensures Divides(d, x + y) && Divides(d, x - y)
  {
    var i :| x == d * i;
    var j :| y == d * j;
    assert x + y == d * (i + j);
    assert x - y == d * (i - j);
  }

  lemma DividesMultiple(d: int, x: int, m: int)
    requires Divides(d, x)
    ensures Divides(d, x * m) && Divides(d, m * x)
  {
    var i :| x == d * i;
    MulAssociates(d, i, m);
    assert x * m == d * (i * m);
  }

  lemma CongruentReflexive(x: int, n: int)
    ensures Congruent(x, x, n)
  {
    assert x - x == n * 0;
  }

  lemma CongruentTransitive(x: int, y: int, z: int, n: int)
    requires Congruent(x, y, n) && Congruent(y, z, n)
    ensures Congruent(x, z, n)
  {
    DividesSum(n, x - y, y - z);
    assert (x - y) + (y - z) == x - z;
  }

  lemma CongruentMul(x: int, y: int, a: int, b: int, n: int)
    requires Congruent(x, y, n) && Congruent(a, b, n)
    ensures Congruent(x * a, y * b, n)
  {
    DividesMultiple(n, x - y, a);
    DividesMultiple(n, a - b, y);
    DividesSum(n, (x - y) * a, y * (a - b));
    assert (x - y) * a + y * (a - b) == x * a - y * b;
  }

  lemma {:induction false} CongruentPow(x: int, y: int, e: nat, n: int)
    requires Congruent(x, y, n)
    ensures Congruent(Pow(x, e), Pow(y, e), n)
  {
    if e == 0 {
      CongruentReflexive(1, n);
    } else {
      CongruentPow(x, y, e - 1, n);
      CongruentMul(x, y, Pow(x, e - 1), Pow(y, e - 1), n);
    }
  }

  lemma CongruentMod(x: int, n: int)
    requires n > 0
    ensures Congruent(x % n, x, n)
  {
    assert x % n - x == n * -(x / n);
  }

  lemma MulMonotone(n: nat, x: int, y: int)
    requires x <= y
    ensures n * x <= n * y
  {
  }

  lemma SmallMultiple(n: int, t: int)
    requires -n < n * t < n
    ensures t == 0
  {
    if t >= 1 {
      MulMonotone(n, 1, t);
    } else if t <= -1 {
      MulMonotone(n, t, -1);
    }
  }

  /** A residue is determined by its congruence class. */
  lemma ResidueUnique(x: int, r: int, n: int)
    requires n > 0 && 0 <= r < n && Congruent(x, r, n)
    ensures x % n == r
  {
    var k :| x - r == n * k;
    var q, m := x / n, x % n;
    assert n * (q - k) == r - m;
    SmallMultiple(n, q - k);
  }

  lemma QuotientUnique(x: int, n: nat, q: int, r: int)
    requires 0 <= r < n && x == n * q + r
    ensures x / n == q
  {
    assert x - r == n * q;
    ResidueUnique(x, r, n);
    assert n * (x / n - q) == 0;
    SmallMultiple(n, x / n - q);
  }

  lemma ModZeroDivides(x: int, n: int)
    requires n > 0 && x % n == 0
    ensures Divides(n, x)
  {
    assert x == n * (x / n);
  }

  lemma NotDividesSmaller(d: int, x: int)
    requires 0 < x < d
    ensures !Divides(d, x)
  {
    forall k ensures x != d * k {
      if k <= 0 {
        MulMonotone(d, k, 0);
      } else {
        MulMonotone(d, 1, k);
      }
    }
  }

  // --- Primes ---------------------------------------------------------------

  ghost predicate Prime(p: int) {
    p >= 2 && forall d :: 2 <= d < p ==> !Divides(d, p)
  }

  /** Euclid's lemma for a factor below p, by descent: replace the factor a by
      the remainder of p divided by a. */
  lemma {:induction false} EuclidBelow(p: int, a: int, b: int)
    requires Prime(p) && 0 < a < p && Divides(p, a * b)
    ensures Divides(p, b)
    decreases a
  {
    if a > 1 {
      var t, r := p / a, p % a;
      assert p == a * t + r;
      if r == 0 {
        ModZeroDivides(p, a);
        assert false;
      }
      // r * b is p * b minus t copies of a * b, so p divides it too
      DividesMultiple(p, a * b, t);
      assert Divides(p, p * b);
      DividesSum(p, p * b, (a * b) * t);
      assert p * b - (a * b) * t == r * b by {
        assert p * b == (a * t + r) * b == (a * t) * b + r * b;
        assert (a * t) * b == (a * b) * t;
      }
      EuclidBelow(p, r, b);
    }
  }

  lemma Euclid(p: int, a: int, b: int)
    requires Prime(p) && Divides(p, a * b)
    ensures Divides(p, a) || Divides(p, b)
  {
    var r := a % p;
    if r == 0 {
      ModZeroDivides(a, p);
    } else {
      CongruentMod(a, p);
      CongruentReflexive(b, p);
      CongruentMul(r, a, b, b, p);
      DividesSum(p, r * b - a * b, a * b);
      EuclidBelow(p, r, b);
    }
  }

  // --- Binomial theorem -----------------------------------------------------

  function Binomial(n: nat, k: nat): nat {
    if k == 0 then 1
    else if n == 0 then 0
    else Binomial(n - 1, k) + Binomial(n - 1, k - 1)
  }

  lemma {:induction false} BinomialAbove(n: nat, k: nat)
    requires k > n
    ensures Binomial(n, k) == 0
  {
    if n == 0 {
    } else {
      BinomialAbove(n - 1, k);
      BinomialAbove(n - 1, k - 1);
    }
  }

  lemma {:induction false} BinomialDiagonal(n: nat)
    ensures Binomial(n, n) == 1
  {
    if n == 0 {
    } else {
      BinomialDiagonal(n - 1);
      BinomialAbove(n - 1, n);
    }
  }

  lemma AbsorptionStep(n: int, k: int, c: int, d: int, d1: int)
    requires k * c == (n - 1) * d && (k - 1) * (d + d1) == (n - 1) * d1
    ensures k * (c + (d + d1)) == n * (d + d1)
  {
    assert k * (c + (d + d1)) == k * c + (k - 1) * (d + d1) + (d + d1);
    assert (n - 1) * d + (n - 1) * d1 == (n - 1) * (d + d1);
  }

  lemma {:induction false} Absorption(n: nat, k: nat)
    requires n > 0 && k > 0
    ensures k * Binomial(n, k) == n * Binomial(n - 1, k - 1)
  {
    if n == 1 {
      if k > 1 {
        BinomialAbove(1, k);
        BinomialAbove(0, k - 1);
      }
    } else {
      Absorption(n - 1, k);
      if k > 1 {
        Absorption(n - 1, k - 1);
        AbsorptionStep(n, k, Binomial(n - 1, k), Binomial(n - 2, k - 1), Binomial(n - 2, k - 2));
      }
    }
  }

  /** The terms C(n, i) * x^i for i from 0 to k. */
  function Expansion(x: int, n: nat, k: nat): int {
    if k == 0 then 1 else Binomial(n, k) * Pow(x, k) + Expansion(x, n, k - 1)
  }

  lemma {:induction false} ExpansionPascal(x: int, n: nat, k: nat)
    requires k > 0
    ensures Expansion(x, n + 1, k) == Expansion(x, n, k) + x * Expansion(x, n, k - 1)
  {
    var c, c1 := Binomial(n, k), Binomial(n, k - 1);
    var pw := Pow(x, k - 1);
    assert (c + c1) * (x * pw) == c * (x * pw) + x * (c1 * pw);
    if k > 1 {
      ExpansionPascal(x, n, k - 1);
      assert x * (c1 * pw + Expansion(x, n, k - 2)) == x * (c1 * pw) + x * Expansion(x, n, k - 2);
    }
  }

  lemma ZeroTimes(a: int)
    ensures 0 * a == 0
  {
  }

  lemma OneMore(x: int, s: int)
    ensures (1 + x) * s == s + x * s
  {
  }

  lemma {:induction false} BinomialTheorem(x: int, n: nat)
    ensures Pow(1 + x, n) == Expansion(x, n, n)
  {
    if n == 0 {
    } else {
      BinomialTheorem(x, n - 1);
      ExpansionPascal(x, n - 1, n);
      BinomialAbove(n - 1, n);
      var s := Expansion(x, n - 1, n - 1);
      ZeroTimes(Pow(x, n));
      assert Expansion(x, n - 1, n) == s;
      OneMore(x, s);
    }
  }

  // --- Fermat's little theorem ----------------------------------------------

  lemma PrimeDividesBinomial(p: int, k: nat)
    requires Prime(p) && 0 < k < p
    ensures Divides(p, Binomial(p, k))
  {
    Absorption(p, k);
    EuclidBelow(p, k, Binomial(p, k));
  }

  lemma {:induction false} ExpansionModPrime(p: int, x: int, k: nat)
    requires Prime(p) && k < p
    ensures Congruent(Expansion(x, p, k), 1, p)
  {
    if k == 0 {
      CongruentReflexive(1, p);
    } else {
      PrimeDividesBinomial(p, k);
      DividesMultiple(p, Binomial(p, k), Pow(x, k));
      ExpansionModPrime(p, x, k - 1);
      DividesSum(p, Binomial(p, k) * Pow(x, k), Expansion(x, p, k - 1) - 1);
    }
  }

  /** x^p and x agree modulo p, for every natural x. */
  lemma {:induction false} Fermat(p: int, x: nat)
    requires Prime(p)
    ensures Congruent(Pow(x, p), x, p)
  {
    if x == 0 {
      CongruentReflexive(0, p);
    } else {
      Fermat(p, x - 1);
      BinomialTheorem(x - 1, p);
      BinomialDiagonal(p);
      ExpansionModPrime(p, x - 1, p - 1);
      DividesSum(p, Pow(x - 1, p) - (x - 1), Expansion(x - 1, p, p - 1) - 1);
    }
  }

  /** Exponents that are 1 modulo p - 1 act as the identity modulo p. */
  lemma {:induction false} FermatMultiple(p: int, x: nat, k: nat)
    requires Prime(p)
    ensures k * (p - 1) >= 0 && Congruent(Pow(x, 1 + k * (p - 1)), x, p)
  {
    if k == 0 {
      assert Pow(x, 1 + 0 * (p - 1)) == x * Pow(x, 0) == x;
      CongruentReflexive(x, p);
    } else {
      FermatMultiple(p, x, k - 1);
      var e := 1 + (k - 1) * (p - 1);
      assert 1 + k * (p - 1) == e + (p - 1);
      PowAdd(x, e, p - 1);
      CongruentReflexive(Pow(x, p - 1), p);
      CongruentMul(Pow(x, e), x, Pow(x, p - 1), Pow(x, p - 1), p);
      Fermat(p, x);
      CongruentTransitive(Pow(x, e + (p - 1)), Pow(x, p), x, p);
    }
  }

  // --- RSA ------------------------------------------------------------------

  /** Two coprime divisors: distinct primes p and q that both divide x have a
      product that divides x. */
  lemma DistinctPrimesDivide(p: int, q: int, x: int)
    requires Prime(p) && Prime(q) && p != q && Divides(p, x) && Divides(q, x)
    ensures Divides(p * q, x)
  {
    var k :| x == p * k;
    Euclid(q, p, k);
    if p < q {
      NotDividesSmaller(q, p);
    }
    var j :| k == q * j;
    MulAssociates(p, q, j);
  }

  /** e and d are inverse modulo p - 1 and modulo q - 1 (section 3.2 of RFC 8017
      asks for this modulo their least common multiple, which is the same). */
  ghost predicate InverseExponents(p: int, q: int, e: nat, d: nat) {
    e * d >= 1 && Divides(p - 1, e * d - 1) && Divides(q - 1, e * d - 1)
  }

  lemma OtherFactor(d: int, k: int, p: int)
    requires 2 <= d < p == d * k
    ensures k >= 2
  {
    if k <= 1 {
      MulMonotone(d, k, 1);
    }
  }

  /** The primes are the numbers from two on that are no product of two such numbers. */
  lemma PrimesAre(p: int)
    ensures Prime(p) <==> p >= 2 && forall a, b :: a >= 2 && b >= 2 ==> a * b != p
  {
    if Prime(p) {
      forall a, b | a >= 2 && b >= 2 ensures a * b != p {
        if a * b == p {
          MulMonotone(a, 2, b);
          assert Divides(a, p);
        }
      }
    }
    if p >= 2 && forall a, b :: a >= 2 && b >= 2 ==> a * b != p {
      forall d | 2 <= d < p ensures !Divides(d, p) {
        if k :| p == d * k {
          OtherFactor(d, k, p);
        }
      }
    }
  }

  /** A key of the smallest kind: 15 = 3 * 5 with both exponents 3. */
  lemma SmallKey()
    ensures Prime(3) && Prime(5) && InverseExponents(3, 5, 3, 3)
  {
    assert forall k: int :: 2 * k != 3;
    assert forall k: int :: 2 * k != 5 && 3 * k != 5 && 4 * k != 5;
    assert 8 == 2 * 4 && 8 == 4 * 2;
  }

  function PowMod(b: nat, e: nat, n: nat): (r: nat)
    requires n > 0
    ensures r < n
  {
    Pow(b, e) % n
  }

  /** The residue of a power. */
  ghost predicate IsPower(y: nat, x: nat, e: nat, n: nat) {
    y < n && Congruent(y, Pow(x, e), n)
  }

  lemma PowModIsPower(b: nat, e: nat, n: nat)
    requires n > 0
    ensures forall y: nat :: y == PowMod(b, e, n) <==> IsPower(y, b, e, n)
  {
    CongruentMod(Pow(b, e), n);
    forall y: nat | IsPower(y, b, e, n) ensures y == PowMod(b, e, n) {
      var k :| y - Pow(b, e) == n * k;
      assert Pow(b, e) - y == n * -k;
      ResidueUnique(Pow(b, e), y, n);
    }
  }

  lemma ExponentIdentity(p: int, m: nat, x: nat)
    requires Prime(p) && m >= 1 && Divides(p - 1, m - 1)
    ensures Congruent(Pow(x, m), x, p)
  {
    var k :| m - 1 == (p - 1) * k;
    if k < 0 {
      MulMonotone(p - 1, k, -1);
    }
    FermatMultiple(p, x, k);
    assert m == 1 + k * (p - 1);
  }

  /** Raising to e and then to d, both modulo p * q, is the identity on residues. */
  lemma RsaInverse(p: int, q: int, e: nat, d: nat, x: nat)
    requires Prime(p) && Prime(q) && p != q && InverseExponents(p, q, e, d)
    requires x < p * q
    ensures PowMod(PowMod(x, e, p * q), d, p * q) == x
  {
    var n := p * q;
    ExponentIdentity(p, e * d, x);
    ExponentIdentity(q, e * d, x);
    DistinctPrimesDivide(p, q, Pow(x, e * d) - x);
    CongruentMod(Pow(x, e), n);
    CongruentPow(PowMod(x, e, n), Pow(x, e), d, n);
    PowMul(x, e, d);
    CongruentTransitive(Pow(PowMod(x, e, n), d), Pow(x, e * d), x, n);
    ResidueUnique(Pow(PowMod(x, e, n), d), x, n);
  }

  lemma InverseExponentsSymmetric(p: int, q: int, e: nat, d: nat)
    requires InverseExponents(p, q, e, d)
    ensures InverseExponents(p, q, d, e)
  {
    assert e * d == d * e;
  }
}
