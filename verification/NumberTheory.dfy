/** Modular arithmetic behind the RSA code: congruences, Euclid's lemma,
    Fermat's little theorem and uniqueness in the Chinese remainder theorem. */
module NumberTheory {

  function Pow(b: nat, e: nat): nat
  {
    if e == 0 then 1 else b * Pow(b, e - 1)
  }

  /** `a` and `b` leave the same remainder modulo `m`. */
  ghost predicate Congruent(a: int, b: int, m: nat)
    requires m > 0
  {
    a % m == b % m
  }

  ghost predicate Prime(p: nat)
  {
    p > 1 && forall a, b :: 0 < a < p && 0 < b < p ==> !IsProduct(a, b, p)
  }

  predicate IsProduct(a: int, b: int, c: int)
  {
    a * b == c
  }

  // ---- Division with remainder ----

  lemma DivMod(x: int, m: nat) returns (quotient: int, r: nat)
    requires m > 0
    ensures quotient == x / m && r == x % m
    ensures r < m && x == quotient * m + r
  {
    quotient, r := x / m, x % m;
  }

  lemma MulOrder(a: int, b: int, c: int)
    requires a <= b && c >= 0
    ensures a * c <= b * c
  {
    assert (b - a) * c >= 0;
  }

  lemma SmallMultiple(k: int, m: int)
    requires -m < k * m < m
    ensures k == 0
  {
    if k > 0 {
      MulOrder(1, k, m);
    } else if k < 0 {
      MulOrder(k, -1, m);
    }
  }

  lemma DivModUnique(x: int, m: nat, quotient: int, r: nat)
    requires m > 0 && r < m && x == quotient * m + r
    ensures x % m == r && x / m == quotient
  {
    var q', r' := DivMod(x, m);
    assert (q' - quotient) * m == r - r';
    SmallMultiple(q' - quotient, m);
  }

  lemma CongruentByMultiple(a: int, b: int, m: nat, k: int)
    requires m > 0 && a - b == k * m
    ensures Congruent(a, b, m)
  {
    var q, r := b / m, b % m;
    assert b == q * m + r;
    assert a == (q + k) * m + r by {
      assert (q + k) * m == q * m + k * m;
    }
    DivModUnique(a, m, q + k, r);
  }

  lemma MultipleOfCongruent(a: int, b: int, m: nat) returns (k: int)
    requires m > 0 && Congruent(a, b, m)
    ensures a - b == k * m
  {
    k := a / m - b / m;
    assert k * m == (a / m) * m - (b / m) * m;
  }

  lemma CongruentMul(a: int, b: int, c: int, d: int, m: nat)
    requires m > 0 && Congruent(a, b, m) && Congruent(c, d, m)
    ensures Congruent(a * c, b * d, m)
  {
    var i := MultipleOfCongruent(a, b, m);
    var j := MultipleOfCongruent(c, d, m);
    assert a * c - b * d == (i * c + b * j) * m by {
      assert a * c - b * d == (a - b) * c + b * (c - d);
      assert (i * m) * c == (i * c) * m;
      assert b * (j * m) == (b * j) * m;
    }
    CongruentByMultiple(a * c, b * d, m, i * c + b * j);
  }

  lemma CongruentAdd(a: int, b: int, c: int, d: int, m: nat)
    requires m > 0 && Congruent(a, b, m) && Congruent(c, d, m)
    ensures Congruent(a + c, b + d, m)
    ensures Congruent(a - c, b - d, m)
  {
    var i := MultipleOfCongruent(a, b, m);
    var j := MultipleOfCongruent(c, d, m);
    assert (i + j) * m == i * m + j * m;
    CongruentByMultiple(a + c, b + d, m, i + j);
    assert (i - j) * m == i * m - j * m;
    CongruentByMultiple(a - c, b - d, m, i - j);
  }

  lemma CongruentMod(a: int, m: nat)
    requires m > 0
    ensures Congruent(a % m, a, m)
  {
    DivModUnique(a % m, m, 0, a % m);
  }

  lemma CongruentSmall(a: nat, b: nat, m: nat)
    requires m > 0 && a < m && b < m && Congruent(a, b, m)
    ensures a == b
  {
    DivModUnique(a, m, 0, a);
    DivModUnique(b, m, 0, b);
  }

  // ---- Powers ----

  lemma {:induction false} PowAdd(b: nat, i: nat, j: nat)
    ensures Pow(b, i + j) == Pow(b, i) * Pow(b, j)
  {
    if i > 0 {
      PowAdd(b, i - 1, j);
      MulAssociates(b, Pow(b, i - 1), Pow(b, j));
    }
  }

  lemma MulAssociates(a: int, b: int, c: int)
    ensures a * (b * c) == (a * b) * c
  {
  }

  lemma {:induction false} PowMul(b: nat, i: nat, j: nat)
    ensures Pow(Pow(b, i), j) == Pow(b, i * j)
  {
    if j > 0 {
      PowMul(b, i, j - 1);
      PowAdd(b, i, i * (j - 1));
      assert i + i * (j - 1) == i * j;
    } else {
      assert i * j == 0;
    }
  }

  lemma {:induction false} PowOne(e: nat)
    ensures Pow(1, e) == 1
  {
    if e > 0 {
      PowOne(e - 1);
    }
  }

  lemma {:induction false} PowPositive(b: nat, e: nat)
    requires b > 0
    ensures Pow(b, e) > 0
  {
    if e > 0 {
      PowPositive(b, e - 1);
    }
  }

  lemma {:induction false} PowMonotone(b: nat, i: nat, j: nat)
    requires b > 0 && i <= j
    ensures Pow(b, i) <= Pow(b, j)
    decreases j
  {
    if i < j {
      PowMonotone(b, i, j - 1);
      PowPositive(b, j - 1);
      MulOrder(1, b, Pow(b, j - 1));
    }
  }

  lemma {:induction false} PowCongruent(a: nat, b: nat, e: nat, m: nat)
    requires m > 0 && Congruent(a, b, m)
    ensures Congruent(Pow(a, e), Pow(b, e), m)
  {
    if e > 0 {
      PowCongruent(a, b, e - 1, m);
      CongruentMul(a, b, Pow(a, e - 1), Pow(b, e - 1), m);
    }
  }

  // ---- Euclid's lemma ----

  /** Euclid's algorithm on the factor `a`: when p divides a * b with 0 < a < p, it divides b. */
  lemma {:induction false} EuclidStep(p: nat, a: nat, b: int, j: int) returns (k: int)
    requires Prime(p) && 0 < a < p && a * b == j * p
    ensures b == k * p
    decreases a
  {
    if a == 1 {
      k := j;
    } else {
      var q, r := DivMod(p, a);
      if r == 0 {
        ProperFactor(p, q, a);
        assert IsProduct(a, q, p);
      }
      assert r * b == (b - q * j) * p by {
        calc {
          r * b;
          (p - q * a) * b;
          p * b - q * (a * b);
          p * b - q * (j * p);
          (b - q * j) * p;
        }
      }
      k := EuclidStep(p, r, b, b - q * j);
    }
  }

  lemma ProperFactor(p: nat, q: int, a: nat)
    requires q * a == p && 1 < a < p
    ensures 0 < q < p
  {
    if q <= 0 {
      MulOrder(q, 0, a);
    } else if q >= p {
      MulOrder(p, q, a);
      MulOrder(2, a, p);
    }
  }

  /** Euclid's lemma: a prime dividing a product divides a factor. */
  lemma PrimeDividesProduct(p: nat, a: nat, b: int, j: int) returns (k: int)
    requires Prime(p) && a * b == j * p && a % p != 0
    ensures b == k * p
  {
    var q, r := DivMod(a, p);
    assert r * b == (j - q * b) * p by {
      calc {
        r * b;
        (a - q * p) * b;
        a * b - q * p * b;
        (j - q * b) * p;
      }
    }
    k := EuclidStep(p, r, b, j - q * b);
  }

  // ---- Fermat's little theorem ----

  /** Binomial coefficients by Pascal's rule. */
  lemma DivisorPair(p: nat, d: nat)
    requires 1 < d < p && p % d == 0
    ensures d * (p / d) == p && 0 < p / d < p
  {
    var q, r := DivMod(p, d);
    if q >= p {
      MulOrder(p, q, d);
      MulOrder(2, d, p);
    } else if q <= 0 {
      MulOrder(q, 0, d);
    }
  }

  lemma FactorDivides(a: nat, b: nat, p: nat)
    requires a * b == p && 0 < a < p && 0 < b < p
    ensures 1 < a && p % a == 0
  {
    DivModUnique(p, a, b, 0);
  }

  /** A number is prime when nothing but one and itself divides it. */
  lemma PrimeByDivisors(p: nat)
    ensures Prime(p) <==> p > 1 && forall d | 1 < d < p :: p % d != 0
  {
    if Prime(p) {
      forall d | 1 < d < p ensures p % d != 0 {
        if p % d == 0 {
          DivisorPair(p, d);
          assert IsProduct(d, p / d, p);
        }
      }
    } else if p > 1 {
      var a, b :| 0 < a < p && 0 < b < p && IsProduct(a, b, p);
      FactorDivides(a, b, p);
    }
  }

  function Choose(n: nat, k: nat): nat
  {
    if k == 0 then 1 else if n == 0 then 0 else Choose(n - 1, k - 1) + Choose(n - 1, k)
  }

  lemma {:induction false} ChooseOutside(n: nat, k: nat)
    requires k > n
    ensures Choose(n, k) == 0
  {
    if n > 0 {
      ChooseOutside(n - 1, k - 1);
      ChooseOutside(n - 1, k);
    }
  }

  lemma {:induction false} ChooseAll(n: nat)
    ensures Choose(n, n) == 1
  {
    if n > 0 {
      ChooseAll(n - 1);
      ChooseOutside(n - 1, n);
    }
  }

  /** k * C(n, k) == n * C(n - 1, k - 1). */
  lemma {:induction false} ChooseAbsorb(n: nat, k: nat)
    requires 0 < k && 0 < n
    ensures k * Choose(n, k) == n * Choose(n - 1, k - 1)
  {
    if n == 1 {
      if k > 1 {
        ChooseOutside(1, k);
        ChooseOutside(0, k - 1);
      }
    } else {
      ChooseAbsorb(n - 1, k);
      if k > 1 {
        ChooseAbsorb(n - 1, k - 1);
        AbsorbStep(n, k, Choose(n - 2, k - 2), Choose(n - 2, k - 1), Choose(n - 1, k - 1), Choose(n - 1, k));
      }
    }
  }

  lemma AbsorbStep(n: int, k: int, x: int, y: int, left: int, right: int)
    requires left == x + y
    requires (k - 1) * left == (n - 1) * x && k * right == (n - 1) * y
    ensures k * (left + right) == n * left
  {
    calc {
      k * (left + right);
      (k - 1) * left + left + k * right;
      (n - 1) * x + left + (n - 1) * y;
      (n - 1) * (x + y) + left;
      n * left;
    }
  }

  /** The terms of (a + 1)^n up to the k-th power of `a`. */
  function Expansion(a: nat, n: nat, k: nat): nat
  {
    Choose(n, k) * Pow(a, k) + if k == 0 then 0 else Expansion(a, n, k - 1)
  }

  lemma {:induction false} ExpansionPascal(a: nat, n: nat, k: nat)
    requires 0 < k && 0 < n
    ensures Expansion(a, n, k) == Expansion(a, n - 1, k) + a * Expansion(a, n - 1, k - 1)
  {
    var x, y := Choose(n - 1, k - 1), Choose(n - 1, k);
    assert (x + y) * Pow(a, k) == x * Pow(a, k) + y * Pow(a, k);
    assert x * Pow(a, k) == a * (x * Pow(a, k - 1)) by {
      assert Pow(a, k) == a * Pow(a, k - 1);
    }
    if k > 1 {
      ExpansionPascal(a, n, k - 1);
      assert a * (x * Pow(a, k - 1) + Expansion(a, n - 1, k - 2))
          == a * (x * Pow(a, k - 1)) + a * Expansion(a, n - 1, k - 2);
    }
  }

  lemma {:induction false} BinomialTheorem(a: nat, n: nat)
    ensures Expansion(a, n, n) == Pow(a + 1, n)
  {
    if n > 0 {
      BinomialTheorem(a, n - 1);
      ExpansionPascal(a, n, n);
      ChooseOutside(n - 1, n);
      var s := Expansion(a, n - 1, n - 1);
      assert Expansion(a, n - 1, n) == s;
      assert s + a * s == (a + 1) * s;
    }
  }

  lemma {:induction false} ExpansionModPrime(a: nat, p: nat, k: nat) returns (m: int)
    requires Prime(p) && k < p
    ensures Expansion(a, p, k) == m * p + 1
  {
    if k == 0 {
      m := 0;
    } else {
      var m' := ExpansionModPrime(a, p, k - 1);
      ChooseAbsorb(p, k);
      var c := EuclidStep(p, k, Choose(p, k), Choose(p - 1, k - 1));
      m := c * Pow(a, k) + m';
      AddMultiples(c, Pow(a, k), m', p);
      assert Expansion(a, p, k) == Choose(p, k) * Pow(a, k) + Expansion(a, p, k - 1);
    }
  }

  lemma AddMultiples(c: int, x: int, m: int, p: int)
    ensures (c * p) * x + (m * p + 1) == (c * x + m) * p + 1
  {
    assert (c * p) * x == (c * x) * p;
  }

  /** a^p and a agree modulo a prime p. */
  lemma {:induction false} FermatPower(a: nat, p: nat) returns (m: int)
    requires Prime(p)
    ensures Pow(a, p) - a == m * p
  {
    if a == 0 {
      m := 0;
    } else {
      var m1 := FermatPower(a - 1, p);
      var m2 := ExpansionModPrime(a - 1, p, p - 1);
      ExpansionSplit(a - 1, p);
      m := m1 + m2;
      SumOfMultiples(m1, m2, p);
    }
  }

  lemma SumOfMultiples(i: int, j: int, p: int)
    ensures (i + j) * p == i * p + j * p
  {
  }

  lemma ExpansionSplit(a: nat, p: nat)
    requires p > 0
    ensures Pow(a + 1, p) == Pow(a, p) + Expansion(a, p, p - 1)
  {
    BinomialTheorem(a, p);
    ChooseAll(p);
  }

  /** Fermat's little theorem. */
  lemma FermatLittle(a: nat, p: nat)
    requires Prime(p) && a % p != 0
    ensures Congruent(Pow(a, p - 1), 1, p)
  {
    var m := FermatPower(a, p);
    CancelFactor(a, Pow(a, p - 1), p, m);
  }

  lemma CancelFactor(a: nat, x: int, p: nat, m: int)
    requires Prime(p) && a % p != 0 && a * x - a == m * p
    ensures Congruent(x, 1, p)
  {
    assert a * (x - 1) == m * p;
    var k := PrimeDividesProduct(p, a, x - 1, m);
    CongruentByMultiple(x, 1, p, k);
  }

  /** Reducing the exponent modulo p - 1 keeps a power modulo p, unless the base vanishes
      modulo p while the reduced exponent does and the given one does not. */
  lemma {:induction false} ExponentReduction(a: nat, e: nat, p: nat)
    requires Prime(p)
    ensures Congruent(Pow(a, e), Pow(a, e % (p - 1)), p)
        <==> (e == 0 || e % (p - 1) != 0 || a % p != 0)
  {
    if a % p != 0 {
      var k, r := DivMod(e, p - 1);
      ExponentReductionUnit(a, k, r, p, e - r);
    } else {
      ExponentReductionVanishing(a, e, e % (p - 1), p);
      if e == 0 {
        DivModUnique(0, p - 1, 0, 0);
      }
    }
  }

  lemma {:induction false} ExponentReductionVanishing(a: nat, e: nat, r: nat, p: nat)
    requires p > 1 && a % p == 0
    ensures Congruent(Pow(a, e), Pow(a, r), p) <==> (e == 0 <==> r == 0)
  {
    PowVanishes(a, e, p);
    PowVanishes(a, r, p);
  }

  lemma ExponentReductionUnit(a: nat, k: nat, r: nat, p: nat, n: nat)
    requires Prime(p) && a % p != 0 && n == (p - 1) * k
    ensures Congruent(Pow(a, n + r), Pow(a, r), p)
  {
    PowAdd(a, n, r);
    assert Congruent(Pow(a, n), 1, p) by {
      FermatLittle(a, p);
      PowMul(a, p - 1, k);
      PowOfUnit(Pow(a, p - 1), k, p);
    }
    MulUnit(Pow(a, n), Pow(a, r), p);
  }

  lemma {:induction false} PowOfUnit(x: nat, k: nat, p: nat)
    requires p > 0 && Congruent(x, 1, p)
    ensures Congruent(Pow(x, k), 1, p)
  {
    PowCongruent(x, 1, k, p);
    PowOne(k);
  }

  lemma MulUnit(x: int, y: int, p: nat)
    requires p > 0 && Congruent(x, 1, p)
    ensures Congruent(x * y, y, p)
  {
    CongruentMul(x, 1, y, y, p);
  }

  /** Powers of a multiple of p vanish modulo p, all but the zeroth. */
  lemma {:induction false} PowVanishes(a: nat, e: nat, p: nat)
    requires p > 1 && a % p == 0
    ensures Pow(a, e) % p == if e == 0 then 1 else 0
  {
    if e > 0 {
      CongruentMod(a, p);
      CongruentMul(a, 0, Pow(a, e - 1), Pow(a, e - 1), p);
    }
  }

  /** Two numbers congruent modulo distinct primes p and q are congruent modulo p * q. */
  lemma ChineseRemainder(a: int, b: int, p: nat, q: nat)
    requires Prime(p) && Prime(q) && p != q && p * q > 0
    requires Congruent(a, b, p) && Congruent(a, b, q)
    ensures Congruent(a, b, p * q)
  {
    var i := MultipleOfCongruent(a, b, p);
    var j := MultipleOfCongruent(a, b, q);
    PrimeNotMultiple(p, q);
    assert p * i == j * q;
    var k := PrimeDividesProduct(q, p, i, j);
    assert (k * q) * p == k * (p * q);
    CongruentByMultiple(a, b, p * q, k);
  }

  lemma PrimeNotMultiple(p: nat, q: nat)
    requires Prime(p) && Prime(q) && p != q
    ensures p % q != 0
  {
    var c, r := DivMod(p, q);
    if r == 0 {
      if c <= 0 {
        MulOrder(c, 0, q);
      } else if c > 1 {
        MulOrder(2, c, q);
        ProperFactor(p, c, q);
        assert IsProduct(c, q, p);
      }
    }
  }

  /** Congruence modulo a product gives congruence modulo a factor. */
  lemma CongruentFactor(a: int, b: int, p: nat, q: nat)
    requires p > 0 && q > 0 && p * q > 0 && Congruent(a, b, p * q)
    ensures Congruent(a, b, p) && Congruent(a, b, q)
  {
    var k := MultipleOfCongruent(a, b, p * q);
    assert k * (p * q) == (k * q) * p == (k * p) * q;
    CongruentByMultiple(a, b, p, k * q);
    CongruentByMultiple(a, b, q, k * p);
  }
}
