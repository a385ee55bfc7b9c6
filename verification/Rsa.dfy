/** The RSA primitives of mega-rsa-key.c: encryption, and decryption by the Chinese remainder
    theorem (sections 5.1.1 and 5.1.2 of RFC 8017). */
module Rsa {
  import opened NumberTheory

  function ModExp(b: nat, e: nat, m: nat): (r: nat)
    requires m > 0
    ensures r < m
  {
    Pow(b, e) % m
  }

  /** `rsa_encrypt` */
  function RsaEncrypt(s: nat, e: nat, n: nat): nat
    requires n > 0
  {
    ModExp(s, e, n)
  }

  /** Garner's recombination as `rsa_decrypt` does it: the branch for xq <= xp subtracts from q
      even when the remainder is 0. */
  function Recombine(xp: nat, xq: nat, p: nat, q: nat, u: nat): (x: nat)
    requires p > 0 && q > 0
  {
    var t := if xq <= xp then q - ((xp - xq) * u) % q else ((xq - xp) * u) % q;
    assert 0 <= t * p;
    t * p + xp
  }

  /** `rsa_decrypt` */
  function RsaDecrypt(c: nat, d: nat, p: nat, q: nat, u: nat): nat
    requires p > 1 && q > 1
  {
    var xp := ModExp(c % p, d % (p - 1), p);
    var xq := ModExp(c % q, d % (q - 1), q);
    Recombine(xp, xq, p, q, u)
  }

  // ---- What the recombination returns ----

  /** The multiplier of p, and why it is between 1 and q. */
  lemma Multiplier(xp: nat, xq: nat, p: nat, q: nat, u: nat) returns (t: nat)
    requires p > 0 && xq < q && Congruent(u * p, 1, q)
    ensures 1 <= t <= q
    ensures Recombine(xp, xq, p, q, u) == t * p + xp
    ensures Congruent(t * p, xq - xp, q)
  {
    if xq <= xp {
      var v := (xp - xq) * u;
      t := q - v % q;
      CongruentMod(v, q);
      CongruentMul(v % q, v, p, p, q);
      Cancel(xp - xq, u, p, q);
      assert Congruent((v % q) * p, xp - xq, q);
      assert t * p == q * p - (v % q) * p;
      CongruentByMultiple(q * p, 0, q, p);
      CongruentAdd(q * p, 0, (v % q) * p, xp - xq, q);
    } else {
      var v := (xq - xp) * u;
      t := v % q;
      CongruentMod(v, q);
      CongruentMul(v % q, v, p, p, q);
      Cancel(xq - xp, u, p, q);
      if t == 0 {
        CongruentSmall(0, xq - xp, q);
      }
    }
  }

  lemma Cancel(x: int, u: nat, p: nat, q: nat)
    requires q > 0 && Congruent(u * p, 1, q)
    ensures Congruent((x * u) * p, x, q)
  {
    CongruentMul(x, x, u * p, 1, q);
    assert x * (u * p) == (x * u) * p;
  }

  lemma RecombineResidues(xp: nat, xq: nat, p: nat, q: nat, u: nat)
    requires p > 0 && xq < q && Congruent(u * p, 1, q)
    ensures var x := Recombine(xp, xq, p, q, u);
      Congruent(x, xp, p) && Congruent(x, xq, q) && p + xp <= x <= p * q + xp
  {
    var x := Recombine(xp, xq, p, q, u);
    var t := Multiplier(xp, xq, p, q, u);
    CongruentByMultiple(x, xp, p, t);
    CongruentAdd(t * p, xq - xp, xp, xp, q);
    MulOrder(1, t, p);
    MulOrder(t, q, p);
    assert q * p == p * q;
  }

  /** The recombination returns the residue modulo p * q when that residue is at least p, and one
      modulus more when it is below p. */
  lemma RecombineExact(m: nat, xp: nat, xq: nat, p: nat, q: nat, u: nat, n: nat)
    requires Prime(p) && Prime(q) && p != q && Congruent(u * p, 1, q)
    requires n == p * q && xp < p && xq < q && m < n
    requires Congruent(m, xp, p) && Congruent(m, xq, q)
    ensures Recombine(xp, xq, p, q, u) == if m >= p then m else m + n
  {
    var x := Recombine(xp, xq, p, q, u);
    RecombineResidues(xp, xq, p, q, u);
    CongruentProduct(x, m, p, q, n);
    MulOrder(2, q, p);
    NearestCongruent(x, m, n, p);
    if m < p {
      CongruentSmall(m, xp, p);
    }
  }

  lemma NearestCongruent(x: nat, m: nat, n: nat, p: nat)
    requires m < n && x < n + p && 2 * p <= n && Congruent(x, m, n)
    ensures x == m || x == m + n
  {
    var k := MultipleOfCongruent(x, m, n);
    if k < 0 {
      MulOrder(k, -1, n);
    } else if k > 1 {
      MulOrder(2, k, n);
    }
  }

  // ---- Decryption is modular exponentiation ----

  /** When taking the exponent modulo p - 1 is harmless for the residue modulo p. */
  predicate ExponentReduces(c: nat, d: nat, p: nat)
    requires p > 1
  {
    d == 0 || d % (p - 1) != 0 || c % p != 0
  }

  lemma {:induction false} ResidueOfPower(c: nat, d: nat, p: nat)
    requires Prime(p)
    ensures Congruent(ModExp(c % p, d % (p - 1), p), Pow(c, d), p) <==> ExponentReduces(c, d, p)
  {
    var r := d % (p - 1);
    CongruentMod(c, p);
    PowCongruent(c % p, c, r, p);
    CongruentMod(Pow(c % p, r), p);
    ExponentReduction(c, d, p);
  }

  /** The recombination is congruent to y modulo p * q exactly when its residues are. */
  lemma RecombineCongruent(xp: nat, xq: nat, p: nat, q: nat, u: nat, n: nat, y: nat)
    requires Prime(p) && Prime(q) && p != q && n == p * q && Congruent(u * p, 1, q) && xq < q
    ensures n > 0
    ensures Congruent(Recombine(xp, xq, p, q, u), y, n) <==> Congruent(xp, y, p) && Congruent(xq, y, q)
  {
    var x := Recombine(xp, xq, p, q, u);
    RecombineResidues(xp, xq, p, q, u);
    CongruentProduct(x, y, p, q, n);
  }

  lemma CongruentProduct(x: int, y: int, p: nat, q: nat, n: nat)
    requires Prime(p) && Prime(q) && p != q && n == p * q
    ensures n > 0
    ensures Congruent(x, y, n) <==> Congruent(x, y, p) && Congruent(x, y, q)
  {
    MulOrder(1, p, q);
    if Congruent(x, y, n) {
      CongruentFactor(x, y, p, q);
    }
    if Congruent(x, y, p) && Congruent(x, y, q) {
      ChineseRemainder(x, y, p, q);
    }
  }

  /** CRT decryption agrees with exponentiation modulo p * q exactly when both exponent reductions
      are harmless. */
  lemma {:induction false} RsaDecryptCongruent(c: nat, d: nat, p: nat, q: nat, u: nat, n: nat)
    requires Prime(p) && Prime(q) && p != q && n == p * q && Congruent(u * p, 1, q)
    ensures n > 0
    ensures Congruent(RsaDecrypt(c, d, p, q, u), Pow(c, d), n)
      <==> (ExponentReduces(c, d, p) && ExponentReduces(c, d, q))
  {
    CongruentFromResidues(ModExp(c % p, d % (p - 1), p), ModExp(c % q, d % (q - 1), q), Pow(c, d),
      ExponentReduces(c, d, p), ExponentReduces(c, d, q), p, q, u, n) by {
      ResidueOfPower(c, d, p);
      ResidueOfPower(c, d, q);
    }
  }

  lemma CongruentFromResidues(xp: nat, xq: nat, y: nat, reducesP: bool, reducesQ: bool, p: nat, q: nat, u: nat, n: nat)
    requires Prime(p) && Prime(q) && p != q && n == p * q && Congruent(u * p, 1, q) && xq < q
    requires Congruent(xp, y, p) <==> reducesP
    requires Congruent(xq, y, q) <==> reducesQ
    ensures n > 0
    ensures Congruent(Recombine(xp, xq, p, q, u), y, n) <==> (reducesP && reducesQ)
  {
    RecombineCongruent(xp, xq, p, q, u, n, y);
  }

  /** An input for which the condition fails: 3^2 mod 15 is 9, and decryption returns 4. */
  lemma RsaDecryptDiffers()
    ensures Congruent(2 * 3, 1, 5)
    ensures !ExponentReduces(3, 2, 3)
    ensures RsaDecrypt(3, 2, 3, 5, 2) == 4 && ModExp(3, 2, 15) == 9
  {
    assert Pow(0, 0) == 1 && Pow(3, 1) == 3 && Pow(3, 2) == 9;
    assert ModExp(3 % 3, 2 % 2, 3) == 1;
    assert ModExp(3 % 5, 2 % 4, 5) == 4;
    assert ((4 - 1) * 2) % 5 == 1;
  }

  /** The exact result: with M = c^d mod pq, decryption returns M, except that it returns M + pq
      when M is below p. */
  lemma RsaDecryptExact(c: nat, d: nat, p: nat, q: nat, u: nat, n: nat)
    requires Prime(p) && Prime(q) && p != q && n == p * q && Congruent(u * p, 1, q)
    requires ExponentReduces(c, d, p) && ExponentReduces(c, d, q)
    ensures n > 0
    ensures var m := ModExp(c, d, n);
      RsaDecrypt(c, d, p, q, u) == if m >= p then m else m + n
  {
    MulOrder(1, p, q);
    var xp, xq := ModExp(c % p, d % (p - 1), p), ModExp(c % q, d % (q - 1), q);
    ResidueOfPower(c, d, p);
    ResidueOfPower(c, d, q);
    ResidueOfModExp(Pow(c, d), xp, xq, p, q, n);
    RecombineExact(ModExp(c, d, n), xp, xq, p, q, u, n);
  }

  lemma ResidueOfModExp(y: nat, xp: nat, xq: nat, p: nat, q: nat, n: nat)
    requires p > 0 && q > 0 && n == p * q && n > 0 && Congruent(xp, y, p) && Congruent(xq, y, q)
    ensures Congruent(y % n, xp, p) && Congruent(y % n, xq, q)
  {
    CongruentMod(y, n);
    CongruentFactor(y % n, y, p, q);
  }

  // ---- Round trip ----

  /** A key pair: distinct odd primes, u inverse to p modulo q, and exponents inverse to one
      another modulo (p - 1)(q - 1). */
  ghost predicate KeyPair(p: nat, q: nat, n: nat, d: nat, u: nat, e: nat)
  {
    && Prime(p) && Prime(q) && p != q && p > 2 && q > 2 && n == p * q
    && Congruent(u * p, 1, q)
    && Congruent(e * d, 1, p - 1) && Congruent(e * d, 1, q - 1)
  }

  /** The usual condition on the exponents, inverse modulo (p - 1)(q - 1), is enough. */
  lemma KeyPairFromTotient(p: nat, q: nat, n: nat, d: nat, u: nat, e: nat, phi: nat)
    requires Prime(p) && Prime(q) && p != q && p > 2 && q > 2 && n == p * q && Congruent(u * p, 1, q)
    requires phi == (p - 1) * (q - 1) && phi > 0 && Congruent(e * d, 1, phi)
    ensures KeyPair(p, q, n, d, u, e)
  {
    CongruentFactor(e * d, 1, p - 1, q - 1);
  }

  lemma {:induction false} PowerIdentity(m: nat, e: nat, d: nat, p: nat)
    requires Prime(p) && p > 2 && Congruent(e * d, 1, p - 1)
    ensures Congruent(Pow(Pow(m, e), d), m, p)
    ensures d % (p - 1) != 0 && e * d > 0
  {
    PowMul(m, e, d);
    var n := e * d;
    DivModUnique(1, p - 1, 0, 1);
    DivModUnique(0, p - 1, 0, 0);
    if d % (p - 1) == 0 {
      CongruentMul(e, e, d, 0, p - 1);
    }
    assert n % (p - 1) == 1;
    ExponentReduction(m, n, p);
    assert Pow(m, 1) == m * Pow(m, 0) == m;
  }

  /** Decrypting an encrypted message m < pq gives m back, or m + pq when m < p. */
  lemma RsaRoundTrip(m: nat, p: nat, q: nat, n: nat, d: nat, u: nat, e: nat)
    requires KeyPair(p, q, n, d, u, e) && m < n
    ensures RsaDecrypt(RsaEncrypt(m, e, n), d, p, q, u) == if m >= p then m else m + n
  {
    var c := RsaEncrypt(m, e, n);
    PowerIdentity(m, e, d, p);
    PowerIdentity(m, e, d, q);
    RsaDecryptExact(c, d, p, q, u, n);
    CongruentProduct(Pow(Pow(m, e), d), m, p, q, n);
    PowerOfRemainder(Pow(m, e), d, m, n);
  }

  lemma {:induction false} PowerOfRemainder(y: nat, d: nat, m: nat, n: nat)
    requires m < n && Congruent(Pow(y, d), m, n)
    ensures ModExp(y % n, d, n) == m
  {
    CongruentMod(y, n);
    PowCongruent(y % n, y, d, n);
    CongruentMod(Pow(y % n, d), n);
    CongruentSmall(ModExp(y % n, d, n), m, n);
  }

  /** The branch that yields t = q: 0 mod 15 is 0, and decryption returns 15. */
  lemma RsaDecryptAddsModulus()
    ensures Congruent(2 * 3, 1, 5)
    ensures RsaDecrypt(0, 1, 3, 5, 2) == 15 && ModExp(0, 1, 15) == 0
  {
    assert Pow(0, 1) == 0;
    assert ModExp(0, 1, 3) == 0 && ModExp(0, 1, 5) == 0;
  }
}
