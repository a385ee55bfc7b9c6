/** Bytes, exclusive or, and numbers as big-endian byte strings. */
module Bytes {
  import opened NumberTheory

  type byte = x: int | 0 <= x < 256

  type bytes = seq<byte>

  function Zeros(n: nat): (r: bytes)
    ensures |r| == n && forall i | 0 <= i < n :: r[i] == 0
  {
    seq(n, _ => 0)
  }

  /** Bytes drawn from a source of randomness. */
  function RandomBytes(random: nat -> byte, n: nat): (r: bytes)
    ensures |r| == n
  {
    seq(n, i requires 0 <= i < n => random(i))
  }

  // ---- Exclusive or ----

  /** Exclusive or of numbers, bit by bit. */
  function XorNat(a: nat, b: nat): nat
  {
    if a == 0 && b == 0 then 0 else 2 * XorNat(a / 2, b / 2) + (a + b) % 2
  }

  lemma {:induction false} XorNatBound(a: nat, b: nat, k: nat)
    requires a < Pow(2, k) && b < Pow(2, k)
    ensures XorNat(a, b) < Pow(2, k)
  {
    if k > 0 {
      XorNatBound(a / 2, b / 2, k - 1);
    }
  }

  lemma {:induction false} XorNatSelf(a: nat)
    ensures XorNat(a, a) == 0
  {
    if a > 0 {
      XorNatSelf(a / 2);
    }
  }

  lemma {:induction false} XorNatZero(a: nat)
    ensures XorNat(a, 0) == a
  {
    if a > 0 {
      XorNatZero(a / 2);
    }
  }

  lemma {:induction false} XorNatCommutes(a: nat, b: nat)
    ensures XorNat(a, b) == XorNat(b, a)
  {
    if a != 0 || b != 0 {
      XorNatCommutes(a / 2, b / 2);
    }
  }

  lemma {:induction false} XorNatAssociates(a: nat, b: nat, c: nat)
    ensures XorNat(XorNat(a, b), c) == XorNat(a, XorNat(b, c))
    decreases a + b + c
  {
    if a + b + c > 0 {
      XorNatAssociates(a / 2, b / 2, c / 2);
      var ab := XorNatStep(a, b);
      var bc := XorNatStep(b, c);
      var left := XorNatStep(ab, c);
      var right := XorNatStep(a, bc);
      assert (ab + c) % 2 == (a + bc) % 2 by {
        ParityOfSum(a, b, c, ab, bc);
      }
    }
  }

  lemma ParityOfSum(a: nat, b: nat, c: nat, ab: nat, bc: nat)
    requires ab % 2 == (a + b) % 2 && bc % 2 == (b + c) % 2
    ensures (ab + c) % 2 == (a + bc) % 2
  {
  }

  lemma XorNatStep(a: nat, b: nat) returns (x: nat)
    ensures x == XorNat(a, b) == 2 * XorNat(a / 2, b / 2) + (a + b) % 2
    ensures x / 2 == XorNat(a / 2, b / 2) && x % 2 == (a + b) % 2
  {
    x := XorNat(a, b);
  }

  function Xor(a: byte, b: byte): (r: byte)
  {
    assert Pow(2, 8) == 256 by {
      assert Pow(2, 4) == 16;
      PowAdd(2, 4, 4);
    }
    XorNatBound(a, b, 8);
    XorNat(a, b)
  }

  /** Exclusive or works bit by bit: a bit is set exactly when one of the two is. */
  lemma {:induction false} XorNatBit(a: nat, b: nat, k: nat)
    ensures Pow(2, k) > 0
    ensures XorNat(a, b) / Pow(2, k) % 2 == if a / Pow(2, k) % 2 == b / Pow(2, k) % 2 then 0 else 1
    decreases k
  {
    PowPositive(2, k);
    var x := XorNatStep(a, b);
    if k == 0 {
      assert Pow(2, 0) == 1;
    } else {
      XorNatBit(a / 2, b / 2, k - 1);
      PowPositive(2, k - 1);
      HalfThenDivide(a, Pow(2, k - 1));
      HalfThenDivide(b, Pow(2, k - 1));
      HalfThenDivide(x, Pow(2, k - 1));
    }
  }

  lemma HalfThenDivide(a: nat, w: nat)
    requires w > 0
    ensures 2 * w > 0 && a / (2 * w) == a / 2 / w
  {
    var q, r := DivMod(a / 2, w);
    DivModUnique(a, 2 * w, q, 2 * r + a % 2);
  }

  lemma XorBit(a: byte, b: byte, k: nat)
    ensures Pow(2, k) > 0
    ensures Xor(a, b) / Pow(2, k) % 2 == if a / Pow(2, k) % 2 == b / Pow(2, k) % 2 then 0 else 1
  {
    XorNatBit(a, b, k);
  }

  lemma XorCancels(a: byte, b: byte)
    ensures Xor(Xor(a, b), b) == a
  {
    XorNatAssociates(a, b, b);
    XorNatSelf(b);
    XorNatZero(a);
  }

  lemma XorZero(a: byte)
    ensures Xor(a, 0) == a && Xor(0, a) == a
  {
    XorNatZero(a);
    XorNatCommutes(a, 0);
  }

  lemma XorAssociates(a: byte, b: byte, c: byte)
    ensures Xor(Xor(a, b), c) == Xor(a, Xor(b, c))
  {
    XorNatAssociates(a, b, c);
  }

  /** Exclusive or of byte strings, position by position. */
  function XorBytes(a: bytes, b: bytes): (r: bytes)
    requires |a| == |b|
    ensures |r| == |a|
    ensures forall i | 0 <= i < |a| :: r[i] == Xor(a[i], b[i])
  {
    seq(|a|, i requires 0 <= i < |a| => Xor(a[i], b[i]))
  }

  lemma XorBytesCancels(a: bytes, b: bytes)
    requires |a| == |b|
    ensures XorBytes(XorBytes(a, b), b) == a
  {
    forall i | 0 <= i < |a| ensures XorBytes(XorBytes(a, b), b)[i] == a[i] {
      XorCancels(a[i], b[i]);
    }
  }

  // ---- Numbers as big-endian byte strings ----

  /** The number a byte string spells, most significant byte first (`BN_bin2bn`). */
  function Value(s: bytes): nat
  {
    if s == [] then 0 else Value(s[..|s| - 1]) * 256 + s[|s| - 1]
  }

  /** The shortest byte string for a number (`BN_bn2bin`). */
  function Spell(n: nat): bytes
  {
    if n == 0 then [] else Spell(n / 256) + [n % 256]
  }

  function NumBytes(n: nat): nat
  {
    |Spell(n)|
  }

  function NumBits(n: nat): nat
  {
    if n == 0 then 0 else 1 + NumBits(n / 2)
  }

  lemma {:induction false} ValueOfSpell(n: nat)
    ensures Value(Spell(n)) == n
  {
    if n > 0 {
      ValueOfSpell(n / 256);
      var s := Spell(n);
      assert s[..|s| - 1] == Spell(n / 256);
    }
  }

  /** Leading zero bytes are the only thing the value forgets. */
  lemma {:induction false} SpellOfValue(s: bytes)
    ensures NumBytes(Value(s)) <= |s|
    ensures Zeros(|s| - NumBytes(Value(s))) + Spell(Value(s)) == s
  {
    if s != [] {
      var front, last := s[..|s| - 1], s[|s| - 1];
      SpellOfValue(front);
      var n := Value(s);
      assert n / 256 == Value(front) && n % 256 == last;
      if n == 0 {
        assert Value(front) == 0;
        assert Zeros(|s|) == Zeros(|front|) + [0];
      } else {
        assert Spell(n) == Spell(n / 256) + [last];
        var z := Zeros(|front| - NumBytes(Value(front)));
        assert z + Spell(n) == (z + Spell(n / 256)) + [last];
        assert |s| - NumBytes(n) == |front| - NumBytes(Value(front));
      }
    }
  }

  lemma {:induction false} ValueBound(s: bytes)
    ensures Value(s) < Pow(256, |s|)
  {
    if s != [] {
      ValueBound(s[..|s| - 1]);
    }
  }

  lemma {:induction false} NumBitsBound(n: nat)
    ensures n < Pow(2, NumBits(n))
    ensures n > 0 ==> Pow(2, NumBits(n) - 1) <= n
  {
    if n > 0 {
      NumBitsBound(n / 2);
    }
  }

  lemma {:induction false} NumBytesBound(n: nat)
    ensures n < Pow(256, NumBytes(n))
    ensures n > 0 ==> NumBytes(n) > 0 && Pow(256, NumBytes(n) - 1) <= n
  {
    if n > 0 {
      NumBytesBound(n / 256);
      if n < 256 {
        assert Spell(n / 256) == [];
      }
    }
  }

  lemma {:induction false} Pow256(k: nat)
    ensures Pow(256, k) == Pow(2, 8 * k)
  {
    PowMul(2, 8, k);
    assert Pow(2, 8) == 256 by {
      assert Pow(2, 4) == 16;
      PowAdd(2, 4, 4);
    }
  }

  lemma {:induction false} PowOrder(b: nat, i: nat, j: nat)
    requires b > 0 && Pow(b, i) < Pow(b, j)
    ensures i < j
  {
    if j <= i {
      PowMonotone(b, j, i);
    }
  }

  /** `BN_num_bytes` is `BN_num_bits` rounded up to whole bytes. */
  lemma {:induction false} NumBytesFromBits(n: nat)
    ensures NumBytes(n) == (NumBits(n) + 7) / 8
  {
    if n > 0 {
      BitsAndBytes(n, NumBits(n), NumBytes(n)) by {
        NumBitsBound(n);
        NumBytesBound(n);
      }
    }
  }

  lemma BitsAndBytes(n: nat, bits: nat, len: nat)
    requires bits > 0 && Pow(2, bits - 1) <= n < Pow(2, bits)
    requires len > 0 && Pow(256, len - 1) <= n < Pow(256, len)
    ensures len == (bits + 7) / 8
  {
    Pow256(len);
    Pow256(len - 1);
    PowOrder(2, bits - 1, 8 * len);
    PowOrder(2, 8 * (len - 1), bits);
  }

  lemma NumBytesMonotone(m: nat, n: nat)
    requires m <= n
    ensures NumBytes(m) <= NumBytes(n)
  {
    if m > 0 {
      NumBytesBound(m);
      NumBytesBound(n);
      PowOrder(256, NumBytes(m) - 1, NumBytes(n));
    }
  }

  /** A number below 256^k needs at most k bytes. */
  lemma {:induction false} NumBytesAtMost(n: nat, k: nat)
    requires n < Pow(256, k)
    ensures NumBytes(n) <= k
  {
    if n > 0 {
      NumBytesBound(n);
      PowOrder(256, NumBytes(n) - 1, k);
    }
  }

  lemma {:induction false} ValueOfZeros(k: nat, s: bytes)
    ensures Value(Zeros(k) + s) == Value(s)
    decreases |s|, k
  {
    var t := Zeros(k) + s;
    if s != [] {
      ValueOfZeros(k, s[..|s| - 1]);
      assert t[..|t| - 1] == Zeros(k) + s[..|s| - 1];
    } else if k > 0 {
      ValueOfZeros(k - 1, []);
      assert t[..|t| - 1] == Zeros(k - 1) + [];
    }
  }
}
