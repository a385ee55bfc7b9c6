/** Block modes over an abstract 16-byte block cipher. The cipher itself is a parameter: all that
    is assumed of AES is that, for every key, decryption undoes encryption. */
module Aes {
  import opened Wrappers
  import opened Bytes
  import opened Base64

  type Block = b: bytes | |b| == 16 witness Zeros(16)

  /** AES_encrypt and AES_decrypt, taking the key first. */
  datatype Cipher = Cipher(encrypt: (Block, Block) -> Block, decrypt: (Block, Block) -> Block)

  ghost predicate Lawful(aes: Cipher)
  {
    forall k: Block, b: Block :: aes.decrypt(k, aes.encrypt(k, b)) == b
  }

  function XorBlock(a: Block, b: Block): (r: Block)
  {
    XorBytes(a, b)
  }

  lemma XorBlockCancels(a: Block, b: Block)
    ensures XorBlock(XorBlock(a, b), b) == a
  {
    XorBytesCancels(a, b);
  }

  // ---- Modeless encryption ----

  function EcbEncrypt(aes: Cipher, key: Block, d: bytes): (r: bytes)
    requires |d| % 16 == 0
    ensures |r| == |d|
  {
    if d == [] then [] else aes.encrypt(key, d[..16]) + EcbEncrypt(aes, key, d[16..])
  }

  function EcbDecrypt(aes: Cipher, key: Block, d: bytes): (r: bytes)
    requires |d| % 16 == 0
    ensures |r| == |d|
  {
    if d == [] then [] else aes.decrypt(key, d[..16]) + EcbDecrypt(aes, key, d[16..])
  }

  lemma {:induction false} EcbRoundTrip(aes: Cipher, key: Block, d: bytes)
    requires Lawful(aes) && |d| % 16 == 0
    ensures EcbDecrypt(aes, key, EcbEncrypt(aes, key, d)) == d
  {
    if d != [] {
      var b: Block := d[..16];
      var e: bytes, rest: bytes := aes.encrypt(key, b), EcbEncrypt(aes, key, d[16..]);
      EcbRoundTrip(aes, key, d[16..]);
      assert (e + rest)[..16] == e && (e + rest)[16..] == rest;
      assert d == d[..16] + d[16..];
    }
  }

  lemma {:induction false} EcbEncryptSnoc(aes: Cipher, key: Block, d: bytes, b: Block)
    requires |d| % 16 == 0
    ensures EcbEncrypt(aes, key, d + b) == EcbEncrypt(aes, key, d) + aes.encrypt(key, b)
  {
    if d == [] {
      assert d + b == b && b[..16] == b && b[16..] == [];
    } else {
      EcbEncryptSnoc(aes, key, d[16..], b);
      assert (d + b)[..16] == d[..16] && (d + b)[16..] == d[16..] + b;
    }
  }

  lemma {:induction false} EcbDecryptSnoc(aes: Cipher, key: Block, d: bytes, b: Block)
    requires |d| % 16 == 0
    ensures EcbDecrypt(aes, key, d + b) == EcbDecrypt(aes, key, d) + aes.decrypt(key, b)
  {
    if d == [] {
      assert d + b == b && b[..16] == b && b[16..] == [];
    } else {
      EcbDecryptSnoc(aes, key, d[16..], b);
      assert (d + b)[..16] == d[..16] && (d + b)[16..] == d[16..] + b;
    }
  }

  /** Block i of the ciphertext is block i of the plaintext, encrypted. */
  lemma {:induction false} EcbBlock(aes: Cipher, key: Block, d: bytes, i: nat)
    requires |d| % 16 == 0 && 16 * i + 16 <= |d|
    ensures EcbEncrypt(aes, key, d)[16 * i..16 * i + 16] == aes.encrypt(key, d[16 * i..16 * i + 16])
  {
    var rest := d[16..];
    if i > 0 {
      EcbBlock(aes, key, rest, i - 1);
      assert rest[16 * (i - 1)..16 * i] == d[16 * i..16 * i + 16];
      assert EcbEncrypt(aes, key, d)[16 * i..16 * i + 16] == EcbEncrypt(aes, key, rest)[16 * (i - 1)..16 * i];
    }
  }

  // ---- CBC (section 6.2 of NIST SP 800-38A) ----

  function CbcEncrypt(aes: Cipher, key: Block, iv: Block, d: bytes): (r: bytes)
    requires |d| % 16 == 0
    ensures |r| == |d|
    decreases |d|
  {
    if d == [] then []
    else
      var e := aes.encrypt(key, XorBlock(d[..16], iv));
      e + CbcEncrypt(aes, key, e, d[16..])
  }

  function CbcDecrypt(aes: Cipher, key: Block, iv: Block, d: bytes): (r: bytes)
    requires |d| % 16 == 0
    ensures |r| == |d|
    decreases |d|
  {
    if d == [] then []
    else XorBlock(aes.decrypt(key, d[..16]), iv) + CbcDecrypt(aes, key, d[..16], d[16..])
  }

  /** Block i of the ciphertext is block i of the plaintext mixed with the block of ciphertext before it, or with
      the starting vector, encrypted. */
  lemma {:induction false} CbcBlock(aes: Cipher, key: Block, iv: Block, d: bytes, i: nat)
    requires |d| % 16 == 0 && 16 * i + 16 <= |d|
    ensures var c := CbcEncrypt(aes, key, iv, d);
      c[16 * i..16 * i + 16]
        == aes.encrypt(key, XorBlock(d[16 * i..16 * i + 16], if i == 0 then iv else c[16 * i - 16..16 * i]))
    decreases |d|
  {
    var rest := d[16..];
    var c := CbcEncrypt(aes, key, iv, d);
    assert c[..16] == aes.encrypt(key, XorBlock(d[..16], iv));
    if i > 0 {
      var e := aes.encrypt(key, XorBlock(d[..16], iv));
      var t := CbcEncrypt(aes, key, e, rest);
      CbcBlock(aes, key, e, rest, i - 1);
      assert rest[16 * (i - 1)..16 * i] == d[16 * i..16 * i + 16];
      assert c[16 * i..16 * i + 16] == t[16 * (i - 1)..16 * i];
      if i > 1 {
        assert c[16 * i - 16..16 * i] == t[16 * (i - 1) - 16..16 * (i - 1)];
      }
    }
  }

  lemma {:induction false} CbcRoundTrip(aes: Cipher, key: Block, iv: Block, d: bytes)
    requires Lawful(aes) && |d| % 16 == 0
    ensures CbcDecrypt(aes, key, iv, CbcEncrypt(aes, key, iv, d)) == d
    decreases |d|
  {
    if d != [] {
      var b: Block := d[..16];
      var e := aes.encrypt(key, XorBlock(b, iv));
      var rest: bytes := CbcEncrypt(aes, key, e, d[16..]);
      var first: bytes := e;
      CbcRoundTrip(aes, key, e, d[16..]);
      XorBlockCancels(b, iv);
      assert (first + rest)[..16] == first && (first + rest)[16..] == rest;
      assert d == d[..16] + d[16..];
    }
  }

  /** What stands in memory after the terminator of a C string */
  type Memory = nat -> byte

  /** The size of the buffer for a string of n bytes and its terminator, in whole blocks */
  function PaddedSize(n: nat): (len: nat)
    ensures len % 16 == 0 && n < len <= n + 16
  {
    if (n + 1) % 16 != 0 then n + 1 + (16 - (n + 1) % 16) else n + 1
  }

  /** The byte that is i places after the start of the string */
  function MemoryByte(s: bytes, after: Memory, i: nat): byte
  {
    if i < |s| then s[i] else if i == |s| then 0 else after(i - |s| - 1)
  }

  /** The plaintext of a string: the size is rounded up before the copy, so all bytes but the last one are copied
      from memory, also those behind the terminator. */
  function PlainText(s: bytes, after: Memory): (r: bytes)
    ensures |r| == PaddedSize(|s|)
    ensures r[..|s|] == s && r[|s|] == 0 && r[|r| - 1] == 0
  {
    seq(PaddedSize(|s|) - 1, i requires i >= 0 => MemoryByte(s, after, i)) + [0]
  }

  /** The string padded with zeros alone, which is what the comments in the program promise */
  function ZeroPadded(s: bytes): bytes
  {
    s + Zeros(PaddedSize(|s|) - |s|)
  }

  /** The plaintext is zero-padded exactly when the bytes copied from behind the terminator are zero. */
  lemma ZeroPaddedExactly(s: bytes, after: Memory)
    ensures PlainText(s, after) == ZeroPadded(s) <==>
      forall i: nat | i < PaddedSize(|s|) - |s| - 2 :: after(i) == 0
  {
    var p, z := PlainText(s, after), ZeroPadded(s);
    if p == z {
      forall i: nat | i < PaddedSize(|s|) - |s| - 2 ensures after(i) == 0 {
        assert p[|s| + 1 + i] == z[|s| + 1 + i];
      }
    }
    if forall i: nat | i < PaddedSize(|s|) - |s| - 2 :: after(i) == 0 {
      forall k | 0 <= k < |p| ensures p[k] == z[k] {
        if k < |s| {
          assert p[..|s|][k] == s[k];
        }
      }
    }
  }

  /** Memory full of ones */
  const ONES: Memory := _ => 1

  /** Whatever stands in memory, the plaintext is zero-padded exactly for these lengths. */
  lemma ZeroPaddedAlways(s: bytes)
    ensures (forall after: Memory :: PlainText(s, after) == ZeroPadded(s)) <==> |s| % 16 >= 14
  {
    ZeroPaddedExactly(s, ONES);
    if |s| % 16 >= 14 {
      forall after: Memory ensures PlainText(s, after) == ZeroPadded(s) {
        ZeroPaddedExactly(s, after);
      }
    } else {
      assert ONES(0) == 1;
    }
  }

  /** For "a", the thirteen bytes behind the terminator are part of the plaintext. */
  lemma NeighboursOfA(after: Memory)
    ensures |PlainText([97], after)| == 16
    ensures forall i: nat | i < 13 :: PlainText([97], after)[2 + i] == after(i)
    ensures PlainText([97], ONES) != ZeroPadded([97])
  {
    ZeroPaddedExactly([97], ONES);
    assert ONES(0) == 1;
  }

  /** The C string at the start of a buffer. */
  function CString(d: bytes): bytes
  {
    if d == [] || d[0] == 0 then [] else [d[0]] + CString(d[1..])
  }

  lemma {:induction false} CStringOf(s: bytes, rest: bytes)
    requires 0 !in s && (rest == [] || rest[0] == 0)
    ensures CString(s + rest) == s
  {
    if s == [] {
      assert s + rest == rest;
    } else {
      CStringOf(s[1..], rest);
      assert (s + rest)[1..] == s[1..] + rest;
    }
  }

  const ZERO_IV: Block := Zeros(16)

  /** The plaintext in CBC mode with a zero IV and UBase64 (`b64_aes128_cbc_encrypt_str`). */
  function EncryptString(aes: Cipher, key: Block, s: bytes, after: Memory): string
  {
    UrlEncode(CbcEncrypt(aes, key, ZERO_IV, PlainText(s, after)))
  }

  /** The text stands for the ciphertext, whose first block is that of the plaintext alone: the starting vector is
      zero. */
  lemma EncryptStringBlocks(aes: Cipher, key: Block, s: bytes, after: Memory)
    ensures var c := UrlDecode(EncryptString(aes, key, s, after));
      && |c| == PaddedSize(|s|) && c == CbcEncrypt(aes, key, Zeros(16), PlainText(s, after))
      && c[..16] == aes.encrypt(key, PlainText(s, after)[..16])
  {
    var p: bytes := PlainText(s, after);
    UrlDecodeOfEncode(CbcEncrypt(aes, key, ZERO_IV, p));
    CbcBlock(aes, key, ZERO_IV, p, 0);
    var first: Block := p[..16];
    forall i | 0 <= i < 16 ensures XorBlock(first, ZERO_IV)[i] == first[i] {
      XorZero(first[i]);
    }
    assert XorBlock(first, ZERO_IV) == first;
  }

  /** `b64_aes128_cbc_decrypt`: the bytes, or None when they are not whole blocks. */
  function DecryptCbc(aes: Cipher, key: Block, text: string): Option<bytes>
  {
    var d := UrlDecode(text);
    if |d| % 16 == 0 then Some(CbcDecrypt(aes, key, ZERO_IV, d)) else None
  }

  /** String CBC encryption round trip: decrypting gives the plaintext, and read as a C string it is the string
      that went in, whatever stood in memory behind it. */
  lemma EncryptStringRoundTrip(aes: Cipher, key: Block, s: bytes, after: Memory)
    requires Lawful(aes) && 0 !in s
    ensures DecryptCbc(aes, key, EncryptString(aes, key, s, after)) == Some(PlainText(s, after))
    ensures CString(PlainText(s, after)) == s
  {
    var p := PlainText(s, after);
    UrlDecodeOfEncode(CbcEncrypt(aes, key, ZERO_IV, p));
    CbcRoundTrip(aes, key, ZERO_IV, p);
    assert p == s + p[|s|..];
    CStringOf(s, p[|s|..]);
  }

  /** The ciphertext of a string is not determined by the string and the key: it is the same for two contents of
      the memory exactly when they agree in the bytes that are copied. */
  lemma SameCiphertext(aes: Cipher, key: Block, s: bytes, a: Memory, b: Memory)
    requires Lawful(aes) && 0 !in s
    ensures EncryptString(aes, key, s, a) == EncryptString(aes, key, s, b) <==>
      forall i: nat | i < PaddedSize(|s|) - |s| - 2 :: a(i) == b(i)
  {
    EncryptStringRoundTrip(aes, key, s, a);
    EncryptStringRoundTrip(aes, key, s, b);
    SamePlainText(s, a, b);
  }

  lemma SamePlainText(s: bytes, a: Memory, b: Memory)
    ensures PlainText(s, a) == PlainText(s, b) <==> forall i: nat | i < PaddedSize(|s|) - |s| - 2 :: a(i) == b(i)
  {
    var p, q := PlainText(s, a), PlainText(s, b);
    if p == q {
      forall i: nat | i < PaddedSize(|s|) - |s| - 2 ensures a(i) == b(i) {
        assert p[|s| + 1 + i] == q[|s| + 1 + i];
      }
    }
    if forall i: nat | i < PaddedSize(|s|) - |s| - 2 :: a(i) == b(i) {
      forall k | 0 <= k < |p| ensures p[k] == q[k] {
      }
    }
  }

  // ---- CTR (section 6.5 of NIST SP 800-38A) ----

  /** The counter block plus one, most significant byte first, wrapping at the top. */
  function Increment(b: bytes): (r: bytes)
    ensures |r| == |b|
  {
    if b == [] then []
    else if b[|b| - 1] == 255 then Increment(b[..|b| - 1]) + [0]
    else b[..|b| - 1] + [b[|b| - 1] + 1]
  }

  function Advance(b: Block, n: nat): (r: Block)
  {
    if n == 0 then b else Increment(Advance(b, n - 1))
  }

  function KeystreamByte(aes: Cipher, key: Block, iv: Block, pos: nat): byte
  {
    aes.encrypt(key, Advance(iv, pos / 16))[pos % 16]
  }

  /** CTR encryption of data that starts `pos` bytes into the stream. */
  function CtrFrom(aes: Cipher, key: Block, iv: Block, pos: nat, d: bytes): (r: bytes)
    ensures |r| == |d|
    ensures forall i | 0 <= i < |d| :: r[i] == Xor(d[i], KeystreamByte(aes, key, iv, pos + i))
  {
    seq(|d|, i requires 0 <= i < |d| => Xor(d[i], KeystreamByte(aes, key, iv, pos + i)))
  }

  lemma CtrConcat(aes: Cipher, key: Block, iv: Block, pos: nat, a: bytes, b: bytes)
    ensures CtrFrom(aes, key, iv, pos, a + b) == CtrFrom(aes, key, iv, pos, a) + CtrFrom(aes, key, iv, pos + |a|, b)
  {
  }

  /** CTR is its own inverse. */
  lemma CtrInvolutive(aes: Cipher, key: Block, iv: Block, pos: nat, d: bytes)
    ensures CtrFrom(aes, key, iv, pos, CtrFrom(aes, key, iv, pos, d)) == d
  {
    var e := CtrFrom(aes, key, iv, pos, d);
    forall i | 0 <= i < |d| ensures CtrFrom(aes, key, iv, pos, e)[i] == d[i] {
      XorCancels(d[i], KeystreamByte(aes, key, iv, pos + i));
    }
  }

  lemma {:induction false} IncrementValue(b: bytes)
    ensures NumberTheory.Pow(256, |b|) > 0
    ensures Value(Increment(b)) == if Value(b) + 1 == NumberTheory.Pow(256, |b|) then 0 else Value(b) + 1
  {
    NumberTheory.PowPositive(256, |b|);
    if b != [] {
      var front, last := b[..|b| - 1], b[|b| - 1];
      IncrementValue(front);
      ValueBound(front);
      var r := Increment(b);
      assert r[..|r| - 1] == if last == 255 then Increment(front) else front;
    }
  }

  lemma {:induction false} AdvanceValue(iv: Block, n: nat)
    ensures NumberTheory.Pow(256, 16) > 0
    ensures Value(Advance(iv, n)) == (Value(iv) + n) % NumberTheory.Pow(256, 16)
  {
    var m := NumberTheory.Pow(256, 16);
    NumberTheory.PowPositive(256, 16);
    if n == 0 {
      ValueBound(iv);
      NumberTheory.DivModUnique(Value(iv), m, 0, Value(iv));
    } else {
      AdvanceValue(iv, n - 1);
      AdvanceOnce(Advance(iv, n - 1), Value(iv) + n - 1, m);
    }
  }

  lemma {:induction false} AdvanceOnce(b: Block, x: nat, m: nat)
    requires m == NumberTheory.Pow(256, 16) && m > 0 && Value(b) == x % m
    ensures Value(Increment(b)) == (x + 1) % m
  {
    IncrementValue(b);
    NextRemainder(x, m);
  }

  lemma NextRemainder(x: nat, m: nat)
    requires m > 0
    ensures (x + 1) % m == if x % m + 1 == m then 0 else x % m + 1
  {
    var q, r := NumberTheory.DivMod(x, m);
    if r + 1 == m {
      NumberTheory.DivModUnique(x + 1, m, q + 1, 0);
    } else {
      NumberTheory.DivModUnique(x + 1, m, q, r + 1);
    }
  }

  /** Within one stream no counter block repeats before 2^128 blocks. */
  lemma {:induction false} CountersDistinct(iv: Block, i: nat, j: nat)
    requires i < j < i + NumberTheory.Pow(256, 16)
    ensures Advance(iv, i) != Advance(iv, j)
  {
    var m := NumberTheory.Pow(256, 16);
    AdvanceValue(iv, i);
    AdvanceValue(iv, j);
    if Advance(iv, i) == Advance(iv, j) {
      var k := NumberTheory.MultipleOfCongruent(Value(iv) + j, Value(iv) + i, m);
      NumberTheory.SmallMultiple(k, m);
    }
  }
}
