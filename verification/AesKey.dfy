/** The AES key object (mega-aes-key.c): raw blocks, string encryption, and counter mode kept as a
    stream across calls. */
module AesKey {
  import opened Wrappers
  import opened NumberTheory
  import opened Bytes
  import opened Base64
  import opened Aes

  type Nonce = b: bytes | |b| == 8 witness Zeros(8)

  /** A number below 2^64 as eight big-endian bytes (`GUINT64_TO_BE`). */
  function BigEndian64(n: nat): (r: bytes)
    requires n < Pow(256, 8)
    ensures |r| == 8 && Value(r) == n
  {
    NumBytesAtMost(n, 8);
    ValueOfSpell(n);
    ValueOfZeros(8 - NumBytes(n), Spell(n));
    Zeros(8 - NumBytes(n)) + Spell(n)
  }

  function CounterBlock(nonce: Nonce, position: nat): Block
    requires position < Pow(256, 8)
  {
    nonce + BigEndian64(position)
  }

  lemma {:induction false} SameLengthSameValue(a: bytes, b: bytes)
    requires |a| == |b| && Value(a) == Value(b)
    ensures a == b
  {
    SpellOfValue(a);
    SpellOfValue(b);
  }

  /** The counter block is the nonce and then the block number, most significant byte first. */
  lemma CounterLayout(nonce: Nonce, position: nat)
    requires position < Pow(256, 8)
    ensures CounterBlock(nonce, position)[..8] == nonce && Value(CounterBlock(nonce, position)[8..]) == position
  {
    assert CounterBlock(nonce, position)[8..] == BigEndian64(position);
  }

  lemma {:induction false} ValueConcat(a: bytes, b: bytes)
    ensures Value(a + b) == Value(a) * Pow(256, |b|) + Value(b)
  {
    if b == [] {
      assert a + b == a;
    } else {
      var front, last := b[..|b| - 1], b[|b| - 1];
      ValueConcat(a, front);
      assert (a + b)[..|a + b| - 1] == a + front;
      ScaleStep(Value(a), Pow(256, |front|), Value(front), last);
    }
  }

  lemma ScaleStep(a: nat, w: nat, f: nat, last: nat)
    ensures (a * w + f) * 256 + last == a * (256 * w) + (f * 256 + last)
  {
  }

  /** Positioning the counter is the same as running it: the block at position k is the block at
      position 0 advanced k times. */
  lemma {:induction false} CounterSeek(nonce: Nonce, k: nat)
    requires k < Pow(256, 8)
    ensures 0 < Pow(256, 8)
    ensures Advance(CounterBlock(nonce, 0), k) == CounterBlock(nonce, k)
  {
    PowPositive(256, 8);
    var zero := CounterBlock(nonce, 0);
    AdvanceValue(zero, k);
    ValueConcat(nonce, BigEndian64(0));
    ValueConcat(nonce, BigEndian64(k));
    ValueBound(nonce);
    PowAdd(256, 8, 8);
    CounterFits(Value(nonce), k, Pow(256, 8), Pow(256, 16));
    SameLengthSameValue(Advance(zero, k), CounterBlock(nonce, k));
  }

  lemma CounterFits(nonce: nat, k: nat, w: nat, m: nat)
    requires nonce < w && k < w && m == w * w
    ensures m > 0 && (nonce * w + k) % m == nonce * w + k
  {
    MulOrder(nonce + 1, w, w);
    assert (nonce + 1) * w == nonce * w + w;
    assert 0 <= nonce * w;
    DivModUnique(nonce * w + k, m, 0, nonce * w + k);
  }

  lemma {:induction false} AdvanceAdd(b: Block, i: nat, j: nat)
    ensures Advance(Advance(b, i), j) == Advance(b, i + j)
  {
    if j > 0 {
      AdvanceAdd(b, i, j - 1);
    }
  }

  /** Starting at block k produces the keystream that starting at block 0 reaches after 16 k bytes. */
  lemma CtrSeek(aes: Cipher, key: Block, nonce: Nonce, k: nat, d: bytes)
    requires k < Pow(256, 8)
    ensures 0 < Pow(256, 8)
    ensures CtrFrom(aes, key, CounterBlock(nonce, k), 0, d) == CtrFrom(aes, key, CounterBlock(nonce, 0), 16 * k, d)
  {
    PowPositive(256, 8);
    var zero, at := CounterBlock(nonce, 0), CounterBlock(nonce, k);
    CounterSeek(nonce, k);
    forall i | 0 <= i < |d| ensures KeystreamByte(aes, key, at, i) == KeystreamByte(aes, key, zero, 16 * k + i) {
      AdvanceAdd(zero, k, i / 16);
      assert (16 * k + i) / 16 == k + i / 16 && (16 * k + i) % 16 == i % 16;
    }
  }

  /** Counter-mode state as OpenSSL keeps it: the next counter block, the current keystream block and
      how much of it is used. `start` and `done` say where the stream began and how far it is. */
  class CtrStream {
    const aes: Cipher
    var key: Block
    var iv: Block
    var ecount: Block
    var num: nat
    ghost var start: Block
    ghost var done: nat

    ghost predicate Valid()
      reads this
    {
      && num == done % 16
      && iv == Advance(start, (done + 15) / 16)
      && (num > 0 ==> ecount == aes.encrypt(key, Advance(start, done / 16)))
    }

    constructor (aes: Cipher, key: Block, iv: Block)
      ensures Valid() && this.aes == aes && this.key == key && start == iv && done == 0
    {
      this.aes := aes;
      this.key := key;
      this.iv := iv;
      ecount := Zeros(16);
      num := 0;
      start := iv;
      done := 0;
    }

    /** One byte of AES_ctr128_encrypt: a fresh keystream block is made when the last is used up. */
    method Step(b: byte) returns (r: byte)
      requires Valid()
      modifies this
      ensures Valid() && key == old(key) && start == old(start) && done == old(done) + 1
      ensures r == Xor(b, KeystreamByte(aes, key, start, old(done)))
    {
      if num == 0 {
        ecount := aes.encrypt(key, iv);
        iv := Increment(iv);
      }
      r := Xor(b, ecount[num]);
      num := (num + 1) % 16;
      done := done + 1;
    }

    /** AES_ctr128_encrypt */
    method Process(data: bytes) returns (r: bytes)
      requires Valid()
      modifies this
      ensures Valid() && key == old(key) && start == old(start) && done == old(done) + |data|
      ensures r == CtrFrom(aes, key, start, old(done), data)
    {
      r := [];
      var i := 0;
      while i < |data|
        invariant 0 <= i <= |data|
        invariant Valid() && key == old(key) && start == old(start) && done == old(done) + i
        invariant r == CtrFrom(aes, key, start, old(done), data[..i])
      {
        var b := Step(data[i]);
        r := r + [b];
        i := i + 1;
      }
      assert data[..i] == data;
    }

    /** `mega_aes_key_setup_ctr` */
    method Setup(nonce: Nonce, position: nat)
      requires position < Pow(256, 8)
      modifies this
      ensures Valid() && key == old(key) && start == CounterBlock(nonce, position) && done == 0
      ensures start[..8] == nonce && Value(start[8..]) == position
    {
      CounterLayout(nonce, position);
      iv := nonce + BigEndian64(position);
      ecount := Zeros(16);
      num := 0;
      start := iv;
      done := 0;
    }
  }

  // ---- The key object ----

  class MegaAesKey {
    const aes: Cipher
    var loaded: bool
    var key: Block

    constructor (aes: Cipher)
      ensures this.aes == aes && !loaded
    {
      this.aes := aes;
      loaded := false;
      key := Zeros(16);
    }

    method LoadBinary(data: Block)
      modifies this
      ensures loaded && key == data
    {
      key := data;
      loaded := true;
    }

    /** `mega_aes_key_load_enc_ubase64`: only a text of exactly sixteen bytes is taken. */
    method LoadEncUbase64(text: string, decKey: MegaAesKey) returns (ok: bool)
      modifies this
      ensures ok == (|UrlDecode(text)| == 16)
      ensures ok ==> loaded && key == decKey.aes.decrypt(old(decKey.key), UrlDecode(text))
      ensures !ok ==> loaded == old(loaded) && key == old(key)
    {
      var data := Base64UrlDecode(text);
      if |data| != 16 {
        return false;
      }
      var plain := new byte[16];
      decKey.DecryptRaw(data, plain);
      assert data[..16] == data && data[16..] == [];
      LoadBinary(plain[..]);
      ok := true;
    }

    /** `mega_aes_key_get_enc_ubase64` */
    method GetEncUbase64(encKey: MegaAesKey) returns (r: Option<string>)
      requires loaded
      ensures r == Some(UrlEncode(encKey.aes.encrypt(encKey.key, key)))
    {
      var cipher := new byte[16];
      encKey.EncryptRaw(key, cipher);
      var k: bytes := key;
      assert k[..16] == k && k[16..] == [];
      assert cipher[..] == cipher[..16] == encKey.aes.encrypt(encKey.key, key);
      r := Base64UrlEncode(cipher[..]);
    }

    /** `mega_aes_key_encrypt_raw`: block by block into the output buffer; lengths that are not whole
        blocks are refused. */
    method EncryptRaw(plain: bytes, cipher: array<byte>)
      requires cipher.Length >= |plain|
      modifies cipher
      ensures |plain| % 16 == 0 ==> cipher[..|plain|] == EcbEncrypt(aes, key, plain)
      ensures |plain| % 16 != 0 ==> cipher[..] == old(cipher[..])
      ensures cipher[|plain|..] == old(cipher[|plain|..])
    {
      if |plain| % 16 != 0 {
        return;
      }
      var off := 0;
      while off < |plain|
        invariant 0 <= off <= |plain| && off % 16 == 0
        invariant cipher[..off] == EcbEncrypt(aes, key, plain[..off])
        invariant cipher[|plain|..] == old(cipher[|plain|..])
      {
        WriteBlock(cipher, off, aes.encrypt(key, plain[off..off + 16]));
        EcbEncryptSnoc(aes, key, plain[..off], plain[off..off + 16]);
        assert plain[..off + 16] == plain[..off] + plain[off..off + 16];
        off := off + 16;
      }
      assert plain[..off] == plain;
    }

    /** `mega_aes_key_decrypt_raw` */
    method DecryptRaw(cipher: bytes, plain: array<byte>)
      requires plain.Length >= |cipher|
      modifies plain
      ensures |cipher| % 16 == 0 ==> plain[..|cipher|] == EcbDecrypt(aes, key, cipher)
      ensures |cipher| % 16 != 0 ==> plain[..] == old(plain[..])
      ensures plain[|cipher|..] == old(plain[|cipher|..])
    {
      if |cipher| % 16 != 0 {
        return;
      }
      var off := 0;
      while off < |cipher|
        invariant 0 <= off <= |cipher| && off % 16 == 0
        invariant plain[..off] == EcbDecrypt(aes, key, cipher[..off])
        invariant plain[|cipher|..] == old(plain[|cipher|..])
      {
        WriteBlock(plain, off, aes.decrypt(key, cipher[off..off + 16]));
        EcbDecryptSnoc(aes, key, cipher[..off], cipher[off..off + 16]);
        assert cipher[..off + 16] == cipher[..off] + cipher[off..off + 16];
        off := off + 16;
      }
      assert cipher[..off] == cipher;
    }

    /** `mega_aes_key_encrypt_string_cbc` on the bytes of a C string and the memory after its terminator */
    method EncryptStringCbc(str: bytes, after: Memory) returns (r: Option<string>)
      requires 0 !in str
      ensures r == Some(EncryptString(aes, key, str, after))
    {
      var len := |str| + 1;
      if len % 16 != 0 {
        len := len + (16 - len % 16);
      }
      var plain := new byte[len](_ => 0);
      forall i | 0 <= i < len - 1 {
        plain[i] := MemoryByte(str, after, i);
      }
      assert plain[..] == PlainText(str, after);
      r := Base64UrlEncode(CbcEncrypt(aes, key, ZERO_IV, plain[..]));
    }
  }

  method WriteBlock(a: array<byte>, off: nat, b: Block)
    requires off + 16 <= a.Length
    modifies a
    ensures a[..off + 16] == old(a[..off]) + b
    ensures a[off + 16..] == old(a[off + 16..])
  {
    forall i | 0 <= i < 16 {
      a[off + i] := b[i];
    }
  }

  /** A key exported under another key and loaded back is the same key. */
  method ExportImportKey(k: MegaAesKey, wrap: MegaAesKey, target: MegaAesKey) returns (ok: bool)
    requires k.loaded && Lawful(wrap.aes) && target != k && target != wrap
    modifies target
    ensures ok && target.loaded && target.key == k.key
  {
    var text := k.GetEncUbase64(wrap);
    UrlDecodeOfEncode(wrap.aes.encrypt(wrap.key, k.key));
    ok := target.LoadEncUbase64(text.value, wrap);
  }
}
