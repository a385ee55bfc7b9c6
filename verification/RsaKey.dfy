/** RSA keys in Mega's format: multi-precision integers with a 16-bit big-endian bit count, and the
    key object that loads, exports and uses them (mega-rsa-key.c). */
module RsaKey {
  import opened Wrappers
  import opened NumberTheory
  import opened Bytes
  import opened Base64
  import opened Aes
  import opened Rsa

  // ---- Multi-precision integers ----

  function Mpi(n: nat): bytes
  {
    var bits := NumBits(n) % 65536;
    [bits / 256, bits % 256] + Spell(n)
  }

  /** The number at an offset and the offset just past it, or None when it does not fit. */
  function MpiAt(data: bytes, off: nat): (r: Option<(nat, nat)>)
    ensures r.Some? ==> off + 2 <= r.value.1 <= |data|
  {
    if |data| < off + 2 then None
    else
      var len := (data[off] as int * 256 + data[off + 1] + 7) / 8;
      if |data| < off + 2 + len then None
      else Some((Value(data[off + 2..off + 2 + len]), off + 2 + len))
  }

  /** A number written between any two byte strings is read back, and exactly when its bit count
      fits the 16-bit header. */
  lemma {:induction false} MpiRoundTrip(before: bytes, n: nat, after: bytes)
    ensures var r := MpiAt(before + Mpi(n) + after, |before|);
      (r.Some? && r.value.0 == n) <==> NumBits(n) < 65536
    ensures NumBits(n) < 65536 ==> MpiAt(before + Mpi(n) + after, |before|) == Some((n, |before + Mpi(n)|))
  {
    var len := (NumBits(n) % 65536 + 7) / 8;
    MpiReads(before, n, after, len);
    SpelledPrefix(n, len);
  }

  /** What is read is as much of the number as the header says. */
  lemma {:induction false} MpiReads(before: bytes, n: nat, after: bytes, len: nat)
    requires len == (NumBits(n) % 65536 + 7) / 8
    ensures len <= NumBytes(n) && (len == NumBytes(n) <==> NumBits(n) < 65536)
    ensures |before + Mpi(n)| == |before| + 2 + NumBytes(n)
    ensures MpiAt(before + Mpi(n) + after, |before|) == Some((Value(Spell(n)[..len]), |before| + 2 + len))
  {
    NumBytesFromBits(n);
    HeaderLength(NumBits(n));
    HeaderAndBody(before, NumBits(n) % 65536, Spell(n), after);
  }

  lemma HeaderLength(bits: nat)
    ensures (bits % 65536 + 7) / 8 <= (bits + 7) / 8
    ensures (bits % 65536 + 7) / 8 == (bits + 7) / 8 <==> bits < 65536
  {
  }

  lemma HeaderAndBody(before: bytes, bits: nat, body: bytes, after: bytes)
    requires bits < 65536 && (bits + 7) / 8 <= |body|
    ensures MpiAt(before + ([bits / 256, bits % 256] + body) + after, |before|)
      == Some((Value(body[..(bits + 7) / 8]), |before| + 2 + (bits + 7) / 8))
  {
    var data, off, len := before + ([bits / 256, bits % 256] + body) + after, |before|, (bits + 7) / 8;
    assert data[off] == bits / 256 && data[off + 1] == bits % 256;
    assert data[off + 2..off + 2 + len] == body[..len];
  }

  lemma {:induction false} SpelledPrefix(n: nat, len: nat)
    requires len <= NumBytes(n)
    ensures Value(Spell(n)[..len]) == n <==> len == NumBytes(n)
  {
    var s := Spell(n);
    if len == |s| {
      assert s[..len] == s;
      ValueOfSpell(n);
    } else {
      ShorterIsSmaller(s[..len], n);
    }
  }

  lemma {:induction false} ShorterIsSmaller(s: bytes, n: nat)
    requires |s| < NumBytes(n)
    ensures Value(s) < n
  {
    ValueBound(s);
    NumBytesBound(n);
    assert n > 0;
    PowMonotone(256, |s|, NumBytes(n) - 1);
  }

  /** A number fits the header exactly when it is below 2^65535. */
  lemma {:induction false} FitsHeader(n: nat)
    ensures NumBits(n) < 65536 <==> n < Pow(2, 65535)
  {
    NumBitsBound(n);
    if NumBits(n) < 65536 {
      PowMonotone(2, NumBits(n), 65535);
    } else {
      PowMonotone(2, 65535, NumBits(n) - 1);
    }
  }

  /** What is written: the bit count in two bytes, most significant first, and the number without leading zeros. */
  lemma {:induction false} MpiLayout(n: nat)
    requires NumBits(n) < 65536
    ensures |Mpi(n)| == 2 + (NumBits(n) + 7) / 8
    ensures Mpi(n)[0] as int * 256 + Mpi(n)[1] == NumBits(n) && Value(Mpi(n)[2..]) == n
  {
    NumBytesFromBits(n);
    ValueOfSpell(n);
    assert Mpi(n)[2..] == Spell(n);
  }

  // ---- Lists of numbers ----

  function MpiList(ns: seq<nat>): bytes
  {
    if ns == [] then [] else Mpi(ns[0]) + MpiList(ns[1..])
  }

  /** The numbers read from an offset on, at most `count`, stopping at the first that does not fit. */
  function ReadNumbers(data: bytes, off: nat, count: nat): (ns: seq<nat>)
    ensures |ns| <= count
    decreases count
  {
    if count == 0 || MpiAt(data, off).None? then []
    else [MpiAt(data, off).value.0] + ReadNumbers(data, MpiAt(data, off).value.1, count - 1)
  }

  lemma {:induction false} ReadMpiList(before: bytes, ns: seq<nat>, pad: bytes)
    requires forall n | n in ns :: NumBits(n) < 65536
    ensures ReadNumbers(before + MpiList(ns) + pad, |before|, |ns|) == ns
    decreases |ns|
  {
    if ns != [] {
      var first, rest := before + Mpi(ns[0]), MpiList(ns[1..]);
      assert before + MpiList(ns) + pad == first + (rest + pad) == first + rest + pad;
      MpiRoundTrip(before, ns[0], rest + pad);
      ReadMpiList(first, ns[1..], pad);
    }
  }

  lemma {:induction false} MpiListSnoc(ns: seq<nat>, n: nat)
    ensures MpiList(ns + [n]) == MpiList(ns) + Mpi(n)
  {
    if ns == [] {
      assert [n][1..] == [];
    } else {
      assert (ns + [n])[1..] == ns[1..] + [n];
      MpiListSnoc(ns[1..], n);
    }
  }

  // ---- Key formats ----

  function PublicText(m: nat, e: nat): string
  {
    UrlEncode(MpiList([m, e]))
  }

  function PadLength(len: nat): (r: nat)
    ensures (len + r) % 16 == 0 && r < 16
  {
    if len % 16 != 0 then 16 - len % 16 else 0
  }

  /** `mega_aes_key_decrypt`: None unless the text holds whole, and some, blocks. */
  function DecryptText(aes: Cipher, key: Block, text: string): Option<bytes>
  {
    var d := UrlDecode(text);
    if |d| == 0 || |d| % 16 != 0 then None else Some(EcbDecrypt(aes, key, d))
  }

  function PrivateText(aes: Cipher, key: Block, ns: seq<nat>, pad: bytes): string
    requires |pad| == PadLength(|MpiList(ns)|)
  {
    UrlEncode(EcbEncrypt(aes, key, MpiList(ns) + pad))
  }

  /** A number of a key, if it is there */
  function One(n: Option<nat>): seq<nat>
  {
    if n.Some? then [n.value] else []
  }

  /** Writing one more number, if it is there */
  lemma {:induction false} MpiListOne(ns: seq<nat>, n: Option<nat>)
    ensures MpiList(ns + One(n)) == MpiList(ns) + if n.Some? then Mpi(n.value) else []
  {
    if n.Some? {
      MpiListSnoc(ns, n.value);
    } else {
      assert ns + One(n) == ns;
    }
  }

  lemma {:induction false} MpiListEmpty(ns: seq<nat>)
    ensures MpiList(ns) == [] <==> ns == []
  {
  }

  lemma {:induction false} PublicRoundTrip(m: nat, e: nat)
    requires NumBits(m) < 65536 && NumBits(e) < 65536
    ensures ReadNumbers(UrlDecode(PublicText(m, e)), 0, 2) == [m, e]
  {
    UrlDecodeOfEncode(MpiList([m, e]));
    ReadMpiList([], [m, e], []);
    assert [] + MpiList([m, e]) + [] == MpiList([m, e]);
  }

  lemma PrivateRoundTrip(aes: Cipher, key: Block, ns: seq<nat>, pad: bytes)
    requires Lawful(aes) && ns != [] && (forall n | n in ns :: NumBits(n) < 65536)
    requires |pad| == PadLength(|MpiList(ns)|)
    ensures var r := DecryptText(aes, key, PrivateText(aes, key, ns, pad));
      r.Some? && ReadNumbers(r.value, 0, |ns|) == ns
  {
    MpiListEmpty(ns);
    EncryptedText(aes, key, MpiList(ns) + pad);
    ReadAtStart(ns, pad);
  }

  lemma {:induction false} ReadAtStart(ns: seq<nat>, pad: bytes)
    requires forall n | n in ns :: NumBits(n) < 65536
    ensures ReadNumbers(MpiList(ns) + pad, 0, |ns|) == ns
  {
    ReadMpiList([], ns, pad);
    assert [] + MpiList(ns) == MpiList(ns);
  }

  lemma {:induction false} EncryptedText(aes: Cipher, key: Block, plain: bytes)
    requires Lawful(aes) && |plain| % 16 == 0 && |plain| > 0
    ensures DecryptText(aes, key, UrlEncode(EcbEncrypt(aes, key, plain))) == Some(plain)
  {
    UrlDecodeOfEncode(EcbEncrypt(aes, key, plain));
    EcbRoundTrip(aes, key, plain);
  }

  // ---- Messages ----

  /** The payload size of a modulus: whole bytes of its bit count, less one. */
  function MessageLength(n: nat): int
  {
    NumBits(n) / 8 - 1
  }

  function EncryptMessage(message: bytes, e: nat, n: nat): string
    requires n > 0
  {
    UrlEncode(Mpi(RsaEncrypt(Value(message), e, n)))
  }

  /** Without a modulus the message is as long as its number; with one it is right-aligned in the
      payload size, and refused when it does not fit. */
  function Align(x: nat, n: Option<nat>): Option<bytes>
  {
    var len := if n.Some? && MessageLength(n.value) >= 0 then MessageLength(n.value) else NumBytes(x);
    if len < NumBytes(x) then None else Some(Zeros(len - NumBytes(x)) + Spell(x))
  }

  /** The bytes that are handed out stand for the number. Without a modulus of a byte or more they have no leading
      zero; with one there are as many as its whole bytes less one, unless the number needs more. */
  lemma {:induction false} AlignExactly(x: nat, n: Option<nat>)
    ensures var r := Align(x, n);
      if n.None? || NumBits(n.value) < 8 then r.Some? && Value(r.value) == x && (r.value != [] ==> r.value[0] != 0)
      else if x < Pow(256, NumBits(n.value) / 8 - 1)
        then r.Some? && Value(r.value) == x && |r.value| == NumBits(n.value) / 8 - 1
      else r.None?
  {
    if n.None? || NumBits(n.value) < 8 {
      ValueOfSpell(x);
      assert Zeros(0) + Spell(x) == Spell(x);
      FirstByte(x);
    } else {
      FitsBytes(x, NumBits(n.value) / 8 - 1);
    }
  }

  lemma {:induction false} FitsBytes(x: nat, len: nat)
    ensures NumBytes(x) <= len <==> x < Pow(256, len)
    ensures NumBytes(x) <= len ==> Value(Zeros(len - NumBytes(x)) + Spell(x)) == x
  {
    NumBytesBound(x);
    if NumBytes(x) <= len {
      ValueOfSpell(x);
      ValueOfZeros(len - NumBytes(x), Spell(x));
      PowMonotone(256, NumBytes(x), len);
    } else {
      PowMonotone(256, len, NumBytes(x) - 1);
    }
  }

  lemma {:induction false} FirstByte(n: nat)
    ensures n > 0 ==> Spell(n) != [] && Spell(n)[0] != 0
  {
    if n >= 256 {
      FirstByte(n / 256);
    } else if n > 0 {
      assert Spell(n / 256) == [];
    }
  }

  function DecryptMessage(text: string, d: nat, p: nat, q: nat, u: nat, n: Option<nat>): Option<bytes>
    requires p > 1 && q > 1
  {
    var c := MpiAt(UrlDecode(text), 0);
    if c.None? then None else Align(RsaDecrypt(c.value.0, d, p, q, u), n)
  }

  lemma {:induction false} MessageBelowModulus(message: bytes, n: nat)
    requires |message| <= MessageLength(n)
    ensures Value(message) < n && NumBytes(n) > MessageLength(n)
  {
    hide Value, NumBytes, Pow;
    ValueBound(message);
    PowMonotone(256, |message|, MessageLength(n));
    Pow256(MessageLength(n));
    NumBitsBound(n);
    PowMonotone(2, 8 * MessageLength(n), NumBits(n) - 1);
    NumBytesFromBits(n);
  }

  /** Decrypting an encrypted full-length message returns it whole, leading zero bytes included,
      when its number is at least p, and refuses it when its number is below p. */
  lemma {:induction false} MessageRoundTrip(message: bytes, p: nat, q: nat, n: nat, d: nat, u: nat, e: nat)
    requires KeyPair(p, q, n, d, u, e)
    requires |message| == MessageLength(n) && NumBits(n) < 65536
    ensures n > 0
    ensures DecryptMessage(EncryptMessage(message, e, n), d, p, q, u, Some(n))
      == if Value(message) >= p then Some(message) else None
  {
    var v := Value(message);
    MessageBelowModulus(message, n);
    RsaRoundTrip(v, p, q, n, d, u, e);
    DecryptedAligned(message, RsaEncrypt(v, e, n), p, q, n, d, u);
  }

  lemma {:induction false} DecryptedAligned(message: bytes, c: nat, p: nat, q: nat, n: nat, d: nat, u: nat)
    requires p > 1 && q > 1 && c <= n && NumBits(n) < 65536
    requires |message| == MessageLength(n) && Value(message) < n && NumBytes(n) > MessageLength(n)
    requires RsaDecrypt(c, d, p, q, u) == if Value(message) >= p then Value(message) else Value(message) + n
    ensures DecryptMessage(UrlEncode(Mpi(c)), d, p, q, u, Some(n)) == if Value(message) >= p then Some(message)
      else None
  {
    CipherText(c, n);
    Aligned(message, n, p);
  }

  /** Right-aligning the decrypted number in the payload size. */
  lemma {:induction false} Aligned(message: bytes, n: nat, p: nat)
    requires |message| == MessageLength(n) && Value(message) < n && NumBytes(n) > MessageLength(n)
    ensures var v := Value(message);
      Align(if v >= p then v else v + n, Some(n)) == if v >= p then Some(message) else None
  {
    hide Value, NumBytes, NumBits, Spell;
    var v := Value(message);
    if v >= p {
      SpellOfValue(message);
    } else {
      NumBytesMonotone(n, v + n);
    }
  }

  lemma {:induction false} CipherText(c: nat, n: nat)
    requires c <= n && NumBits(n) < 65536
    ensures var r := MpiAt(UrlDecode(UrlEncode(Mpi(c))), 0); r.Some? && r.value.0 == c
  {
    NumBitsMonotone(c, n);
    UrlDecodeOfEncode(Mpi(c));
    MpiRoundTrip([], c, []);
    assert [] + Mpi(c) + [] == Mpi(c);
  }

  lemma {:induction false} NumBitsMonotone(m: nat, n: nat)
    requires m <= n
    ensures NumBits(m) <= NumBits(n)
  {
    if m > 0 {
      NumBitsBound(m);
      NumBitsBound(n);
      PowOrder(2, NumBits(m) - 1, NumBits(n));
    }
  }

  /** The numbers of a list, one after the other */
  lemma ListOfTwo(a: nat, b: nat)
    ensures MpiList([a, b]) == Mpi(a) + Mpi(b)
  {
    MpiListSnoc([], a);
    MpiListSnoc([a], b);
    assert [] + [a] == [a] && [a] + [b] == [a, b] && MpiList([]) + Mpi(a) == Mpi(a);
  }

  lemma ListOfFour(a: nat, b: nat, c: nat, d: nat)
    ensures MpiList([a, b, c, d]) == Mpi(a) + Mpi(b) + Mpi(c) + Mpi(d)
  {
    ListOfTwo(a, b);
    MpiListSnoc([a, b], c);
    assert [a, b] + [c] == [a, b, c];
    MpiListSnoc([a, b, c], d);
    assert [a, b, c] + [d] == [a, b, c, d];
  }

  // ---- The key object ----

  /** A growable string (`GString`). */
  class Buffer {
    var str: bytes

    constructor ()
      ensures str == []
    {
      str := [];
    }

    /** `append_mpi_from_bn`: grow the buffer, then fill in header and number. A missing number
        appends nothing. */
    method AppendMpi(n: Option<nat>)
      modifies this
      ensures str == old(str) + if n.Some? then Mpi(n.value) else []
    {
      if n.None? {
        return;
      }
      var size := NumBytes(n.value);
      var off := |str|;
      str := str + Zeros(size + 2);
      var bits := NumBits(n.value) % 65536;
      str := str[off := bits / 256][off + 1 := bits % 256];
      var spelled := Spell(n.value);
      str := str[..off + 2] + spelled + str[off + 2 + size..];
    }

    /** Random padding up to whole blocks */
    method PadBlocks(random: nat -> byte)
      modifies this
      ensures str == old(str) + RandomBytes(random, PadLength(|old(str)|)) && |str| % 16 == 0
      ensures str == [] <==> old(str) == []
    {
      var len := |str|;
      var pad := if len % 16 != 0 then 16 - len % 16 else 0;
      str := str + RandomBytes(random, pad);
    }
  }

  class MegaRsaKey {
    var p: Option<nat>
    var q: Option<nat>
    var d: Option<nat>
    var u: Option<nat>
    var m: Option<nat>
    var e: Option<nat>

    constructor ()
      ensures p == q == d == u == m == e == None
    {
      p, q, d, u, m, e := None, None, None, None, None, None;
    }

    ghost predicate Holds(ns: seq<nat>)
      reads this
    {
      && p == (if |ns| > 0 then Some(ns[0]) else None)
      && q == (if |ns| > 1 then Some(ns[1]) else None)
      && d == (if |ns| > 2 then Some(ns[2]) else None)
      && u == (if |ns| > 3 then Some(ns[3]) else None)
    }

    /** `mega_rsa_key_load_pubk`: the old key is gone even when loading fails. */
    method LoadPubk(pubk: string) returns (ok: bool)
      modifies this`m, this`e
      ensures var ns := ReadNumbers(UrlDecode(pubk), 0, 2);
        && ok == (|ns| == 2)
        && m == (if |ns| > 0 then Some(ns[0]) else None)
        && e == (if |ns| > 1 then Some(ns[1]) else None)
    {
      m, e := None, None;
      var data := Base64UrlDecode(pubk);
      var r := MpiAt(data, 0);
      if r.None? {
        return false;
      }
      m := Some(r.value.0);
      r := MpiAt(data, r.value.1);
      if r.None? {
        return false;
      }
      e := Some(r.value.0);
      ok := true;
    }

    /** `mega_rsa_key_load_enc_privk` */
    method LoadEncPrivk(aes: Cipher, key: Block, privk: string) returns (ok: bool)
      modifies this`p, this`q, this`d, this`u
      ensures var plain := DecryptText(aes, key, privk);
        var ns := if plain.Some? then ReadNumbers(plain.value, 0, 4) else [];
        ok == (|ns| == 4) && Holds(ns)
    {
      p, q, d, u := None, None, None, None;
      var cipher := Base64UrlDecode(privk);
      if |cipher| == 0 || |cipher| % 16 != 0 {
        return false;
      }
      var data := EcbDecrypt(aes, key, cipher);
      ghost var ns := ReadNumbers(data, 0, 4);
      var r := MpiAt(data, 0);
      if r.None? {
        return false;
      }
      p := Some(r.value.0);
      ghost var ns1 := ReadNumbers(data, r.value.1, 3);
      assert ns == [p.value] + ns1;
      r := MpiAt(data, r.value.1);
      if r.None? {
        return false;
      }
      q := Some(r.value.0);
      ghost var ns2 := ReadNumbers(data, r.value.1, 2);
      assert ns1 == [q.value] + ns2;
      r := MpiAt(data, r.value.1);
      if r.None? {
        return false;
      }
      d := Some(r.value.0);
      ghost var ns3 := ReadNumbers(data, r.value.1, 1);
      assert ns2 == [d.value] + ns3;
      r := MpiAt(data, r.value.1);
      if r.None? {
        return false;
      }
      u := Some(r.value.0);
      assert ns3 == [u.value];
      ok := true;
    }

    /** `mega_rsa_key_get_pubk`: a missing number leaves nothing in the text. */
    method GetPubk() returns (r: Option<string>)
      ensures var ns := One(m) + One(e); r == if ns == [] then None else Some(UrlEncode(MpiList(ns)))
      ensures m.Some? && e.Some? ==> r == Some(PublicText(m.value, e.value))
    {
      var data := new Buffer();
      data.AppendMpi(m);
      MpiListOne([], m);
      data.AppendMpi(e);
      MpiListOne([] + One(m), e);
      assert [] + One(m) == One(m);
      MpiListEmpty(One(m) + One(e));
      r := Base64UrlEncode(data.str);
      assert m.Some? && e.Some? ==> One(m) + One(e) == [m.value, e.value];
    }

    ghost function PrivateNumbers(): seq<nat>
      reads this
    {
      One(p) + One(q) + One(d) + One(u)
    }

    /** The numbers of the private key, one after the other */
    method PrivateData() returns (data: Buffer)
      ensures fresh(data) && data.str == MpiList(PrivateNumbers())
    {
      data := new Buffer();
      data.AppendMpi(p);
      MpiListOne([], p);
      assert [] + One(p) == One(p);
      data.AppendMpi(q);
      MpiListOne(One(p), q);
      data.AppendMpi(d);
      MpiListOne(One(p) + One(q), d);
      data.AppendMpi(u);
      MpiListOne(One(p) + One(q) + One(d), u);
    }

    /** `mega_rsa_key_get_enc_privk`: `random` supplies the padding bytes; a missing number leaves nothing in
        the text. */
    method GetEncPrivk(aes: Cipher, key: Block, random: nat -> byte) returns (r: Option<string>)
      ensures var ns := One(p) + One(q) + One(d) + One(u);
        r == if ns == [] then None else Some(PrivateText(aes, key, ns, RandomBytes(random, PadLength(|MpiList(ns)|))))
    {
      var data := PrivateData();
      MpiListEmpty(PrivateNumbers());
      data.PadBlocks(random);
      if |data.str| == 0 {
        return None;
      }
      r := Base64UrlEncode(EcbEncrypt(aes, key, data.str));
    }

    /** `mega_rsa_key_encrypt`: `random` supplies the bytes that fill up the message. */
    method Encrypt(data: bytes, random: nat -> byte) returns (r: Option<string>)
      requires data != [] ==> m.Some? && e.Some? && NumBits(m.value) >= 8
      ensures r.Some? <==> data != [] && |data| <= NumBits(m.value) / 8 - 1
      ensures r.Some? ==>
        r == Some(EncryptMessage(data + RandomBytes(random, MessageLength(m.value) - |data|), e.value, m.value))
    {
      if |data| == 0 {
        return None;
      }
      var length := NumBits(m.value) / 8 - 1;
      if |data| > length {
        return None;
      }
      var message := data + RandomBytes(random, length - |data|);
      assert m.value > 0;
      var c := RsaEncrypt(Value(message), e.value, m.value);
      r := Base64UrlEncode(Mpi(c));
    }

    /** `mega_rsa_key_decrypt` */
    method Decrypt(cipher: string) returns (r: Option<bytes>)
      requires p.Some? ==> p.value > 1
      requires q.Some? ==> q.value > 1
      ensures r == if p.Some? && q.Some? && d.Some? && u.Some?
        then DecryptMessage(cipher, d.value, p.value, q.value, u.value, m) else None
    {
      var length := if m.Some? then NumBits(m.value) / 8 - 1 else -1;
      var raw := Base64UrlDecode(cipher);
      var c := MpiAt(raw, 0);
      if c.None? || p.None? || q.None? || d.None? || u.None? {
        return None;
      }
      var x := RsaDecrypt(c.value.0, d.value, p.value, q.value, u.value);
      if length < 0 {
        length := NumBytes(x);
      }
      if length < NumBytes(x) {
        return None;
      }
      r := Some(Zeros(length - NumBytes(x)) + Spell(x));
    }
  }

  predicate FitsAll(ns: seq<nat>)
  {
    forall n | n in ns :: NumBits(n) < 65536
  }

  /** Exporting a key and loading the text into any key object recovers the same numbers. */
  method ExportImport(source: MegaRsaKey, target: MegaRsaKey, aes: Cipher, key: Block, random: nat -> byte)
    returns (ok: bool)
    requires Lawful(aes) && source != target
    requires source.p.Some? && source.q.Some? && source.d.Some? && source.u.Some? && source.m.Some? && source.e.Some?
    requires FitsAll([source.p.value, source.q.value, source.d.value, source.u.value])
    requires FitsAll([source.m.value, source.e.value])
    modifies target
    ensures ok
    ensures target.p == source.p && target.q == source.q && target.d == source.d && target.u == source.u
    ensures target.m == source.m && target.e == source.e
  {
    var pub := source.GetPubk();
    var priv := source.GetEncPrivk(aes, key, random);
    var ok1 := target.LoadPubk(pub.value);
    var ok2 := target.LoadEncPrivk(aes, key, priv.value);
    PublicRoundTrip(source.m.value, source.e.value);
    ghost var ns := [source.p.value, source.q.value, source.d.value, source.u.value];
    assert source.PrivateNumbers() == ns;
    PrivateRoundTrip(aes, key, ns, RandomBytes(random, PadLength(|MpiList(ns)|)));
    ok := ok1 && ok2;
  }

  /** Data encrypted with one key object and decrypted with another: the message comes back whole, the data
      at its front, when its number is at least p, and is refused when its number is below p. */
  method EncryptThenDecrypt(public: MegaRsaKey, private: MegaRsaKey, data: bytes, random: nat -> byte)
    returns (r: Option<bytes>)
    requires public.m.Some? && public.e.Some? && private.m == public.m
    requires private.p.Some? && private.q.Some? && private.d.Some? && private.u.Some?
    requires KeyPair(private.p.value, private.q.value, public.m.value, private.d.value, private.u.value, public.e.value)
    requires 8 <= NumBits(public.m.value) < 65536 && 0 < |data| <= MessageLength(public.m.value)
    ensures var message := data + RandomBytes(random, MessageLength(public.m.value) - |data|);
      r == if Value(message) >= private.p.value then Some(message) else None
    ensures r.Some? ==> data <= r.value
  {
    var c := public.Encrypt(data, random);
    r := private.Decrypt(c.value);
    ghost var message := data + RandomBytes(random, MessageLength(public.m.value) - |data|);
    MessageRoundTrip(message, private.p.value, private.q.value, public.m.value, private.d.value, private.u.value,
        public.e.value);
  }
}
