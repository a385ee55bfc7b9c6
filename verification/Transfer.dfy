/** File transfer (oldmega.c): upload encrypts in counter mode and packs the key, nonce and MAC into
    a node key; download unpacks it, decrypts and checks the MAC. */
module Transfer {
  import opened Bytes
  import opened Aes
  import opened AesKey
  import opened ChunkedMac

  type Half = b: bytes | |b| == 8 witness Zeros(8)

  // ---- Node keys ----

  /** The n-th 32-bit word of a buffer (`DW`). */
  function Word(b: bytes, n: nat): (w: bytes)
    requires 4 * n + 4 <= |b|
    ensures |w| == 4
  {
    b[4 * n..4 * n + 4]
  }

  /** The two halves of a MAC, each folded to a word (`chunked_cbc_mac_finish8`). */
  function Fold8(mac: Block): Half
  {
    XorBytes(Word(mac, 0), Word(mac, 1)) + XorBytes(Word(mac, 2), Word(mac, 3))
  }

  /** `pack_node_key` */
  function PackNodeKey(key: Block, nonce: Half, mac: Block): (r: bytes)
    ensures |r| == 32
  {
    XorBytes(Word(key, 0), Word(nonce, 0))
    + XorBytes(Word(key, 1), Word(nonce, 1))
    + XorBytes(XorBytes(Word(key, 2), Word(mac, 0)), Word(mac, 1))
    + XorBytes(XorBytes(Word(key, 3), Word(mac, 2)), Word(mac, 3))
    + Word(nonce, 0) + Word(nonce, 1)
    + XorBytes(Word(mac, 0), Word(mac, 1))
    + XorBytes(Word(mac, 2), Word(mac, 3))
  }

  /** `unpack_node_key` */
  function UnpackKey(nk: bytes): Block
    requires |nk| == 32
  {
    XorBytes(Word(nk, 0), Word(nk, 4)) + XorBytes(Word(nk, 1), Word(nk, 5))
    + XorBytes(Word(nk, 2), Word(nk, 6)) + XorBytes(Word(nk, 3), Word(nk, 7))
  }

  function UnpackNonce(nk: bytes): Half
    requires |nk| == 32
  {
    Word(nk, 4) + Word(nk, 5)
  }

  function UnpackMac(nk: bytes): Half
    requires |nk| == 32
  {
    Word(nk, 6) + Word(nk, 7)
  }

  ghost predicate PackedWords(nk: bytes, key: Block, nonce: Half, mac: Block)
    requires |nk| == 32
  {
    && Word(nk, 0) == XorBytes(Word(key, 0), Word(nonce, 0))
    && Word(nk, 1) == XorBytes(Word(key, 1), Word(nonce, 1))
    && Word(nk, 2) == XorBytes(XorBytes(Word(key, 2), Word(mac, 0)), Word(mac, 1))
    && Word(nk, 3) == XorBytes(XorBytes(Word(key, 3), Word(mac, 2)), Word(mac, 3))
    && Word(nk, 4) == Word(nonce, 0) && Word(nk, 5) == Word(nonce, 1)
    && Word(nk, 6) == XorBytes(Word(mac, 0), Word(mac, 1))
    && Word(nk, 7) == XorBytes(Word(mac, 2), Word(mac, 3))
  }

  lemma WordsOfPacked(key: Block, nonce: Half, mac: Block)
    ensures PackedWords(PackNodeKey(key, nonce, mac), key, nonce, mac)
  {
  }

  lemma CancelTwo(a: bytes, b: bytes, c: bytes)
    requires |a| == |b| == |c|
    ensures XorBytes(XorBytes(XorBytes(a, b), c), XorBytes(b, c)) == a
  {
    forall i | 0 <= i < |a| ensures Xor(Xor(Xor(a[i], b[i]), c[i]), Xor(b[i], c[i])) == a[i] {
      XorAssociates(a[i], b[i], c[i]);
      XorCancels(a[i], Xor(b[i], c[i]));
    }
  }

  /** Unpacking a packed node key gives back the key, the nonce and the folded MAC. */
  lemma UnpackOfPack(key: Block, nonce: Half, mac: Block)
    ensures var nk := PackNodeKey(key, nonce, mac);
      UnpackKey(nk) == key && UnpackNonce(nk) == nonce && UnpackMac(nk) == Fold8(mac)
  {
    WordsOfPacked(key, nonce, mac);
    UnpackKeyWords(PackNodeKey(key, nonce, mac), key, nonce, mac);
    assert Word(nonce, 0) + Word(nonce, 1) == nonce;
  }

  lemma UnpackKeyWords(nk: bytes, key: Block, nonce: Half, mac: Block)
    requires |nk| == 32 && PackedWords(nk, key, nonce, mac)
    ensures UnpackKey(nk) == key
  {
    XorBytesCancels(Word(key, 0), Word(nonce, 0));
    XorBytesCancels(Word(key, 1), Word(nonce, 1));
    CancelTwo(Word(key, 2), Word(mac, 0), Word(mac, 1));
    CancelTwo(Word(key, 3), Word(mac, 2), Word(mac, 3));
    assert Word(key, 0) + Word(key, 1) + Word(key, 2) + Word(key, 3) == key;
  }

  /** Where the parts are in a node key: the nonce and the folded MAC in the second half, and in the first half the key
      mixed with them byte by byte. */
  lemma NodeKeyLayout(key: Block, nonce: Half, mac: Block)
    ensures var nk := PackNodeKey(key, nonce, mac);
      && nk[16..24] == nonce
      && nk[24..28] == XorBytes(mac[0..4], mac[4..8]) && nk[28..32] == XorBytes(mac[8..12], mac[12..16])
      && nk[..16] == XorBytes(key, nk[16..])
  {
    var nk := PackNodeKey(key, nonce, mac);
    WordsOfPacked(key, nonce, mac);
    assert Word(nk, 4) + Word(nk, 5) == nonce;
    assert nk[24..28] == Word(nk, 6) && nk[28..32] == Word(nk, 7);
    forall i | 0 <= i < 16 ensures nk[i] == Xor(key[i], nk[16 + i]) {
      MixedByte(nk, key, nonce, mac, i);
    }
  }

  lemma MixedByte(nk: bytes, key: Block, nonce: Half, mac: Block, i: nat)
    requires |nk| == 32 && PackedWords(nk, key, nonce, mac) && i < 16
    ensures nk[i] == Xor(key[i], nk[16 + i])
  {
    var w, j := i / 4, i % 4;
    assert nk[i] == Word(nk, w)[j] && nk[16 + i] == Word(nk, w + 4)[j] && key[i] == Word(key, w)[j];
    if w == 2 {
      XorAssociates(key[i], Word(mac, 0)[j], Word(mac, 1)[j]);
    } else if w == 3 {
      XorAssociates(key[i], Word(mac, 2)[j], Word(mac, 3)[j]);
    }
  }

  /** What is read from any node key */
  lemma UnpackedParts(nk: bytes)
    requires |nk| == 32
    ensures UnpackKey(nk) == XorBytes(nk[..16], nk[16..])
    ensures UnpackNonce(nk) == nk[16..24] && UnpackMac(nk) == nk[24..32]
  {
    forall i | 0 <= i < 16 ensures UnpackKey(nk)[i] == Xor(nk[i], nk[16 + i]) {
      var w, j := i / 4, i % 4;
      assert nk[i] == Word(nk, w)[j] && nk[16 + i] == Word(nk, w + 4)[j];
    }
  }

  // ---- One-shot definition of a transfer ----

  function StartCounter(nonce: Half): Block
  {
    nonce + Zeros(8)
  }

  /** `chunked_cbc_mac_init8` doubles the nonce into the MAC's IV. */
  function MacIv(nonce: Half): Block
  {
    nonce + nonce
  }

  function Ciphertext(aes: Cipher, key: Block, nonce: Half, file: bytes): bytes
  {
    CtrFrom(aes, key, StartCounter(nonce), 0, file)
  }

  function NodeKeyOf(aes: Cipher, key: Block, nonce: Half, file: bytes): (r: bytes)
    ensures |r| == 32
  {
    PackNodeKey(key, nonce, MetaMac(aes, key, MacIv(nonce), file))
  }

  function Plaintext(aes: Cipher, nk: bytes, cipher: bytes): bytes
    requires |nk| == 32
  {
    CtrFrom(aes, UnpackKey(nk), StartCounter(UnpackNonce(nk)), 0, cipher)
  }

  predicate MacMatches(aes: Cipher, nk: bytes, plain: bytes)
    requires |nk| == 32
  {
    UnpackMac(nk) == Fold8(MetaMac(aes, UnpackKey(nk), MacIv(UnpackNonce(nk)), plain))
  }

  /** Downloading an upload gives the file back, and the MAC check passes. */
  lemma DownloadOfUpload(aes: Cipher, key: Block, nonce: Half, file: bytes)
    ensures var nk := NodeKeyOf(aes, key, nonce, file);
      Plaintext(aes, nk, Ciphertext(aes, key, nonce, file)) == file && MacMatches(aes, nk, file)
  {
    UnpackOfPack(key, nonce, MetaMac(aes, key, MacIv(nonce), file));
    CtrInvolutive(aes, key, StartCounter(nonce), 0, file);
  }

  /** Byte i of a file is mixed with byte i % 16 of an encrypted block: the nonce, and the number i / 16 in eight bytes,
      most significant first. */
  lemma CipherByte(aes: Cipher, key: Block, nonce: Half, file: bytes, i: nat, counter: Block)
    requires i < |file| && counter[..8] == nonce && Value(counter[8..]) == i / 16
    ensures Ciphertext(aes, key, nonce, file)[i] == Xor(file[i], aes.encrypt(key, counter)[i % 16])
  {
    ValueBound(counter[8..]);
    SameLengthSameValue(BigEndian64(i / 16), counter[8..]);
    assert counter == counter[..8] + counter[8..];
    CounterSeek(nonce, i / 16);
    ValueOfZeros(8, []);
    assert Zeros(8) + [] == Zeros(8);
    SameLengthSameValue(BigEndian64(0), Zeros(8));
  }

  // ---- The streaming code ----

  /** What the two directions share: a counter stream and a MAC over the plaintext. */
  class TransferData {
    const ctr: CtrStream
    const mac: MegaChunkedCbcMac

    ghost function Parts(): set<object>
      reads this
    {
      {ctr, mac, mac.chunkMac, mac.metaMac}
    }

    /** Both streams are set up for this key and nonce and have taken in this plaintext. */
    ghost predicate Runs(aes: Cipher, key: Block, nonce: Half, plain: bytes)
      reads this, Parts()
    {
      && ctr.Valid() && mac.Valid()
      && ctr.aes == mac.aes == aes && ctr.key == mac.key == key
      && ctr.start == StartCounter(nonce) && mac.chunkMacIv == MacIv(nonce)
      && mac.absorbed == plain && ctr.done == |plain|
    }

    constructor (aes: Cipher, key: Block, nonce: Half)
      ensures Runs(aes, key, nonce, []) && fresh(Parts())
    {
      ctr := new CtrStream(aes, key, nonce + Zeros(8));
      mac := new MegaChunkedCbcMac(aes);
      new;
      mac.Setup(key, nonce + nonce);
    }

    /** `put_process_data` for the bytes read from the file */
    method PutProcess(data: bytes, ghost aes: Cipher, ghost key: Block, ghost nonce: Half, ghost plain: bytes)
      returns (out: bytes)
      requires Runs(aes, key, nonce, plain)
      modifies Parts()
      ensures Runs(aes, key, nonce, plain + data)
      ensures Ciphertext(aes, key, nonce, plain + data) == Ciphertext(aes, key, nonce, plain) + out
    {
      CtrConcat(aes, key, StartCounter(nonce), 0, plain, data);
      out := [];
      if |data| > 0 {
        out := ctr.Process(data);
        mac.Update(data);
      } else {
        assert plain + data == plain;
      }
    }

    /** `get_process_data` for the bytes received: counter mode decrypts by the same operation. */
    method GetProcess(data: bytes, ghost aes: Cipher, ghost key: Block, ghost nonce: Half, ghost cipher: bytes)
      returns (out: bytes)
      requires Runs(aes, key, nonce, Ciphertext(aes, key, nonce, cipher))
      modifies Parts()
      ensures Runs(aes, key, nonce, Ciphertext(aes, key, nonce, cipher + data))
      ensures Ciphertext(aes, key, nonce, cipher + data) == Ciphertext(aes, key, nonce, cipher) + out
    {
      CtrConcat(aes, key, StartCounter(nonce), 0, cipher, data);
      out := ctr.Process(data);
      mac.Update(out);
    }

    /** All pieces of a file, as they come */
    method PutAll(pieces: seq<bytes>, ghost aes: Cipher, ghost key: Block, ghost nonce: Half) returns (cipher: bytes)
      requires Runs(aes, key, nonce, [])
      modifies Parts()
      ensures Runs(aes, key, nonce, Join(pieces)) && cipher == Ciphertext(aes, key, nonce, Join(pieces))
    {
      cipher := [];
      var i := 0;
      while i < |pieces|
        invariant 0 <= i <= |pieces|
        invariant Runs(aes, key, nonce, Join(pieces[..i]))
        invariant cipher == Ciphertext(aes, key, nonce, Join(pieces[..i]))
      {
        var out := PutProcess(pieces[i], aes, key, nonce, Join(pieces[..i]));
        JoinSnoc(pieces, i);
        cipher := cipher + out;
        i := i + 1;
      }
      assert pieces[..i] == pieces;
    }

    /** All pieces of a ciphertext, as they come */
    method GetAll(pieces: seq<bytes>, ghost aes: Cipher, ghost key: Block, ghost nonce: Half) returns (plain: bytes)
      requires Runs(aes, key, nonce, [])
      modifies Parts()
      ensures Runs(aes, key, nonce, plain) && plain == Ciphertext(aes, key, nonce, Join(pieces))
    {
      plain := [];
      var i := 0;
      while i < |pieces|
        invariant 0 <= i <= |pieces|
        invariant Runs(aes, key, nonce, plain)
        invariant plain == Ciphertext(aes, key, nonce, Join(pieces[..i]))
      {
        var out := GetProcess(pieces[i], aes, key, nonce, Join(pieces[..i]));
        JoinSnoc(pieces, i);
        plain := plain + out;
        i := i + 1;
      }
      assert pieces[..i] == pieces;
    }

    /** The MAC of the plaintext */
    method FinishMac(ghost aes: Cipher, ghost key: Block, ghost nonce: Half, ghost plain: bytes) returns (meta: Block)
      requires Runs(aes, key, nonce, plain)
      modifies Parts()
      ensures meta == MetaMac(aes, key, MacIv(nonce), plain)
    {
      meta := mac.Finish();
    }
  }

  /** The streaming part of `mega_session_put`: the file arrives in any pieces. */
  method Upload(aes: Cipher, key: Block, nonce: Half, pieces: seq<bytes>) returns (cipher: bytes, nodeKey: bytes)
    ensures cipher == Ciphertext(aes, key, nonce, Join(pieces))
    ensures nodeKey == NodeKeyOf(aes, key, nonce, Join(pieces))
    ensures var mac := MetaMac(aes, key, nonce + nonce, Join(pieces));
      && nodeKey[16..24] == nonce && nodeKey[..16] == XorBytes(key, nodeKey[16..])
      && nodeKey[24..28] == XorBytes(mac[0..4], mac[4..8]) && nodeKey[28..32] == XorBytes(mac[8..12], mac[12..16])
  {
    var data := new TransferData(aes, key, nonce);
    cipher := data.PutAll(pieces, aes, key, nonce);
    var meta := data.FinishMac(aes, key, nonce, Join(pieces));
    nodeKey := PackNodeKey(key, nonce, meta);
    NodeKeyLayout(key, nonce, meta);
  }

  method Decrypt(aes: Cipher, key: Block, nonce: Half, pieces: seq<bytes>) returns (plain: bytes, mac: Half)
    ensures plain == Ciphertext(aes, key, nonce, Join(pieces))
    ensures mac == Fold8(MetaMac(aes, key, MacIv(nonce), plain))
  {
    var data := new TransferData(aes, key, nonce);
    plain := data.GetAll(pieces, aes, key, nonce);
    var meta := data.FinishMac(aes, key, nonce, plain);
    mac := Fold8(meta);
  }

  /** When the MAC test passes, in terms of the bytes of the node key; for an empty file, when the stored words are
      zero. */
  lemma MacMeaning(aes: Cipher, nk: bytes, plain: bytes)
    requires |nk| == 32
    ensures var nonce := nk[16..24];
      var mac := MetaMac(aes, XorBytes(nk[..16], nk[16..]), nonce + nonce, plain);
      MacMatches(aes, nk, plain) <==>
        nk[24..28] == XorBytes(mac[0..4], mac[4..8]) && nk[28..32] == XorBytes(mac[8..12], mac[12..16])
    ensures plain == [] ==> (MacMatches(aes, nk, plain) <==> nk[24..32] == Zeros(8))
  {
    UnpackedParts(nk);
    var nonce := nk[16..24];
    var mac := MetaMac(aes, XorBytes(nk[..16], nk[16..]), nonce + nonce, plain);
    SplitHalf(nk[24..32], XorBytes(mac[0..4], mac[4..8]), XorBytes(mac[8..12], mac[12..16]));
    assert nk[24..32][..4] == nk[24..28] && nk[24..32][4..] == nk[28..32];
    if plain == [] {
      MacOfOneChunk(aes, XorBytes(nk[..16], nk[16..]), nonce + nonce, plain);
      XorZero(0);
      assert Fold8(Zeros(16)) == Zeros(8);
    }
  }

  lemma SplitHalf(h: bytes, a: bytes, b: bytes)
    requires |h| == 8 && |a| == 4
    ensures h == a + b <==> h[..4] == a && h[4..] == b
  {
    assert h == h[..4] + h[4..];
    assert (a + b)[..4] == a && (a + b)[4..] == b;
  }

  /** The streaming part of `mega_session_get`: the ciphertext arrives in any pieces. */
  method Download(aes: Cipher, nodeKey: bytes, pieces: seq<bytes>) returns (plain: bytes, ok: bool)
    requires |nodeKey| == 32
    ensures plain == Plaintext(aes, nodeKey, Join(pieces))
    ensures ok == MacMatches(aes, nodeKey, plain)
    ensures var nonce := nodeKey[16..24];
      var mac := MetaMac(aes, XorBytes(nodeKey[..16], nodeKey[16..]), nonce + nonce, plain);
      ok <==> nodeKey[24..28] == XorBytes(mac[0..4], mac[4..8]) && nodeKey[28..32] == XorBytes(mac[8..12], mac[12..16])
    ensures Join(pieces) == [] ==> plain == [] && (ok <==> nodeKey[24..32] == Zeros(8))
  {
    MacMeaning(aes, nodeKey, Plaintext(aes, nodeKey, Join(pieces)));
    var mac;
    plain, mac := Decrypt(aes, UnpackKey(nodeKey), UnpackNonce(nodeKey), pieces);
    ok := UnpackMac(nodeKey) == mac;
  }

  /** Whatever pieces the file is read in and whatever pieces the ciphertext arrives in, the download
      is the file and its MAC check passes. */
  method UploadThenDownload(aes: Cipher, key: Block, nonce: Half, upPieces: seq<bytes>, cuts: seq<nat>)
    returns (plain: bytes, ok: bool)
    ensures plain == Join(upPieces) && ok
  {
    var cipher, nodeKey := Upload(aes, key, nonce, upPieces);
    CutJoins(cipher, cuts);
    plain, ok := Download(aes, nodeKey, Cut(cipher, cuts));
    DownloadOfUpload(aes, key, nonce, Join(upPieces));
  }

  /** Data cut at the given piece lengths, with the rest as the last piece. */
  function Cut(d: bytes, lengths: seq<nat>): seq<bytes>
    decreases |lengths|
  {
    if lengths == [] then [d]
    else
      var last := lengths[|lengths| - 1];
      var k := if last < |d| then last else |d|;
      Cut(d[..|d| - k], lengths[..|lengths| - 1]) + [d[|d| - k..]]
  }

  lemma {:induction false} CutJoins(d: bytes, lengths: seq<nat>)
    ensures Join(Cut(d, lengths)) == d
    decreases |lengths|
  {
    if lengths == [] {
      assert [d][..0] == [];
      assert Join([d]) == [] + d;
    } else {
      var last := lengths[|lengths| - 1];
      var k := if last < |d| then last else |d|;
      var front := Cut(d[..|d| - k], lengths[..|lengths| - 1]);
      CutJoins(d[..|d| - k], lengths[..|lengths| - 1]);
      assert (front + [d[|d| - k..]])[..|front|] == front;
    }
  }
}
