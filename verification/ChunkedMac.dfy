/** The chunked CBC-MAC of file contents: the object that takes data in any pieces
    (mega-chunked-cbc-mac.c) against the one-shot definition over the whole file. */
module ChunkedMac {
  import opened Bytes
  import opened Aes

  // ---- One-shot definition ----

  const UNIT: nat := 131072

  /** Chunks grow from 128 KiB to 1 MiB and stay there. */
  function ChunkSize(idx: nat): (r: nat)
    ensures r > 0 && r % 16 == 0
  {
    (if idx < 8 then idx + 1 else 8) * UNIT
  }

  function ChunkOff(idx: nat): (r: nat)
    ensures r % 16 == 0
  {
    if idx == 0 then 0 else ChunkOff(idx - 1) + ChunkSize(idx - 1)
  }

  function Mix(aes: Cipher, key: Block, a: Block, b: Block): Block
  {
    aes.encrypt(key, XorBlock(a, b))
  }

  /** CBC-MAC of whole blocks. */
  function CbcMac(aes: Cipher, key: Block, iv: Block, d: bytes): Block
    requires |d| % 16 == 0
  {
    if d == [] then iv else Mix(aes, key, CbcMac(aes, key, iv, d[..|d| - 16]), d[|d| - 16..])
  }

  function ZeroExtend(d: bytes): (r: bytes)
    ensures |r| % 16 == 0
  {
    d + Zeros((16 - |d| % 16) % 16)
  }

  function ChunkMac(aes: Cipher, key: Block, iv: Block, chunk: bytes): Block
  {
    CbcMac(aes, key, iv, ZeroExtend(chunk))
  }

  /** Chunk MACs folded into one block, from chunk number `idx` on. */
  function FoldChunks(aes: Cipher, key: Block, iv: Block, meta: Block, idx: nat, d: bytes): Block
    decreases |d|
  {
    if d == [] then meta
    else
      var n := if ChunkSize(idx) < |d| then ChunkSize(idx) else |d|;
      FoldChunks(aes, key, iv, Mix(aes, key, meta, ChunkMac(aes, key, iv, d[..n])), idx + 1, d[n..])
  }

  /** The MAC of a file. */
  function MetaMac(aes: Cipher, key: Block, iv: Block, d: bytes): Block
  {
    FoldChunks(aes, key, iv, ZERO_IV, 0, d)
  }

  // ---- What the streaming state stands for ----

  /** The block state after absorbing d: whole blocks are encrypted, the rest is only mixed in. */
  function Partial(aes: Cipher, key: Block, iv: Block, d: bytes): Block
  {
    var k := |d| - |d| % 16;
    XorBlock(CbcMac(aes, key, iv, d[..k]), d[k..] + Zeros(16 - |d| % 16))
  }

  /** The fold over the first k chunks. */
  function Closed(aes: Cipher, key: Block, iv: Block, d: bytes, k: nat): Block
    requires ChunkOff(k) <= |d|
  {
    if k == 0 then ZERO_IV
    else Mix(aes, key, Closed(aes, key, iv, d, k - 1), ChunkMac(aes, key, iv, d[ChunkOff(k - 1)..ChunkOff(k)]))
  }

  lemma {:induction false} ClosedPrefix(aes: Cipher, key: Block, iv: Block, d: bytes, e: bytes, k: nat)
    requires ChunkOff(k) <= |d|
    ensures Closed(aes, key, iv, d + e, k) == Closed(aes, key, iv, d, k)
  {
    if k > 0 {
      ClosedPrefix(aes, key, iv, d, e, k - 1);
      assert (d + e)[ChunkOff(k - 1)..ChunkOff(k)] == d[ChunkOff(k - 1)..ChunkOff(k)];
    }
  }

  /** The one-shot fold can start after any number of closed chunks. */
  lemma {:induction false} FoldAfterClosed(aes: Cipher, key: Block, iv: Block, d: bytes, k: nat)
    requires ChunkOff(k) <= |d|
    ensures MetaMac(aes, key, iv, d) == FoldChunks(aes, key, iv, Closed(aes, key, iv, d, k), k, d[ChunkOff(k)..])
  {
    if k > 0 {
      FoldAfterClosed(aes, key, iv, d, k - 1);
      var rest, n := d[ChunkOff(k - 1)..], ChunkSize(k - 1);
      assert rest[..n] == d[ChunkOff(k - 1)..ChunkOff(k)] && rest[n..] == d[ChunkOff(k)..];
    } else {
      assert d[0..] == d;
    }
  }

  lemma XorBlockZeros(a: Block)
    ensures XorBlock(a, Zeros(16)) == a
  {
    forall i | 0 <= i < 16 ensures XorBlock(a, Zeros(16))[i] == a[i] {
      XorZero(a[i]);
    }
  }

  lemma {:induction false} PartialWhole(aes: Cipher, key: Block, iv: Block, d: bytes)
    requires |d| % 16 == 0
    ensures Partial(aes, key, iv, d) == CbcMac(aes, key, iv, d)
  {
    assert d[..|d|] == d && d[|d|..] + Zeros(16) == Zeros(16);
    XorBlockZeros(CbcMac(aes, key, iv, d));
  }

  /** The block state with one more byte mixed in at position i, encrypted when that fills it. */
  function StepBlock(aes: Cipher, key: Block, s: Block, i: nat, b: byte): Block
    requires i < 16
  {
    var t: Block := s[i := Xor(s[i], b)];
    if i == 15 then aes.encrypt(key, t) else t
  }


  lemma PartialStep(aes: Cipher, key: Block, iv: Block, d: bytes, b: byte)
    ensures Partial(aes, key, iv, d + [b]) == StepBlock(aes, key, Partial(aes, key, iv, d), |d| % 16, b)
  {
    var i := |d| % 16;
    var whole, tail := d[..|d| - i], d[|d| - i..];
    assert d == whole + tail;
    assert d + [b] == whole + (tail + [b]);
    MixIn(CbcMac(aes, key, iv, whole), tail, b);
    if i == 15 {
      PartialFull(aes, key, iv, whole, tail + [b]);
    } else {
      PartialSplit(aes, key, iv, whole, tail + [b]);
    }
  }

  lemma {:induction false} PartialSplit(aes: Cipher, key: Block, iv: Block, whole: bytes, tail: bytes)
    requires |whole| % 16 == 0 && |tail| < 16
    ensures Partial(aes, key, iv, whole + tail) == XorBlock(CbcMac(aes, key, iv, whole), tail + Zeros(16 - |tail|))
  {
    var d := whole + tail;
    assert |d| % 16 == |tail|;
    assert d[..|whole|] == whole && d[|whole|..] == tail;
  }

  lemma {:induction false} PartialFull(aes: Cipher, key: Block, iv: Block, whole: bytes, last: Block)
    requires |whole| % 16 == 0
    ensures Partial(aes, key, iv, whole + last) == aes.encrypt(key, XorBlock(CbcMac(aes, key, iv, whole), last))
  {
    var d: bytes := whole + last;
    PartialWhole(aes, key, iv, d);
    assert d[..|d| - 16] == whole && d[|d| - 16..] == last;
  }

  /** Mixing a byte into the block after the tail is mixing in the tail extended by it. */
  lemma MixIn(c: Block, tail: bytes, b: byte)
    requires |tail| < 16
    ensures var s := XorBlock(c, tail + Zeros(16 - |tail|));
      s[|tail| := Xor(s[|tail|], b)] == XorBlock(c, tail + [b] + Zeros(15 - |tail|))
    ensures |tail| == 15 ==> tail + [b] + Zeros(0) == tail + [b]
  {
    var i := |tail|;
    var s := XorBlock(c, tail + Zeros(16 - i));
    var longer: Block := tail + [b] + Zeros(15 - i);
    XorZero(c[i]);
    assert s[i] == c[i];
    forall j | 0 <= j < 16 ensures s[i := Xor(s[i], b)][j] == Xor(c[j], longer[j]) {
    }
  }

  /** Everything the fields of the object mean for the bytes absorbed so far. */
  ghost predicate Represents(aes: Cipher, key: Block, iv: Block, absorbed: bytes,
    chunkIdx: nat, nextBoundary: nat, position: nat, chunkMac: bytes, metaMac: bytes)
  {
    && position == |absorbed|
    && ChunkOff(chunkIdx) <= position < nextBoundary == ChunkOff(chunkIdx + 1)
    && chunkMac == Partial(aes, key, iv, absorbed[ChunkOff(chunkIdx)..])
    && metaMac == Closed(aes, key, iv, absorbed, chunkIdx)
  }

  lemma SameOffset(a: nat, b: nat)
    requires b % 16 == 0 && b <= a
    ensures (a - b) % 16 == a % 16
  {
  }

  lemma SuffixSnoc(d: bytes, off: nat, b: byte)
    requires off <= |d|
    ensures (d + [b])[off..] == d[off..] + [b]
  {
  }

  /** The block state and the fold when one more byte has been mixed in, inside a chunk. */
  lemma {:induction false} StepInside(aes: Cipher, key: Block, iv: Block, absorbed: bytes, idx: nat, cm: Block, b: byte)
    requires ChunkOff(idx) <= |absorbed|
    requires cm == Partial(aes, key, iv, absorbed[ChunkOff(idx)..])
    ensures StepBlock(aes, key, cm, |absorbed| % 16, b) == Partial(aes, key, iv, (absorbed + [b])[ChunkOff(idx)..])
    ensures Closed(aes, key, iv, absorbed + [b], idx) == Closed(aes, key, iv, absorbed, idx)
  {
    SameOffset(|absorbed|, ChunkOff(idx));
    PartialStep(aes, key, iv, absorbed[ChunkOff(idx)..], b);
    SuffixSnoc(absorbed, ChunkOff(idx), b);
    ClosedPrefix(aes, key, iv, absorbed, [b], idx);
  }

  /** Closing the chunk at its boundary. */
  lemma {:induction false} StepClose(aes: Cipher, key: Block, iv: Block, absorbed: bytes, idx: nat, nb: nat,
      cm: Block, mm: Block)
    requires |absorbed| == nb == ChunkOff(idx + 1)
    requires cm == Partial(aes, key, iv, absorbed[ChunkOff(idx)..])
    requires mm == Closed(aes, key, iv, absorbed, idx)
    ensures Represents(aes, key, iv, absorbed, idx + 1, nb + ChunkSize(idx + 1), nb, iv, Mix(aes, key, mm, cm))
  {
    var chunk := absorbed[ChunkOff(idx)..];
    FullChunk(aes, key, iv, chunk);
    assert absorbed[ChunkOff(idx)..ChunkOff(idx + 1)] == chunk;
    assert absorbed[nb..] == [];
    PartialWhole(aes, key, iv, []);
  }

  /** The fields after one more byte. */
  lemma AbsorbValue(aes: Cipher, key: Block, iv: Block, absorbed: bytes, idx: nat, nb: nat, cm: Block, mm: Block,
      b: byte)
    requires Represents(aes, key, iv, absorbed, idx, nb, |absorbed|, cm, mm)
    ensures var next := StepBlock(aes, key, cm, |absorbed| % 16, b);
      if |absorbed| + 1 == nb
      then Represents(aes, key, iv, absorbed + [b], idx + 1, nb + ChunkSize(idx + 1), nb, iv, Mix(aes, key, mm, next))
      else Represents(aes, key, iv, absorbed + [b], idx, nb, |absorbed| + 1, next, mm)
  {
    var next := StepBlock(aes, key, cm, |absorbed| % 16, b);
    StepInside(aes, key, iv, absorbed, idx, cm, b);
    if |absorbed| + 1 == nb {
      StepClose(aes, key, iv, absorbed + [b], idx, nb, next, mm);
    }
  }

  /** What finishing computes from the fields. */
  lemma {:induction false} FinishValue(aes: Cipher, key: Block, iv: Block, absorbed: bytes, idx: nat, nb: nat,
      cm: Block, mm: Block)
    requires Represents(aes, key, iv, absorbed, idx, nb, |absorbed|, cm, mm)
    ensures var n := |absorbed|;
      MetaMac(aes, key, iv, absorbed) ==
        if n == ChunkOff(idx) then mm
        else if n % 16 == 0 then Mix(aes, key, mm, cm)
        else Mix(aes, key, mm, aes.encrypt(key, cm))
  {
    var rest := absorbed[ChunkOff(idx)..];
    FoldEnd(aes, key, iv, absorbed, idx);
    SameOffset(|absorbed|, ChunkOff(idx));
    if |rest| % 16 == 0 {
      FullChunk(aes, key, iv, rest);
    } else {
      PaddedChunk(aes, key, iv, rest);
    }
  }

  lemma FullChunk(aes: Cipher, key: Block, iv: Block, d: bytes)
    requires |d| % 16 == 0
    ensures ChunkMac(aes, key, iv, d) == Partial(aes, key, iv, d)
  {
    assert ZeroExtend(d) == d;
    PartialWhole(aes, key, iv, d);
  }

  /** Padding the last block with zeros gives the MAC of the zero-extended chunk. */
  lemma PaddedChunk(aes: Cipher, key: Block, iv: Block, d: bytes)
    requires |d| % 16 != 0
    ensures ChunkMac(aes, key, iv, d) == aes.encrypt(key, Partial(aes, key, iv, d))
  {
    var k := |d| - |d| % 16;
    var z := ZeroExtend(d);
    assert z[..k] == d[..k] && z[k..] == d[k..] + Zeros(16 - |d| % 16);
    assert |z| - 16 == k;
  }

  /** The fold at the end of the data, with the last chunk closed or empty. */
  lemma FoldEnd(aes: Cipher, key: Block, iv: Block, d: bytes, k: nat)
    requires ChunkOff(k) <= |d| < ChunkOff(k + 1)
    ensures var rest, meta := d[ChunkOff(k)..], Closed(aes, key, iv, d, k);
      MetaMac(aes, key, iv, d) == if rest == [] then meta else Mix(aes, key, meta, ChunkMac(aes, key, iv, rest))
  {
    FoldAfterClosed(aes, key, iv, d, k);
    var rest := d[ChunkOff(k)..];
    if rest != [] {
      assert rest[..|rest|] == rest && rest[|rest|..] == [];
    }
  }

  // ---- What the MAC of a file is, chunk by chunk ----

  lemma XorBlockCommutes(a: Block, b: Block)
    ensures XorBlock(a, b) == XorBlock(b, a)
  {
    forall i | 0 <= i < 16 ensures XorBlock(a, b)[i] == XorBlock(b, a)[i] {
      XorNatCommutes(a[i], b[i]);
    }
  }

  /** The block the next one is chained to */
  function ChainBlock(iv: Block, c: bytes): (b: bytes)
    requires |c| % 16 == 0
    ensures |b| == 16
  {
    if c == [] then iv else c[|c| - 16..]
  }

  lemma ChainConcat(iv: Block, e: Block, rest: bytes)
    requires |rest| % 16 == 0
    ensures ChainBlock(iv, e + rest) == ChainBlock(e, rest)
  {
  }

  lemma {:induction false} CbcSnoc(aes: Cipher, key: Block, iv: Block, d: bytes, b: Block)
    requires |d| % 16 == 0
    ensures var c := CbcEncrypt(aes, key, iv, d);
      CbcEncrypt(aes, key, iv, d + b) == c + aes.encrypt(key, XorBlock(b, ChainBlock(iv, c)))
    decreases |d|
  {
    if d == [] {
      assert d + b == b && b[..16] == b && b[16..] == [];
    } else {
      var e := aes.encrypt(key, XorBlock(d[..16], iv));
      CbcSnoc(aes, key, e, d[16..], b);
      ChainConcat(iv, e, CbcEncrypt(aes, key, e, d[16..]));
      assert (d + b)[..16] == d[..16] && (d + b)[16..] == d[16..] + b;
    }
  }

  /** A CBC-MAC is the last block of the CBC encryption. */
  lemma {:induction false} CbcMacIsLastBlock(aes: Cipher, key: Block, iv: Block, d: bytes)
    requires |d| % 16 == 0
    ensures CbcMac(aes, key, iv, d) == ChainBlock(iv, CbcEncrypt(aes, key, iv, d))
    decreases |d|
  {
    if d != [] {
      var front, last := d[..|d| - 16], d[|d| - 16..];
      CbcMacIsLastBlock(aes, key, iv, front);
      assert d == front + last;
      CbcSnoc(aes, key, iv, front, last);
      XorBlockCommutes(CbcMac(aes, key, iv, front), last);
      LastOf(CbcEncrypt(aes, key, iv, front), CbcMac(aes, key, iv, d));
    }
  }

  lemma LastOf(c: bytes, b: Block)
    requires |c| % 16 == 0
    ensures ChainBlock(b, c + b) == b
  {
  }

  lemma LastChunk(aes: Cipher, key: Block, iv: Block, before: bytes, last: bytes, k: nat)
    requires |before| == ChunkOff(k) && 0 < |last| <= ChunkSize(k)
    ensures MetaMac(aes, key, iv, before + last)
      == Mix(aes, key, Closed(aes, key, iv, before, k), ChunkMac(aes, key, iv, last))
  {
    var d := before + last;
    ClosedPrefix(aes, key, iv, before, last, k);
    assert d[ChunkOff(k)..] == last;
    if |last| == ChunkSize(k) {
      FoldEnd(aes, key, iv, d, k + 1);
      assert d[ChunkOff(k)..ChunkOff(k + 1)] == last;
    } else {
      FoldEnd(aes, key, iv, d, k);
    }
  }

  /** Without a byte the MAC is zero. The last chunk, with zeros after it up to whole blocks, adds its CBC-MAC to the
      MAC of the chunks before it. */
  lemma MacByChunks(aes: Cipher, key: Block, iv: Block, d: bytes, k: nat)
    requires d != [] ==> ChunkOff(k) < |d| <= ChunkOff(k + 1)
    ensures d == [] ==> MetaMac(aes, key, iv, d) == Zeros(16)
    ensures d != [] ==>
      var before, last := d[..ChunkOff(k)], d[ChunkOff(k)..];
      MetaMac(aes, key, iv, d) == aes.encrypt(key,
        XorBlock(MetaMac(aes, key, iv, before), CbcMac(aes, key, iv, last + Zeros((16 - |last| % 16) % 16))))
  {
    if d != [] {
      var before, last := d[..ChunkOff(k)], d[ChunkOff(k)..];
      assert d == before + last;
      LastChunk(aes, key, iv, before, last, k);
      FoldEnd(aes, key, iv, before, k);
    }
  }

  /** The MAC of no data is zero, and that of one chunk is the encryption of its CBC-MAC alone. */
  lemma MacOfOneChunk(aes: Cipher, key: Block, iv: Block, d: bytes)
    ensures d == [] ==> MetaMac(aes, key, iv, d) == Zeros(16)
    ensures 0 < |d| <= 131072 ==>
      MetaMac(aes, key, iv, d) == aes.encrypt(key, CbcMac(aes, key, iv, d + Zeros((16 - |d| % 16) % 16)))
  {
    assert ChunkOff(1) == ChunkSize(0) == 131072;
    if |d| <= 131072 {
      MacByChunks(aes, key, iv, d, 0);
      assert d[..0] == [] && d[0..] == d;
      MacByChunks(aes, key, iv, [], 0);
      var mac := CbcMac(aes, key, iv, d + Zeros((16 - |d| % 16) % 16));
      XorBlockCommutes(Zeros(16), mac);
      XorBlockZeros(mac);
    }
  }

  /** The offsets in closed form. */
  lemma {:induction false} ChunkOffClosedForm(idx: nat)
    ensures ChunkOff(idx) == 131072 * if idx <= 8 then idx * (idx + 1) / 2 else 36 + 8 * (idx - 8)
  {
    if idx > 0 {
      ChunkOffClosedForm(idx - 1);
      if idx <= 8 {
        assert (idx - 1) * idx / 2 + idx == idx * (idx + 1) / 2;
      }
    }
  }

  /** `get_chunk_off` */
  method GetChunkOff(idx: nat) returns (p: nat)
    ensures p == ChunkOff(idx)
  {
    p := 0;
    var i := 0;
    while i < idx
      invariant 0 <= i <= idx && p == ChunkOff(i)
    {
      p := p + ChunkSize(i);
      i := i + 1;
    }
  }

  // ---- The streaming object ----

  class MegaChunkedCbcMac {
    const aes: Cipher
    var key: Block
    var chunkIdx: nat
    var nextBoundary: nat
    var position: nat
    var chunkMacIv: Block
    const chunkMac: array<byte>
    const metaMac: array<byte>
    var finished: bool
    ghost var absorbed: bytes

    ghost predicate Shape()
      reads this
    {
      chunkMac.Length == 16 && metaMac.Length == 16 && chunkMac != metaMac
    }

    /** Set up, not finished, and in step with the absorbed bytes. */
    ghost predicate Valid()
      reads this, chunkMac, metaMac
    {
      && Shape() && !finished
      && Represents(aes, key, chunkMacIv, absorbed, chunkIdx, nextBoundary, position, chunkMac[..], metaMac[..])
    }

    constructor (aes: Cipher)
      ensures Shape() && !finished && this.aes == aes && fresh(chunkMac) && fresh(metaMac)
    {
      this.aes := aes;
      key := Zeros(16);
      chunkMacIv := Zeros(16);
      chunkMac := new byte[16](_ => 0);
      metaMac := new byte[16](_ => 0);
      chunkIdx, nextBoundary, position := 0, 0, 0;
      finished := false;
      absorbed := [];
    }

    /** `mega_chunked_cbc_mac_setup`: everything is reset except `finished`. */
    method Setup(key: Block, iv: Block)
      requires Shape()
      modifies this, chunkMac, metaMac
      ensures Shape() && finished == old(finished)
      ensures this.key == key && chunkMacIv == iv && absorbed == []
      ensures !finished ==> Valid()
    {
      this.key := key;
      chunkIdx := 0;
      nextBoundary := ChunkSize(chunkIdx);
      position := 0;
      chunkMacIv := iv;
      CopyBlock(iv, chunkMac);
      CopyBlock(ZERO_IV, metaMac);
      absorbed := [];
      PartialWhole(aes, key, iv, []);
      assert ChunkOff(1) == ChunkSize(0);
    }

    /** `close_chunk`: mix the chunk's MAC into the file's and start the next chunk. */
    method CloseChunk()
      requires Shape()
      modifies this`chunkIdx, this`nextBoundary, chunkMac, metaMac
      ensures metaMac[..] == Mix(aes, key, old(metaMac[..]), old(chunkMac[..]))
      ensures chunkMac[..] == chunkMacIv
      ensures chunkIdx == old(chunkIdx) + 1 && nextBoundary == old(nextBoundary) + ChunkSize(chunkIdx)
    {
      var i := 0;
      while i < 16
        modifies metaMac
        invariant 0 <= i <= 16
        invariant chunkMac[..] == old(chunkMac[..])
        invariant forall j | 0 <= j < i :: metaMac[j] == Xor(old(metaMac[j]), old(chunkMac[j]))
        invariant forall j | i <= j < 16 :: metaMac[j] == old(metaMac[j])
      {
        metaMac[i] := Xor(metaMac[i], chunkMac[i]);
        i := i + 1;
      }
      assert metaMac[..] == XorBlock(old(metaMac[..]), old(chunkMac[..]));
      var tmp := aes.encrypt(key, metaMac[..]);
      CopyBlock(tmp, metaMac);
      CopyBlock(chunkMacIv, chunkMac);
      chunkIdx := chunkIdx + 1;
      nextBoundary := nextBoundary + ChunkSize(chunkIdx);
    }

    /** One byte of `mega_chunked_cbc_mac_update`. */
    method Absorb(b: byte)
      requires Valid()
      modifies this`position, this`chunkIdx, this`nextBoundary, this`absorbed, chunkMac, metaMac
      ensures Valid() && absorbed == old(absorbed) + [b]
    {
      AbsorbValue(aes, key, chunkMacIv, absorbed, chunkIdx, nextBoundary, chunkMac[..], metaMac[..], b);
      AbsorbByte(b);
      absorbed := absorbed + [b];
    }

    /** The byte in the block, and the chunk closed if it was its last one */
    method AbsorbByte(b: byte)
      requires Shape()
      modifies this`position, this`chunkIdx, this`nextBoundary, chunkMac, metaMac
      ensures position == old(position) + 1
      ensures var next := StepBlock(aes, key, old(chunkMac[..]), old(position) % 16, b);
        if position == old(nextBoundary)
        then chunkIdx == old(chunkIdx) + 1 && nextBoundary == old(nextBoundary) + ChunkSize(chunkIdx)
             && chunkMac[..] == chunkMacIv && metaMac[..] == Mix(aes, key, old(metaMac[..]), next)
        else chunkIdx == old(chunkIdx) && nextBoundary == old(nextBoundary)
             && chunkMac[..] == next && metaMac[..] == old(metaMac[..])
    {
      MixByte(b);
      if position == nextBoundary {
        CloseChunk();
      }
    }

    /** Mix a byte in at the current position and encrypt the block when that fills it. */
    method MixByte(b: byte)
      requires Shape()
      modifies this`position, chunkMac
      ensures position == old(position) + 1
      ensures chunkMac[..] == StepBlock(aes, key, old(chunkMac[..]), old(position) % 16, b)
    {
      ghost var was, i := chunkMac[..], position % 16;
      chunkMac[position % 16] := Xor(chunkMac[position % 16], b);
      position := position + 1;
      assert chunkMac[..] == was[i := Xor(was[i], b)];
      if position % 16 == 0 {
        var tmp := aes.encrypt(key, chunkMac[..]);
        CopyBlock(tmp, chunkMac);
      }
    }

    /** `mega_chunked_cbc_mac_update`: refused once finished. */
    method Update(data: bytes)
      requires finished || Valid()
      modifies this`position, this`chunkIdx, this`nextBoundary, this`absorbed, chunkMac, metaMac
      ensures old(finished) ==> absorbed == old(absorbed) && metaMac[..] == old(metaMac[..])
      ensures !finished ==> Valid() && absorbed == old(absorbed) + data
    {
      if finished {
        return;
      }
      AbsorbAll(data);
    }

    method AbsorbAll(data: bytes)
      requires Valid()
      modifies this`position, this`chunkIdx, this`nextBoundary, this`absorbed, chunkMac, metaMac
      ensures Valid() && absorbed == old(absorbed) + data
    {
      hide Represents;
      var i := 0;
      while i < |data|
        invariant 0 <= i <= |data|
        invariant Valid() && absorbed == old(absorbed) + data[..i]
      {
        Absorb(data[i]);
        assert data[..i + 1] == data[..i] + [data[i]];
        i := i + 1;
      }
      assert data[..i] == data;
    }

    method UpdateAll(pieces: seq<bytes>)
      requires Valid() && absorbed == []
      modifies this`position, this`chunkIdx, this`nextBoundary, this`absorbed, chunkMac, metaMac
      ensures Valid() && absorbed == Join(pieces)
    {
      var i := 0;
      while i < |pieces|
        invariant 0 <= i <= |pieces|
        invariant Valid() && absorbed == Join(pieces[..i])
      {
        Update(pieces[i]);
        JoinSnoc(pieces, i);
        i := i + 1;
      }
      assert pieces[..i] == pieces;
    }

    /** The zero padding of the last block: it moves the position and changes no byte. */
    method PadBlock()
      requires Shape()
      modifies this`position, chunkMac
      ensures chunkMac[..] == old(chunkMac[..])
      ensures position % 16 == 0 && old(position) <= position < old(position) + 16
    {
      while position % 16 != 0
        invariant chunkMac[..] == old(chunkMac[..])
        invariant old(position) <= position < old(position) + 16
        invariant position > old(position) ==> old(position) % 16 != 0 && old(position) / 16 == (position - 1) / 16
        decreases old(position) + 16 - position
      {
        XorZero(chunkMac[position % 16]);
        chunkMac[position % 16] := Xor(chunkMac[position % 16], 0);
        position := position + 1;
      }
    }

    /** `mega_chunked_cbc_mac_finish`: the MAC of everything absorbed; asking again repeats it. */
    method Finish() returns (mac: Block)
      requires Shape() && (finished || Valid())
      modifies this`position, this`chunkIdx, this`nextBoundary, this`finished, chunkMac, metaMac
      ensures Shape() && finished && mac == metaMac[..]
      ensures old(finished) ==> metaMac[..] == old(metaMac[..])
      ensures !old(finished) ==> mac == MetaMac(aes, key, chunkMacIv, absorbed)
    {
      if finished {
        return metaMac[..];
      }
      finished := true;
      FinishValue(aes, key, chunkMacIv, absorbed, chunkIdx, nextBoundary, chunkMac[..], metaMac[..]);
      if position % 16 != 0 {
        PadBlock();
        var tmp := aes.encrypt(key, chunkMac[..]);
        CopyBlock(tmp, chunkMac);
      }
      if position > nextBoundary - ChunkSize(chunkIdx) {
        CloseChunk();
      }
      mac := metaMac[..];
    }
  }

  method CopyBlock(b: Block, to: array<byte>)
    requires to.Length == 16
    modifies to
    ensures to[..] == b
  {
    forall i | 0 <= i < 16 {
      to[i] := b[i];
    }
  }

  /** The MAC does not depend on how the data is split into updates. */
  method MacOfPieces(aes: Cipher, key: Block, iv: Block, pieces: seq<bytes>) returns (mac: Block)
    ensures mac == MetaMac(aes, key, iv, Join(pieces))
    ensures Join(pieces) == [] ==> mac == Zeros(16)
    ensures var d := Join(pieces);
      0 < |d| <= 131072 ==> mac == aes.encrypt(key, CbcMac(aes, key, iv, d + Zeros((16 - |d| % 16) % 16)))
  {
    mac := OneShot(aes, key, iv, pieces);
    MacOfOneChunk(aes, key, iv, Join(pieces));
  }

  method OneShot(aes: Cipher, key: Block, iv: Block, pieces: seq<bytes>) returns (mac: Block)
    ensures mac == MetaMac(aes, key, iv, Join(pieces))
  {
    var o := new MegaChunkedCbcMac(aes);
    o.Setup(key, iv);
    o.UpdateAll(pieces);
    mac := o.Finish();
  }

  function Join(pieces: seq<bytes>): bytes
  {
    if pieces == [] then [] else Join(pieces[..|pieces| - 1]) + pieces[|pieces| - 1]
  }

  lemma JoinSnoc(pieces: seq<bytes>, i: nat)
    requires i < |pieces|
    ensures Join(pieces[..i + 1]) == Join(pieces[..i]) + pieces[i]
  {
    assert pieces[..i + 1][..i] == pieces[..i];
  }
}
