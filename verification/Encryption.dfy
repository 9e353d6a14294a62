/** Encrypting a file into the trash bin (clone_encryption, processencryption): chunks of
    4080 bytes, each padded as in section 6.3 of RFC 5652 and chained as in section 6.2 of
    NIST SP 800-38A, starting over from the same initialization vector in every chunk. */
module Encryption {
  import opened Bytes
  import opened Storage

  const BLOCK: nat := 16
  const CHUNK: nat := 4080  // PAGE_SIZE - 16

  /** How many chunks a file is read in. */
  function Blocks(n: nat): nat {
    (n + CHUNK - 1) / CHUNK
  }

  lemma BlocksStep(n: nat)
    requires n > 0
    ensures Blocks(n) == 1 + Blocks(n - Min(CHUNK, n))
  {
    assert (n + 4079) / 4080 == 1 + (n - 1) / 4080;
  }

  /** A block cipher under a fixed key: a permutation of the 16-byte blocks. */
  datatype RawCipher = RawCipher(enc: Bytes -> Bytes, dec: Bytes -> Bytes)
  {
    ghost predicate Permutes() {
      && (forall b: Bytes {:trigger enc(b)} :: |b| == BLOCK ==> |enc(b)| == BLOCK && dec(enc(b)) == b)
      && (forall b: Bytes {:trigger dec(b)} :: |b| == BLOCK ==> |dec(b)| == BLOCK && enc(dec(b)) == b)
    }
  }

  type Cipher = c: RawCipher | c.Permutes() witness RawCipher(b => b, b => b)
  type Iv = b: Bytes | |b| == BLOCK witness seq(BLOCK, _ => 0)

  // ----- padding -----

  function PadCount(len: nat): (r: byte)
    ensures 1 <= r <= BLOCK && (len + r) % BLOCK == 0
  {
    BLOCK - len % BLOCK
  }

  function Pad(data: Bytes): (r: Bytes)
    ensures |r| % BLOCK == 0 && |data| < |r| <= |data| + BLOCK
  {
    data + seq(PadCount(|data|), _ => PadCount(|data|))
  }

  /** Takes the padding off again, if it is one: n bytes of value n, 1 <= n <= 16. */
  function Unpad(padded: Bytes): Option<Bytes> {
    if padded == [] then None
    else
      var n := padded[|padded| - 1];
      if 1 <= n <= BLOCK && n <= |padded| && padded[|padded| - n..] == seq(n, _ => n)
      then Some(padded[..|padded| - n]) else None
  }

  lemma UnpadPad(data: Bytes)
    ensures Unpad(Pad(data)) == Some(data)
  {
    var n := PadCount(|data|);
    assert Pad(data)[|data|..] == seq(n, _ => n);
    assert Pad(data)[..|data|] == data;
  }

  /** Between 1 and 16 bytes are added, up to a whole number of blocks, each with their number
      as its value. */
  lemma PadExact(data: Bytes)
    ensures var n := |Pad(data)| - |data|;
            && 1 <= n <= 16 && |Pad(data)| % 16 == 0 && data <= Pad(data)
            && forall i :: |data| <= i < |Pad(data)| ==> Pad(data)[i] == n
  {
  }

  // ----- chaining -----

  function Cbc(c: Cipher, iv: Iv, data: Bytes): (r: Bytes)
    requires |data| % BLOCK == 0
    ensures |r| == |data|
    decreases |data|
  {
    if data == [] then []
    else
      var b := c.enc(XorBlock(data[..BLOCK], iv));
      b + Cbc(c, b, data[BLOCK..])
  }

  function CbcInverse(c: Cipher, iv: Iv, data: Bytes): (r: Bytes)
    requires |data| % BLOCK == 0
    ensures |r| == |data|
    decreases |data|
  {
    if data == [] then []
    else XorBlock(c.dec(data[..BLOCK]), iv) + CbcInverse(c, data[..BLOCK], data[BLOCK..])
  }

  lemma {:induction false} CbcRoundTrip(c: Cipher, iv: Iv, data: Bytes)
    requires |data| % BLOCK == 0
    ensures CbcInverse(c, iv, Cbc(c, iv, data)) == data
    decreases |data|
  {
    if data == [] {
    } else {
      var x := XorBlock(data[..BLOCK], iv);
      var b := c.enc(x);
      var all := Cbc(c, iv, data);
      assert all[..BLOCK] == b && all[BLOCK..] == Cbc(c, b, data[BLOCK..]);
      XorBlockCancels(data[..BLOCK], iv);
      CbcRoundTrip(c, b, data[BLOCK..]);
    }
  }

  /** What is encrypted into block `j`: the plain block, changed where the block of ciphertext
      before it has a 1, or the vector if it is the first. */
  ghost predicate ChainsInto(x: Bytes, iv: Iv, plain: Bytes, cipher: Bytes, j: nat)
    requires |plain| == |cipher| && (j + 1) * BLOCK <= |plain|
  {
    var before := if j == 0 then iv else cipher[(j - 1) * BLOCK..j * BLOCK];
    DiffersIn(x, plain[j * BLOCK..(j + 1) * BLOCK], before)
  }

  lemma BlockAfter(first: Bytes, rest: Bytes, j: nat)
    requires |first| == BLOCK && (j + 1) * BLOCK <= |rest|
    ensures (first + rest)[(j + 1) * BLOCK..(j + 2) * BLOCK] == rest[j * BLOCK..(j + 1) * BLOCK]
  {
  }

  lemma {:induction false} CbcBlock(c: Cipher, iv: Iv, data: Bytes, j: nat)
    requires |data| % BLOCK == 0 && (j + 1) * BLOCK <= |data|
    ensures var all := Cbc(c, iv, data);
            var before := if j == 0 then iv else all[(j - 1) * BLOCK..j * BLOCK];
            all[j * BLOCK..(j + 1) * BLOCK] == c.enc(XorBlock(data[j * BLOCK..(j + 1) * BLOCK], before))
    decreases |data|
  {
    var all, first := Cbc(c, iv, data), data[..BLOCK];
    var b := c.enc(XorBlock(first, iv));
    var rest := Cbc(c, b, data[BLOCK..]);
    assert all == b + rest && data == first + data[BLOCK..];
    if j == 0 {
      assert all[..BLOCK] == b;
    } else {
      CbcBlock(c, b, data[BLOCK..], j - 1);
      BlockAfter(b, rest, j - 1);
      BlockAfter(first, data[BLOCK..], j - 1);
      if j == 1 {
        assert all[0..BLOCK] == b;
      } else {
        BlockAfter(b, rest, j - 2);
      }
    }
  }

  /** Each block of a chained text is the encryption of the one block that chains into it. */
  lemma {:induction false} CbcExact(c: Cipher, iv: Iv, data: Bytes, j: nat, x: Bytes)
    requires |data| % BLOCK == 0 && (j + 1) * BLOCK <= |data|
    ensures ChainsInto(x, iv, data, Cbc(c, iv, data), j) ==> Cbc(c, iv, data)[j * BLOCK..(j + 1) * BLOCK] == c.enc(x)
    ensures exists y: Bytes :: ChainsInto(y, iv, data, Cbc(c, iv, data), j)
  {
    var all := Cbc(c, iv, data);
    var before := if j == 0 then iv else all[(j - 1) * BLOCK..j * BLOCK];
    var plain := data[j * BLOCK..(j + 1) * BLOCK];
    CbcBlock(c, iv, data, j);
    XorBlockExact(x, plain, before);
    XorBlockExact(XorBlock(plain, before), plain, before);
    assert ChainsInto(XorBlock(plain, before), iv, data, all, j);
  }

  // ----- chunks and files -----

  function EncryptChunk(c: Cipher, iv: Iv, chunk: Bytes): Bytes {
    Cbc(c, iv, Pad(chunk))
  }

  function DecryptChunk(c: Cipher, iv: Iv, piece: Bytes): Option<Bytes> {
    if |piece| % BLOCK == 0 then Unpad(CbcInverse(c, iv, piece)) else None
  }

  function EncryptFile(c: Cipher, iv: Iv, data: Bytes): Bytes {
    if data == [] then []
    else
      var n := Min(CHUNK, |data|);
      EncryptChunk(c, iv, data[..n]) + EncryptFile(c, iv, data[n..])
  }

  /** The decoder the format calls for: pieces of 4096 bytes, the last may be shorter. */
  function DecryptFile(c: Cipher, iv: Iv, stored: Bytes): Option<Bytes> {
    if stored == [] then Some([])
    else
      var n := Min(PAGE_SIZE, |stored|);
      match (DecryptChunk(c, iv, stored[..n]), DecryptFile(c, iv, stored[n..]))
      case (Some(chunk), Some(rest)) => Some(chunk + rest)
      case _ => None
  }

  /** A chunk fills the 4096-byte buffer exactly if it is a full one, and never exceeds it. */
  lemma ChunkFillsBuffer(c: Cipher, iv: Iv, chunk: Bytes)
    requires |chunk| <= CHUNK
    ensures |EncryptChunk(c, iv, chunk)| <= PAGE_SIZE
    ensures |EncryptChunk(c, iv, chunk)| == PAGE_SIZE <==> |chunk| == CHUNK
    ensures |EncryptChunk(c, iv, chunk)| == 16 * (|chunk| / 16 + 1)
  {
  }

  lemma ChunkRoundTrip(c: Cipher, iv: Iv, chunk: Bytes)
    ensures DecryptChunk(c, iv, EncryptChunk(c, iv, chunk)) == Some(chunk)
  {
    CbcRoundTrip(c, iv, Pad(chunk));
    UnpadPad(chunk);
  }

  /** Every file comes back from its ciphertext. */
  lemma {:induction false} FileRoundTrip(c: Cipher, iv: Iv, data: Bytes)
    ensures DecryptFile(c, iv, EncryptFile(c, iv, data)) == Some(data)
  {
    if data == [] {
    } else {
      var n := Min(CHUNK, |data|);
      var first, rest := EncryptChunk(c, iv, data[..n]), EncryptFile(c, iv, data[n..]);
      var stored := EncryptFile(c, iv, data);
      ChunkFillsBuffer(c, iv, data[..n]);
      ChunkRoundTrip(c, iv, data[..n]);
      FileRoundTrip(c, iv, data[n..]);
      assert |first| < PAGE_SIZE ==> data[n..] == [];
      var m := Min(PAGE_SIZE, |stored|);
      assert m == |first| && stored[..m] == first && stored[m..] == rest;
      assert data[..n] + data[n..] == data;
    }
  }

  lemma {:induction false} FirstChunk(c: Cipher, iv: Iv, data: Bytes, n: nat)
    requires data != [] && n == Min(CHUNK, |data|)
    ensures EncryptFile(c, iv, data) == EncryptChunk(c, iv, data[..n]) + EncryptFile(c, iv, data[n..])
    ensures |EncryptChunk(c, iv, data[..n])| == PAGE_SIZE <==> n == CHUNK
  {
    ChunkFillsBuffer(c, iv, data[..n]);
  }

  /** Piece `k` of the ciphertext is chunk `k`, padded and chained from the same vector. */
  lemma {:induction false} PieceExact(c: Cipher, iv: Iv, data: Bytes, k: nat, chunk: Bytes)
    requires k * CHUNK < |data| && chunk == data[k * CHUNK..Min((k + 1) * CHUNK, |data|)]
    ensures var piece, all := Cbc(c, iv, Pad(chunk)), EncryptFile(c, iv, data);
            k * PAGE_SIZE + |piece| <= |all| && all[k * PAGE_SIZE..k * PAGE_SIZE + |piece|] == piece
    decreases k
  {
    var n := Min(CHUNK, |data|);
    var first, rest := EncryptChunk(c, iv, data[..n]), data[n..];
    FirstChunk(c, iv, data, n);
    if k == 0 {
      assert chunk == data[..n];
    } else {
      assert chunk == rest[(k - 1) * CHUNK..Min(k * CHUNK, |rest|)];
      PieceExact(c, iv, rest, k - 1, chunk);
      PieceAfter(first, EncryptFile(c, iv, rest), (k - 1) * PAGE_SIZE, |Cbc(c, iv, Pad(chunk))|);
    }
  }

  lemma PieceAfter(first: Bytes, rest: Bytes, from: nat, len: nat)
    requires |first| == PAGE_SIZE && from + len <= |rest|
    ensures (first + rest)[from + PAGE_SIZE..from + PAGE_SIZE + len] == rest[from..from + len]
  {
  }

  lemma EncryptFileInjective(c: Cipher, iv: Iv, a: Bytes, b: Bytes)
    requires EncryptFile(c, iv, a) == EncryptFile(c, iv, b)
    ensures a == b
  {
    FileRoundTrip(c, iv, a);
    FileRoundTrip(c, iv, b);
  }

  // ----- stale tails: the trash file was there before, and longer -----

  lemma {:induction false} DecryptedLength(c: Cipher, iv: Iv, piece: Bytes)
    ensures DecryptChunk(c, iv, piece).Some? ==>
              |piece| % BLOCK == 0 && |DecryptChunk(c, iv, piece).value| + BLOCK >= |piece|
  {
  }

  /** Nothing decrypts to more than there was. */
  lemma {:induction false} DecryptedNoLonger(c: Cipher, iv: Iv, stored: Bytes)
    ensures DecryptFile(c, iv, stored).Some? ==> |DecryptFile(c, iv, stored).value| <= |stored|
  {
    if stored == [] {
    } else {
      var n := Min(PAGE_SIZE, |stored|);
      DecryptedNoLonger(c, iv, stored[n..]);
      assert DecryptChunk(c, iv, stored[..n]).Some? ==> |DecryptChunk(c, iv, stored[..n]).value| <= n;
    }
  }

  lemma {:induction false} ShortChunkThenTail(c: Cipher, iv: Iv, data: Bytes, tail: Bytes)
    requires 0 < |data| < CHUNK && tail != []
    ensures DecryptFile(c, iv, EncryptFile(c, iv, data) + tail) != Some(data)
  {
    var first := EncryptChunk(c, iv, data);
    var stored := EncryptFile(c, iv, data) + tail;
    ChunkFillsBuffer(c, iv, data);
    assert data[..|data|] == data && data[|data|..] == [];
    assert EncryptFile(c, iv, data) == first;
    var piece := stored[..Min(PAGE_SIZE, |stored|)];
    DecryptedLength(c, iv, piece);
    assert |piece| > |first| && |first| > |data|;
  }

  /** A full chunk in front fills its piece, so what follows is decrypted by itself. */
  lemma {:induction false} FullChunkAfter(c: Cipher, iv: Iv, chunk: Bytes, following: Bytes)
    requires |chunk| == CHUNK
    ensures DecryptFile(c, iv, EncryptChunk(c, iv, chunk) + following) == After(chunk, DecryptFile(c, iv, following))
  {
    var piece := EncryptChunk(c, iv, chunk);
    var stored := piece + following;
    ChunkFillsBuffer(c, iv, chunk);
    ChunkRoundTrip(c, iv, chunk);
    assert Min(PAGE_SIZE, |stored|) == |piece| && stored[..|piece|] == piece && stored[|piece|..] == following;
  }

  lemma {:induction false} FullChunkThen(c: Cipher, iv: Iv, chunk: Bytes, following: Bytes, rest: Bytes)
    requires |chunk| == CHUNK
    ensures DecryptFile(c, iv, EncryptChunk(c, iv, chunk) + following) == Some(chunk + rest)
            <==> DecryptFile(c, iv, following) == Some(rest)
  {
    FullChunkAfter(c, iv, chunk, following);
    AfterCancels(chunk, rest, DecryptFile(c, iv, following));
  }

  lemma {:induction false} FullChunkFirst(c: Cipher, iv: Iv, data: Bytes, tail: Bytes)
    requires |data| >= CHUNK
    ensures EncryptFile(c, iv, data) + tail
         == EncryptChunk(c, iv, data[..CHUNK]) + (EncryptFile(c, iv, data[CHUNK..]) + tail)
    ensures data == data[..CHUNK] + data[CHUNK..]
  {
  }

  /** Whatever follows the ciphertext of a file spoils it, unless it starts a piece of its
      own and is the ciphertext of an empty chunk, which no run writes. */
  ghost predicate Harmless(c: Cipher, iv: Iv, size: nat, tail: Bytes) {
    tail == [] || (size % CHUNK == 0 && tail == EncryptChunk(c, iv, []))
  }

  lemma {:induction false} OnePiece(c: Cipher, iv: Iv, piece: Bytes)
    requires 0 < |piece| <= PAGE_SIZE
    ensures DecryptFile(c, iv, piece) == DecryptChunk(c, iv, piece)
  {
    assert piece[..|piece|] == piece && piece[|piece|..] == [];
    var chunk := DecryptChunk(c, iv, piece);
    assert chunk.Some? ==> DecryptFile(c, iv, piece) == Some(chunk.value + []) && chunk.value + [] == chunk.value;
  }

  /** Only one block decrypts and unpads to nothing. */
  lemma {:induction false} EmptyChunk(c: Cipher, iv: Iv, piece: Bytes)
    ensures DecryptChunk(c, iv, piece) == Some([]) <==> piece == EncryptChunk(c, iv, [])
  {
    if DecryptChunk(c, iv, piece) == Some([]) {
      DecryptedLength(c, iv, piece);
      var plain := CbcInverse(c, iv, piece);
      assert piece[..BLOCK] == piece && piece[BLOCK..] == [];
      assert plain == XorBlock(c.dec(piece), iv);
      assert plain == plain[BLOCK - BLOCK..] == seq(BLOCK, _ => BLOCK);
      assert Pad([]) == plain;
      XorBlockCancels(c.dec(piece), iv);
      OneBlock(c, iv, plain);
    } else {
      ChunkRoundTrip(c, iv, []);
    }
  }

  lemma {:induction false} OneBlock(c: Cipher, iv: Iv, block: Bytes)
    requires |block| == BLOCK
    ensures Cbc(c, iv, block) == c.enc(XorBlock(block, iv))
  {
    assert block[..BLOCK] == block && block[BLOCK..] == [];
  }

  lemma {:induction false} EmptyTail(c: Cipher, iv: Iv, tail: Bytes)
    ensures DecryptFile(c, iv, tail) == Some([]) <==> tail == [] || tail == EncryptChunk(c, iv, [])
  {
    ChunkFillsBuffer(c, iv, []);
    if tail != [] && |tail| <= PAGE_SIZE {
      EmptyChunk(c, iv, tail);
      OnePiece(c, iv, tail);
    } else if tail != [] {
      var piece := tail[..PAGE_SIZE];
      DecryptedLength(c, iv, piece);
      assert DecryptFile(c, iv, tail).Some? ==> |DecryptFile(c, iv, tail).value| >= |DecryptChunk(c, iv, piece).value|;
    }
  }

  lemma {:induction false} NoChunkThen(c: Cipher, iv: Iv, tail: Bytes)
    ensures DecryptFile(c, iv, EncryptFile(c, iv, []) + tail) == Some([]) <==> Harmless(c, iv, 0, tail)
  {
    assert EncryptFile(c, iv, []) + tail == tail;
    EmptyTail(c, iv, tail);
  }

  lemma {:induction false} NothingFollows(c: Cipher, iv: Iv, data: Bytes)
    ensures DecryptFile(c, iv, EncryptFile(c, iv, data) + []) == Some(data)
  {
    FileRoundTrip(c, iv, data);
    assert EncryptFile(c, iv, data) + [] == EncryptFile(c, iv, data);
  }

  lemma {:induction false} LastChunkThen(c: Cipher, iv: Iv, data: Bytes, tail: Bytes)
    requires |data| < CHUNK
    ensures DecryptFile(c, iv, EncryptFile(c, iv, data) + tail) == Some(data) <==> Harmless(c, iv, |data|, tail)
  {
    if data == [] {
      NoChunkThen(c, iv, tail);
    } else if tail == [] {
      NothingFollows(c, iv, data);
    } else {
      ShortChunkThenTail(c, iv, data, tail);
    }
  }

  lemma {:induction false} FileThenTail(c: Cipher, iv: Iv, data: Bytes, tail: Bytes)
    ensures DecryptFile(c, iv, EncryptFile(c, iv, data) + tail) == Some(data) <==> Harmless(c, iv, |data|, tail)
  {
    if |data| < CHUNK {
      LastChunkThen(c, iv, data, tail);
    } else {
      var rest := data[CHUNK..];
      FileThenTail(c, iv, rest, tail);
      FullChunkThen(c, iv, data[..CHUNK], EncryptFile(c, iv, rest) + tail, rest);
      FullChunkFirst(c, iv, data, tail);
      ChunkCount(|data|);
    }
  }

  /** Encrypted over an older trash file, a file comes back exactly if the old one was no
      longer than the ciphertext, or the ciphertext consists of full pieces and the old one
      goes on with one encrypted empty chunk. */
  lemma {:induction false} StaleCipherExact(c: Cipher, iv: Iv, data: Bytes, was: Bytes)
    ensures DecryptFile(c, iv, Overwrite(was, 0, EncryptFile(c, iv, data))) == Some(data)
            <==> || |was| <= |EncryptFile(c, iv, data)|
                 || (|data| % CHUNK == 0 && Stale(was, |EncryptFile(c, iv, data)|) == EncryptChunk(c, iv, []))
  {
    var stored := EncryptFile(c, iv, data);
    OverwriteStart(was, stored);
    FileThenTail(c, iv, data, Stale(was, |stored|));
    assert Stale(was, |stored|) == [] <==> |was| <= |stored|;
  }

  // ----- sizes -----

  function CipherSize(n: nat): nat {
    PAGE_SIZE * (n / CHUNK) + if n % CHUNK > 0 then 16 * (n % CHUNK / 16 + 1) else 0
  }

  lemma ChunkCount(n: nat)
    requires n >= 4080
    ensures (n - 4080) / 4080 == n / 4080 - 1 && (n - 4080) % 4080 == n % 4080
  {
  }

  lemma CipherSizeStep(n: nat)
    ensures n >= CHUNK ==> CipherSize(n) == PAGE_SIZE + CipherSize(n - CHUNK)
    ensures 0 < n < CHUNK ==> CipherSize(n) == 16 * (n / 16 + 1)
  {
    if n >= CHUNK {
      ChunkCount(n);
    } else {
      assert n / 4080 == 0 && n % 4080 == n;
    }
  }

  lemma {:induction false} EncryptedSize(c: Cipher, iv: Iv, data: Bytes)
    ensures |EncryptFile(c, iv, data)| == CipherSize(|data|)
  {
    if data == [] {
    } else {
      var n := Min(CHUNK, |data|);
      ChunkFillsBuffer(c, iv, data[..n]);
      EncryptedSize(c, iv, data[n..]);
      CipherSizeStep(|data|);
    }
  }

  /** The largest file of which every piece is written at a position that fits an `int`. */
  const LARGEST: nat := 0x8_0000 * CHUNK

  lemma SizeFitsInt(n: nat)
    ensures CipherSize(n) < 0x8000_0000 <==> n < LARGEST
  {
  }

  lemma CipherSizeGrows(m: nat, n: nat)
    requires m <= n
    ensures CipherSize(m) <= CipherSize(n)
  {
    assert m / 4080 <= n / 4080;
  }

  /** The part of a file that is seen when its size is kept in an `int`. */
  function Seen(content: Bytes): (r: Bytes)
    ensures |r| <= |content| && r == content[..|r|] && |r| < 0x8000_0000
  {
    var size := Wrap32(|content|);
    if 0 <= size <= |content| then content[..size] else []
  }

  lemma SeenMeaning(content: Bytes)
    ensures Seen(content) == content <==> |content| < 0x8000_0000
    ensures 0x8000_0000 <= |content| < 0x1_0000_0000 ==> Seen(content) == []
    ensures var low := |content| % 0x1_0000_0000; |Seen(content)| == if low < 0x8000_0000 then low else 0
  {
    if |content| < 0x8000_0000 {
      WrapSmall(|content|);
    }
  }
}
