/** What the encryption loop leaves in the trash bin, and when that is enough to have the file
    back.  It is the whole ciphertext exactly if every write is complete, which no file of
    more than 2^19 * 4080 bytes sees: from there on the write position is negative. */
module EncryptLoss {
  import opened Bytes
  import opened Storage
  import opened FileSystem
  import opened Encryption
  import opened EncryptFiles

  function PieceSize(n: nat): nat {
    16 * (n / 16 + 1)
  }

  /** Every write of a piece is complete, with `n` bytes still to be read. */
  predicate AllWritten(n: nat, k: nat, pos: int, accepts: nat -> int)
    decreases n
  {
    n == 0
    || var m := Min(CHUNK, n);
       && Transferred(pos, PieceSize(m), accepts(k)) == PieceSize(m)
       && AllWritten(n - m, k + 1, Wrap32(pos + PieceSize(m)), accepts)
  }

  // ----- complete writes -----

  lemma {:induction false} FirstPiece(c: Cipher, iv: Iv, done: Bytes, data: Bytes, n: nat)
    requires data != [] && n == Min(CHUNK, |data|)
    ensures done + EncryptFile(c, iv, data) == done + EncryptChunk(c, iv, data[..n]) + EncryptFile(c, iv, data[n..])
    ensures data[n..] == [] ==> done + EncryptFile(c, iv, data) == done + EncryptChunk(c, iv, data[..n])
  {
  }

  lemma AllWrittenStep(n: nat, k: nat, pos: int, accepts: nat -> int, wanted: nat, got: int)
    requires n > 0 && wanted == PieceSize(Min(CHUNK, n)) && got == Transferred(pos, wanted, accepts(k))
    ensures AllWritten(n, k, pos, accepts)
       <==> got == wanted && AllWritten(n - Min(CHUNK, n), k + 1, Wrap32(pos + got), accepts)
  {
  }

  lemma NextWrite(n: nat, k: nat, pos: nat, accepts: nat -> int, m: nat)
    requires n > 0 && m == Min(CHUNK, n) && pos < 0x8000_0000 && AllWritten(n, k, pos, accepts)
    ensures Transferred(pos, PieceSize(m), accepts(k)) == PieceSize(m)
    ensures n > m ==>
              && Wrap32(pos + PieceSize(m)) == pos + PieceSize(m) < 0x8000_0000
              && AllWritten(n - m, k + 1, pos + PieceSize(m), accepts)
  {
    if n > m {
      var next := Wrap32(pos + PieceSize(m));
      assert next >= 0;
    }
  }

  lemma {:induction false} WrittenWhole(c: Cipher, iv: Iv, data: Bytes, k: nat, was: Bytes, done: Bytes,
                                        dev: EncryptDevice)
    requires |done| < 0x8000_0000
    requires AllWritten(|data|, k, |done|, dev.accepts) && Allocates(dev, k, |data|)
    ensures EncryptFrom(c, iv, data, k, |done|, Overwrite(was, 0, done), dev)
         == Overwrite(was, 0, done + EncryptFile(c, iv, data))
    decreases |data|
  {
    if data == [] {
      assert done + EncryptFile(c, iv, data) == done;
    } else {
      var n := Min(CHUNK, |data|);
      var out, rest, now := EncryptChunk(c, iv, data[..n]), data[n..], Overwrite(was, 0, done);
      var all, done' := EncryptFrom(c, iv, data, k, |done|, now, dev), done + out;
      ChunkFillsBuffer(c, iv, data[..n]);
      NextWrite(|data|, k, |done|, dev.accepts, n);
      WriteGoesOn(was, done, out, dev.accepts(k));
      BlocksStep(|data|);
      EncryptStep(all, c, iv, data, k, |done|, now, dev, n, out);
      FirstPiece(c, iv, done, data, n);
      if rest != [] {
        WrittenWhole(c, iv, rest, k + 1, was, done', dev);
      }
    }
  }

  // ----- incomplete writes -----

  /** What a pass leaves to be said about the rest. */
  ghost predicate Short(end: nat, size: nat, n: nat, k: nat, pos: int, accepts: nat -> int) {
    && end <= size + CipherSize(n)
    && (n > 0 && (pos < size || !AllWritten(n, k, pos, accepts)) ==> end < size + CipherSize(n))
  }

  lemma ShortStep(end: nat, size: nat, n: nat, k: nat, pos: int, accepts: nat -> int, wanted: nat, got: int, len: nat)
    requires n > 0 && wanted == PieceSize(Min(CHUNK, n)) && got == Transferred(pos, wanted, accepts(k))
    requires Behind(size, k, pos) && k < PASSES
    requires Short(end, size + wanted, n - Min(CHUNK, n), k + 1, Wrap32(pos + got), accepts)
    requires n <= CHUNK ==> end == len
    requires pos < size || got < wanted ==> len < size + wanted
    ensures Short(end, size, n, k, pos, accepts)
  {
    AllWrittenStep(n, k, pos, accepts, wanted, got);
    CipherSizeStep(n);
    StaysBehind(size, k, pos, wanted, got);
  }

  /** After a piece the same can be said with more bytes to be written. */
  lemma {:induction false} PieceReady(data: Bytes, k: nat, pos: int, dst: Bytes, dev: EncryptDevice, size: nat,
                                      out: Bytes, rest: Bytes, pos': int, dst': Bytes, size': nat)
    requires Behind(size, k, pos) && |dst| <= size && k + Blocks(|data|) <= PASSES && Allocates(dev, k, |data|)
    requires data != [] && rest == data[Min(CHUNK, |data|)..] && |out| <= PAGE_SIZE && size' == size + |out|
    requires pos' == Wrap32(pos + Transferred(pos, |out|, dev.accepts(k)))
    requires dst' == AfterWrite(dst, pos, out, dev.accepts(k))
    ensures Behind(size', k + 1, pos') && |dst'| <= size' && k + 1 + Blocks(|rest|) <= PASSES
    ensures Allocates(dev, k + 1, |rest|) && k < PASSES && !dev.allocFails(k)
  {
    BlocksStep(|data|);
    StaysBehind(size, k, pos, |out|, Transferred(pos, |out|, dev.accepts(k)));
    WriteEnds(dst, pos, out, dev.accepts(k), size);
  }

  lemma {:induction false} ShortBefore(c: Cipher, iv: Iv, data: Bytes, k: nat, pos: int, dst: Bytes,
                                       dev: EncryptDevice, size: nat, out: Bytes, rest: Bytes, pos': int, dst': Bytes,
                                       end: nat, size': nat)
    requires data != [] && out == EncryptChunk(c, iv, data[..Min(CHUNK, |data|)]) && rest == data[Min(CHUNK, |data|)..]
    requires Behind(size, k, pos) && |dst| <= size && k < PASSES && !dev.allocFails(k) && size' == size + |out|
    requires pos' == Wrap32(pos + Transferred(pos, |out|, dev.accepts(k)))
    requires dst' == AfterWrite(dst, pos, out, dev.accepts(k))
    requires end == |EncryptFrom(c, iv, rest, k + 1, pos', dst', dev)|
    requires Short(end, size', |rest|, k + 1, pos', dev.accepts)
    ensures Short(|EncryptFrom(c, iv, data, k, pos, dst, dev)|, size, |data|, k, pos, dev.accepts)
  {
    var n, got := Min(CHUNK, |data|), Transferred(pos, |out|, dev.accepts(k));
    ChunkFillsBuffer(c, iv, data[..n]);
    WriteEnds(dst, pos, out, dev.accepts(k), size);
    EncryptStep(EncryptFrom(c, iv, data, k, pos, dst, dev), c, iv, data, k, pos, dst, dev, n, out);
    ShortStep(end, size, |data|, k, pos, dev.accepts, |out|, got, |dst'|);
  }

  /** A write that falls short is never made up for. */
  lemma {:induction false} FallsShort(c: Cipher, iv: Iv, data: Bytes, k: nat, pos: int, dst: Bytes,
                                      dev: EncryptDevice, size: nat)
    requires Behind(size, k, pos) && |dst| <= size && k + Blocks(|data|) <= PASSES && Allocates(dev, k, |data|)
    ensures Short(|EncryptFrom(c, iv, data, k, pos, dst, dev)|, size, |data|, k, pos, dev.accepts)
    decreases |data|
  {
    if data == [] {
      assert CipherSize(0) == 0;
    } else {
      var n := Min(CHUNK, |data|);
      var out, rest := EncryptChunk(c, iv, data[..n]), data[n..];
      ChunkFillsBuffer(c, iv, data[..n]);
      var pos' := Wrap32(pos + Transferred(pos, |out|, dev.accepts(k)));
      var dst', size' := AfterWrite(dst, pos, out, dev.accepts(k)), size + |out|;
      PieceReady(data, k, pos, dst, dev, size, out, rest, pos', dst', size');
      FallsShort(c, iv, rest, k + 1, pos', dst', dev, size');
      var end := EncryptFrom(c, iv, rest, k + 1, pos', dst', dev);
      ShortBefore(c, iv, data, k, pos, dst, dev, size, out, rest, pos', dst', |end|, size');
    }
  }

  lemma BlocksFit(n: nat)
    requires n < 0x8000_0000
    ensures Blocks(n) <= PASSES
  {
  }

  /** Into a fresh file the loop writes the ciphertext if and only if every write is
      complete; otherwise what it leaves is shorter. */
  lemma {:induction false} IntactIff(c: Cipher, iv: Iv, data: Bytes, dev: EncryptDevice)
    requires |data| < 0x8000_0000 && Allocates(dev, 0, |data|)
    ensures var end := EncryptFrom(c, iv, data, 0, 0, [], dev);
            && (end == EncryptFile(c, iv, data) <==> AllWritten(|data|, 0, 0, dev.accepts))
            && (!AllWritten(|data|, 0, 0, dev.accepts) ==> |end| < CipherSize(|data|))
  {
    EncryptedSize(c, iv, data);
    if AllWritten(|data|, 0, 0, dev.accepts) {
      WrittenWhole(c, iv, data, 0, [], [], dev);
      OverwriteStart([], EncryptFile(c, iv, data));
      assert Overwrite([], 0, []) == [] && [] + EncryptFile(c, iv, data) == EncryptFile(c, iv, data);
    } else {
      BlocksFit(|data|);
      FallsShort(c, iv, data, 0, 0, [], dev, 0);
    }
  }

  // ----- which sizes can be written at all -----

  lemma NextPosition(k: nat)
    ensures Wrap32(Wrap32(k * PAGE_SIZE) + PAGE_SIZE) == Wrap32((k + 1) * PAGE_SIZE)
  {
    WrapSum(k * PAGE_SIZE, PAGE_SIZE);
  }

  lemma {:induction false} WrittenFits(n: nat, k: nat, accepts: nat -> int)
    requires n > 0 && k <= 0x8_0000 && AllWritten(n, k, Wrap32(k * PAGE_SIZE), accepts)
    ensures n + k * CHUNK <= LARGEST
    decreases n
  {
    NextPosition(k);
    if k == 0x8_0000 {
      assert false;
    } else if n > CHUNK {
      WrittenFits(n - CHUNK, k + 1, accepts);
    }
  }

  lemma {:induction false} FitsIsWritten(n: nat, k: nat, accepts: nat -> int)
    requires TakesAll(accepts) && n + k * CHUNK <= LARGEST
    ensures AllWritten(n, k, Wrap32(k * PAGE_SIZE), accepts)
    decreases n
  {
    NextPosition(k);
    if n == 0 {
    } else {
      assert k < 0x8_0000;
      WrapSmall(k * PAGE_SIZE);
      if n > CHUNK {
        FitsIsWritten(n - CHUNK, k + 1, accepts);
      }
    }
  }

  /** On a device that takes all, every write is complete exactly up to 2^19 * 4080 bytes. */
  lemma WrittenIffFits(n: nat, accepts: nat -> int)
    ensures AllWritten(n, 0, 0, accepts) ==> n <= LARGEST
    ensures TakesAll(accepts) ==> (AllWritten(n, 0, 0, accepts) <==> n <= LARGEST)
  {
    assert Wrap32(0 * PAGE_SIZE) == 0;
    if AllWritten(n, 0, 0, accepts) && n > 0 {
      WrittenFits(n, 0, accepts);
    }
    if TakesAll(accepts) && n <= LARGEST {
      FitsIsWritten(n, 0, accepts);
    }
  }

  // ----- files beyond that size, on a device that takes all -----

  /** What the position may be once it has left the `int` range: negative, or shortly before
      2^31, where errors bring it back from below. */
  predicate Far(pos: int) {
    -0x8000_0000 <= pos < 0 || 0x8000_0000 - EINVAL <= pos < 0x8000_0000
  }

  /** The start of the last piece below 2^31. */
  const EDGE: nat := 0x7FFF_F000

  lemma FarWrite(dst: Bytes, pos: int, out: Bytes, accepts: int)
    requires Far(pos) && |dst| >= EDGE && 16 <= |out| <= PAGE_SIZE <= accepts
    ensures var now := AfterWrite(dst, pos, out, accepts);
            && Far(Wrap32(pos + Transferred(pos, |out|, accepts)))
            && EDGE <= |now| <= Max(|dst|, 0x8000_0000 + |out|) && now[..EDGE] == dst[..EDGE]
  {
    assert out[..|out|] == out;
  }

  lemma {:induction false} FarWrites(c: Cipher, iv: Iv, data: Bytes, k: nat, pos: int, dst: Bytes, dev: EncryptDevice)
    requires TakesAll(dev.accepts) && Far(pos) && |dst| >= EDGE
    ensures var end := EncryptFrom(c, iv, data, k, pos, dst, dev);
            EDGE <= |end| <= Max(|dst|, 0x8000_0000 + |data| + BLOCK) && end[..EDGE] == dst[..EDGE]
    decreases |data|
  {
    if data == [] {
    } else if !dev.allocFails(k) {
      var n := Min(CHUNK, |data|);
      var out := EncryptChunk(c, iv, data[..n]);
      ChunkFillsBuffer(c, iv, data[..n]);
      FarWrite(dst, pos, out, dev.accepts(k));
      FarWrites(c, iv, data[n..], k + 1, Wrap32(pos + Transferred(pos, |out|, dev.accepts(k))),
                AfterWrite(dst, pos, out, dev.accepts(k)), dev);
    }
  }

  /** What follows the first `from` bytes gives back fewer than `n` bytes, or none. */
  ghost predicate GivesLess(c: Cipher, iv: Iv, end: Bytes, from: nat, n: nat) {
    from <= |end| && (DecryptFile(c, iv, end[from..]).Some? ==> |DecryptFile(c, iv, end[from..]).value| < n)
  }

  /** `done` is still there, and fewer than `n` bytes can be had of what follows it. */
  ghost predicate EndsLess(c: Cipher, iv: Iv, end: Bytes, done: Bytes, n: nat) {
    done <= end && GivesLess(c, iv, end, |done|, n)
  }

  lemma {:induction false} GivesLessBefore(c: Cipher, iv: Iv, end: Bytes, done: Bytes, chunk: Bytes, done': Bytes,
                                           n: nat)
    requires |chunk| == CHUNK && done' == done + EncryptChunk(c, iv, chunk)
    requires done' <= end && GivesLess(c, iv, end, |done'|, n)
    ensures done <= end && GivesLess(c, iv, end, |done|, CHUNK + n)
  {
    AfterPiece(c, iv, end, done, chunk, done');
  }

  lemma {:induction false} AfterPiece(c: Cipher, iv: Iv, end: Bytes, done: Bytes, chunk: Bytes, done': Bytes)
    requires |chunk| == CHUNK && done' == done + EncryptChunk(c, iv, chunk) && done' <= end
    ensures done <= end
    ensures DecryptFile(c, iv, end[|done|..]) == After(chunk, DecryptFile(c, iv, end[|done'|..]))
  {
    var more := end[|done'|..];
    assert end == done' + more;
    assert end[|done|..] == EncryptChunk(c, iv, chunk) + more;
    FullChunkAfter(c, iv, chunk, more);
  }

  /** The last full piece fits, the next write is refused, and what comes after that lands on
      the last piece. */
  lemma {:induction false} LastPiece(c: Cipher, iv: Iv, data: Bytes, k: nat, done: Bytes, dev: EncryptDevice)
    requires TakesAll(dev.accepts) && Allocates(dev, k, |data|) && k == 0x7_FFFF
    requires |done| == EDGE && |data| > CHUNK
    ensures EndsLess(c, iv, EncryptFrom(c, iv, data, k, |done|, done, dev), done, |data|)
  {
    var chunk, rest := data[..CHUNK], data[CHUNK..];
    var out := EncryptChunk(c, iv, chunk);
    ChunkFillsBuffer(c, iv, chunk);
    BlocksStep(|data|);
    BlocksStep(|rest|);
    FirstWrite(done, out, dev.accepts(k));
    var n := Min(CHUNK, |rest|);
    var second := EncryptChunk(c, iv, rest[..n]);
    ChunkFillsBuffer(c, iv, rest[..n]);
    var low := -0x8000_0000;
    assert Wrap32(EDGE + PAGE_SIZE) == low;
    assert EncryptFrom(c, iv, data, k, |done|, done, dev) == EncryptFrom(c, iv, rest, k + 1, low, done + out, dev);
    assert Transferred(low, |second|, dev.accepts(k + 1)) == -EINVAL && Wrap32(low - EINVAL) == 0x8000_0000 - EINVAL;
    assert EncryptFrom(c, iv, rest, k + 1, low, done + out, dev)
        == EncryptFrom(c, iv, rest[n..], k + 2, 0x8000_0000 - EINVAL, done + out, dev);
    AfterRefusal(c, iv, data, rest[n..], k + 2, done, chunk, dev);
  }

  lemma {:induction false} AfterRefusal(c: Cipher, iv: Iv, data: Bytes, rest: Bytes, k: nat, done: Bytes, chunk: Bytes,
                                        dev: EncryptDevice)
    requires TakesAll(dev.accepts) && |done| == EDGE && |chunk| == CHUNK < |data|
    requires rest != [] ==> |data| == 2 * CHUNK + |rest|
    ensures var end := EncryptFrom(c, iv, rest, k, 0x8000_0000 - EINVAL, done + EncryptChunk(c, iv, chunk), dev);
            |end| >= EDGE && end[..EDGE] == done && GivesLess(c, iv, end, EDGE, |data|)
  {
    var out := EncryptChunk(c, iv, chunk);
    var end := EncryptFrom(c, iv, rest, k, 0x8000_0000 - EINVAL, done + out, dev);
    ChunkFillsBuffer(c, iv, chunk);
    FarWrites(c, iv, rest, k, 0x8000_0000 - EINVAL, done + out, dev);
    assert (done + out)[..EDGE] == done;
    if rest == [] {
      assert end[EDGE..] == out + [];
      FullChunkAfter(c, iv, chunk, []);
    } else {
      DecryptedNoLonger(c, iv, end[EDGE..]);
    }
  }

  /** One pass with a full chunk, below 2^31. */
  lemma {:induction false} FullPiece(c: Cipher, iv: Iv, data: Bytes, k: nat, done: Bytes, dev: EncryptDevice,
                                     chunk: Bytes, rest: Bytes, done': Bytes)
    requires |data| >= CHUNK && chunk == data[..CHUNK] && rest == data[CHUNK..] && |done| + PAGE_SIZE < 0x8000_0000
    requires Allocates(dev, k, |data|) && dev.accepts(k) >= PAGE_SIZE && done' == done + EncryptChunk(c, iv, chunk)
    ensures EncryptFrom(c, iv, data, k, |done|, done, dev) == EncryptFrom(c, iv, rest, k + 1, |done'|, done', dev)
    ensures |done'| == |done| + PAGE_SIZE && Allocates(dev, k + 1, |rest|) && |rest| == |data| - CHUNK
  {
    var out := EncryptChunk(c, iv, chunk);
    ChunkFillsBuffer(c, iv, chunk);
    BlocksStep(|data|);
    FirstWrite(done, out, dev.accepts(k));
    WrapSmall(|done'|);
    EncryptStep(EncryptFrom(c, iv, data, k, |done|, done, dev), c, iv, data, k, |done|, done, dev, CHUNK, out);
  }

  lemma Places(n: nat, k: nat, size: nat)
    requires k < 0x7_FFFF && size == k * PAGE_SIZE && n + k * CHUNK > LARGEST
    ensures n > CHUNK && (n - CHUNK) + (k + 1) * CHUNK > LARGEST
    ensures size + PAGE_SIZE == (k + 1) * PAGE_SIZE < 0x8000_0000
  {
  }

  lemma {:induction false} BeyondBefore(c: Cipher, iv: Iv, data: Bytes, k: nat, done: Bytes, dev: EncryptDevice,
                                        chunk: Bytes, rest: Bytes, done': Bytes)
    requires |data| >= CHUNK && chunk == data[..CHUNK] && rest == data[CHUNK..]
    requires done' == done + EncryptChunk(c, iv, chunk)
    requires var end := EncryptFrom(c, iv, data, k, |done|, done, dev);
             && end == EncryptFrom(c, iv, rest, k + 1, |done'|, done', dev)
             && EndsLess(c, iv, end, done', |rest|)
    ensures EndsLess(c, iv, EncryptFrom(c, iv, data, k, |done|, done, dev), done, |data|)
  {
    GivesLessBefore(c, iv, EncryptFrom(c, iv, data, k, |done|, done, dev), done, chunk, done', |rest|);
  }

  lemma {:induction false} Beyond(c: Cipher, iv: Iv, data: Bytes, k: nat, done: Bytes, dev: EncryptDevice)
    requires TakesAll(dev.accepts) && Allocates(dev, k, |data|) && k <= 0x7_FFFF
    requires |done| == k * PAGE_SIZE && |data| + k * CHUNK > LARGEST
    ensures EndsLess(c, iv, EncryptFrom(c, iv, data, k, |done|, done, dev), done, |data|)
    decreases |data|
  {
    if k == 0x7_FFFF {
      LastPiece(c, iv, data, k, done, dev);
    } else {
      Places(|data|, k, |done|);
      var chunk, rest := data[..CHUNK], data[CHUNK..];
      var done' := done + EncryptChunk(c, iv, chunk);
      FullPiece(c, iv, data, k, done, dev, chunk, rest, done');
      Beyond(c, iv, rest, k + 1, done', dev);
      BeyondBefore(c, iv, data, k, done, dev, chunk, rest, done');
    }
  }

  // ----- the whole operation -----

  /** On a device that takes all, what the loop writes into a fresh file gives the file back
      exactly up to 2^19 * 4080 bytes.  Of a larger one the end is missing, and from one
      chunk more on ciphertext already written is spoilt. */
  lemma {:induction false} RecoverableIffFits(c: Cipher, iv: Iv, content: Bytes, dev: EncryptDevice)
    requires TakesAll(dev.accepts) && Allocates(dev, 0, |Seen(content)|)
    ensures DecryptFile(c, iv, EncryptFrom(c, iv, Seen(content), 0, 0, [], dev)) == Some(content)
            <==> |content| <= LARGEST
  {
    var seen := Seen(content);
    var end := EncryptFrom(c, iv, seen, 0, 0, [], dev);
    SeenMeaning(content);
    WrittenIffFits(|seen|, dev.accepts);
    if |seen| <= LARGEST {
      IntactIff(c, iv, seen, dev);
      FileRoundTrip(c, iv, seen);
    } else {
      Beyond(c, iv, seen, 0, [], dev);
      assert end[0..] == end;
    }
  }

  /** What the loop leaves of `seen` is the ciphertext of `data` only if it read all of that
      and wrote it whole. */
  lemma {:induction false} SealedIs(c: Cipher, iv: Iv, seen: Bytes, data: Bytes, dev: EncryptDevice)
    requires |seen| < 0x8000_0000 && |seen| <= |data| && Allocates(dev, 0, |seen|)
    ensures EncryptFrom(c, iv, seen, 0, 0, [], dev) == EncryptFile(c, iv, data)
            <==> seen == data && AllWritten(|data|, 0, 0, dev.accepts)
  {
    IntactIff(c, iv, seen, dev);
    EncryptedSize(c, iv, data);
    CipherSizeGrows(|seen|, |data|);
    if EncryptFile(c, iv, seen) == EncryptFile(c, iv, data) {
      EncryptFileInjective(c, iv, seen, data);
    }
  }

  /** Complete writes leave the ciphertext over whatever there was. */
  lemma {:induction false} WrittenOver(c: Cipher, iv: Iv, data: Bytes, was: Bytes, dev: EncryptDevice)
    requires AllWritten(|data|, 0, 0, dev.accepts) && Allocates(dev, 0, |data|)
    ensures EncryptFrom(c, iv, data, 0, 0, was, dev) == Overwrite(was, 0, EncryptFile(c, iv, data))
  {
    WrittenWhole(c, iv, data, 0, was, [], dev);
    assert Overwrite(was, 0, []) == was && [] + EncryptFile(c, iv, data) == EncryptFile(c, iv, data);
  }

  /** The source has been encrypted and unlinked, as far as the call knows. */
  ghost predicate CallSucceeds(files: Files, src: Path, dev: EncryptDevice) {
    src in files && dev.trashOpens && !dev.unlinkFails && Allocates(dev, 0, |Seen(files[src])|)
  }

  /** A call into a fresh trash file succeeds and unlinks the source, whatever the device
      does; the ciphertext is there if and only if every write was complete. */
  lemma {:induction false} MoveIntactIff(files: Files, src: Path, trash: Path, c: Cipher, iv: Iv, dev: EncryptDevice)
    requires CallSucceeds(files, src, dev) && src != trash && ContentOrEmpty(files, trash) == []
    ensures var after := EncryptOutcome(files, src, trash, c, iv, dev);
            && after.err == 0 && src !in after.files && trash in after.files
            && (after.files[trash] == EncryptFile(c, iv, files[src]) <==> AllWritten(|files[src]|, 0, 0, dev.accepts))
  {
    var content := files[src];
    SeenMeaning(content);
    SealedIs(c, iv, Seen(content), content, dev);
    WrittenIffFits(|content|, dev.accepts);
  }

  /** The content can be had neither from the source nor from the trash file. */
  ghost predicate LostTo(after: Files, content: Bytes, src: Path, trash: Path, c: Cipher, iv: Iv) {
    && !(src in after && after[src] == content)
    && !(trash in after && DecryptFile(c, iv, after[trash]) == Some(content))
  }

  /** On a device that takes all, a call into a fresh trash file loses the data exactly of
      files with more than 2^19 * 4080 bytes. */
  lemma {:induction false} MoveLosesIffLarger(files: Files, src: Path, trash: Path, c: Cipher, iv: Iv,
                                              dev: EncryptDevice)
    requires CallSucceeds(files, src, dev) && src != trash && ContentOrEmpty(files, trash) == []
    requires TakesAll(dev.accepts)
    ensures LostTo(EncryptOutcome(files, src, trash, c, iv, dev).files, files[src], src, trash, c, iv)
            <==> |files[src]| > LARGEST
  {
    RecoverableIffFits(c, iv, files[src], dev);
  }

  /** Once a write falls short, nothing is taken any more. */
  ghost predicate StaysFull(n: nat, k: nat, pos: int, accepts: nat -> int)
    decreases n
  {
    n == 0
    || var m := Min(CHUNK, n);
       if Transferred(pos, PieceSize(m), accepts(k)) == PieceSize(m)
       then StaysFull(n - m, k + 1, Wrap32(pos + PieceSize(m)), accepts)
       else NothingFrom(k + 1, k + Blocks(n), accepts)
  }

  ghost predicate NothingFrom(from: nat, to: nat, accepts: nat -> int) {
    forall j: nat :: from <= j < to ==> accepts(j) <= 0
  }

  lemma {:induction false} NothingTaken(c: Cipher, iv: Iv, data: Bytes, k: nat, pos: int, dst: Bytes,
                                        dev: EncryptDevice)
    requires NothingFrom(k, k + Blocks(|data|), dev.accepts)
    ensures EncryptFrom(c, iv, data, k, pos, dst, dev) == dst
    decreases |data|
  {
    if data == [] || dev.allocFails(k) {
    } else {
      var n := Min(CHUNK, |data|);
      var out := EncryptChunk(c, iv, data[..n]);
      ChunkFillsBuffer(c, iv, data[..n]);
      BlocksStep(|data|);
      NothingTaken(c, iv, data[n..], k + 1, Wrap32(pos + Transferred(pos, |out|, dev.accepts(k))), dst, dev);
    }
  }

  lemma WholeBlocks(end: nat, n: nat)
    requires end % 16 == 0 && end < PieceSize(n)
    ensures end <= n
  {
  }

  lemma {:induction false} DecryptedLess(c: Cipher, iv: Iv, piece: Bytes)
    ensures DecryptChunk(c, iv, piece).Some? ==> |piece| % BLOCK == 0 && |DecryptChunk(c, iv, piece).value| < |piece|
  {
  }

  /** A piece with its last blocks missing does not decrypt to as much as there was. */
  lemma {:induction false} ShortPiece(c: Cipher, iv: Iv, end: Bytes, n: nat)
    requires 0 < n <= CHUNK && |end| < PieceSize(n)
    ensures DecryptFile(c, iv, end).Some? ==> |DecryptFile(c, iv, end).value| < n
  {
    if end == [] {
    } else {
      assert |end| <= PAGE_SIZE;
      OnePiece(c, iv, end);
      DecryptedLess(c, iv, end);
      if |end| % BLOCK == 0 {
        WholeBlocks(|end|, n);
      }
    }
  }

  lemma PartWritten(done: Bytes, out: Bytes, accepts: int)
    requires Transferred(|done|, |out|, accepts) < |out|
    ensures var now := AfterWrite(done, |done|, out, accepts);
            |done| <= |now| < |done| + |out| && now[..|done|] == done
  {
  }

  /** The write that falls short, with nothing taken after it. */
  lemma {:induction false} ShortWriteGivesLess(c: Cipher, iv: Iv, data: Bytes, k: nat, pos: int, done: Bytes,
                                               dev: EncryptDevice)
    requires data != [] && !dev.allocFails(k) && (pos == |done| || pos < 0)
    requires NothingFrom(k + 1, k + Blocks(|data|), dev.accepts)
    requires var m := PieceSize(Min(CHUNK, |data|)); Transferred(pos, m, dev.accepts(k)) < m
    ensures var end := EncryptFrom(c, iv, data, k, pos, done, dev);
            |end| >= |done| && end[..|done|] == done && GivesLess(c, iv, end, |done|, |data|)
  {
    var n := Min(CHUNK, |data|);
    var out, rest := EncryptChunk(c, iv, data[..n]), data[n..];
    ChunkFillsBuffer(c, iv, data[..n]);
    var pos' := Wrap32(pos + Transferred(pos, |out|, dev.accepts(k)));
    var now := AfterWrite(done, pos, out, dev.accepts(k));
    BlocksStep(|data|);
    NothingTaken(c, iv, rest, k + 1, pos', now, dev);
    EncryptStep(EncryptFrom(c, iv, data, k, pos, done, dev), c, iv, data, k, pos, done, dev, n, out);
    if pos >= 0 {
      PartWritten(done, out, dev.accepts(k));
    }
    ShortPiece(c, iv, now[|done|..], n);
  }

  /** A piece written whole, with less than the rest after it. */
  lemma {:induction false} WholeWriteGivesLess(c: Cipher, iv: Iv, data: Bytes, k: nat, pos: int, done: Bytes,
                                               dev: EncryptDevice, chunk: Bytes, rest: Bytes, done': Bytes, pos': int)
    requires |data| > CHUNK && chunk == data[..CHUNK] && rest == data[CHUNK..] && !dev.allocFails(k) && pos == |done|
    requires Transferred(pos, PAGE_SIZE, dev.accepts(k)) == PAGE_SIZE && pos' == Wrap32(pos + PAGE_SIZE)
    requires done' == done + EncryptChunk(c, iv, chunk)
    requires var end := EncryptFrom(c, iv, rest, k + 1, pos', done', dev);
             |end| >= |done'| && end[..|done'|] == done' && GivesLess(c, iv, end, |done'|, |rest|)
    ensures var end := EncryptFrom(c, iv, data, k, pos, done, dev);
            |end| >= |done| && end[..|done|] == done && GivesLess(c, iv, end, |done|, |data|)
  {
    var out := EncryptChunk(c, iv, chunk);
    ChunkFillsBuffer(c, iv, chunk);
    FirstWrite(done, out, dev.accepts(k));
    EncryptStep(EncryptFrom(c, iv, data, k, pos, done, dev), c, iv, data, k, pos, done, dev, CHUNK, out);
    GivesLessBefore(c, iv, EncryptFrom(c, iv, rest, k + 1, pos', done', dev), done, chunk, done', |rest|);
  }

  /** On a device that stays full, what was written by the time it filled up decrypts to less
      than the file, or not at all. */
  lemma {:induction false} FullGivesLess(c: Cipher, iv: Iv, data: Bytes, k: nat, pos: int, done: Bytes,
                                         dev: EncryptDevice)
    requires Allocates(dev, k, |data|) && (pos == |done| < 0x8000_0000 || pos < 0)
    requires StaysFull(|data|, k, pos, dev.accepts) && !AllWritten(|data|, k, pos, dev.accepts)
    ensures var end := EncryptFrom(c, iv, data, k, pos, done, dev);
            |end| >= |done| && end[..|done|] == done && GivesLess(c, iv, end, |done|, |data|)
    decreases |data|
  {
    var n := Min(CHUNK, |data|);
    BlocksStep(|data|);
    if Transferred(pos, PieceSize(n), dev.accepts(k)) < PieceSize(n) {
      ShortWriteGivesLess(c, iv, data, k, pos, done, dev);
    } else {
      var chunk, rest := data[..CHUNK], data[CHUNK..];
      var done', pos' := done + EncryptChunk(c, iv, chunk), Wrap32(pos + PAGE_SIZE);
      ChunkFillsBuffer(c, iv, chunk);
      FullGivesLess(c, iv, rest, k + 1, pos', done', dev);
      WholeWriteGivesLess(c, iv, data, k, pos, done, dev, chunk, rest, done', pos');
    }
  }

  /** Where nothing is taken any more once a write has fallen short, a call into a fresh trash
      file loses the data if and only if some write falls short. */
  lemma {:induction false} MoveLosesIffShort(files: Files, src: Path, trash: Path, c: Cipher, iv: Iv,
                                             dev: EncryptDevice)
    requires CallSucceeds(files, src, dev) && src != trash && ContentOrEmpty(files, trash) == []
    requires StaysFull(|Seen(files[src])|, 0, 0, dev.accepts)
    ensures LostTo(EncryptOutcome(files, src, trash, c, iv, dev).files, files[src], src, trash, c, iv)
            <==> !AllWritten(|files[src]|, 0, 0, dev.accepts)
  {
    var content, seen := files[src], Seen(files[src]);
    var end := EncryptFrom(c, iv, seen, 0, 0, [], dev);
    SeenMeaning(content);
    WrittenIffFits(|content|, dev.accepts);
    if AllWritten(|seen|, 0, 0, dev.accepts) {
      IntactIff(c, iv, seen, dev);
      FileRoundTrip(c, iv, seen);
    } else {
      FullGivesLess(c, iv, seen, 0, 0, [], dev);
      assert end[0..] == end;
    }
  }

  /** So a file of one chunk is lost exactly if its only write falls short. */
  lemma {:induction false} MoveLosesOneChunkIff(files: Files, src: Path, trash: Path, c: Cipher, iv: Iv,
                                                dev: EncryptDevice)
    requires CallSucceeds(files, src, dev) && src != trash && ContentOrEmpty(files, trash) == []
    requires 0 < |files[src]| <= CHUNK
    ensures LostTo(EncryptOutcome(files, src, trash, c, iv, dev).files, files[src], src, trash, c, iv)
            <==> dev.accepts(0) < PieceSize(|files[src]|)
  {
    var n := |files[src]|;
    SeenMeaning(files[src]);
    AllWrittenStep(n, 0, 0, dev.accepts, PieceSize(n), Transferred(0, PieceSize(n), dev.accepts(0)));
    assert Blocks(n) == 1;
    MoveLosesIffShort(files, src, trash, c, iv, dev);
  }

  /** And on a full device every file that is not empty is lost. */
  lemma {:induction false} FullDeviceLoses(files: Files, src: Path, trash: Path, c: Cipher, iv: Iv, dev: EncryptDevice)
    requires CallSucceeds(files, src, dev) && src != trash && ContentOrEmpty(files, trash) == []
    requires files[src] != [] && forall k: nat :: dev.accepts(k) <= 0
    ensures var after := EncryptOutcome(files, src, trash, c, iv, dev);
            after.err == 0 && after.files[trash] == [] && LostTo(after.files, files[src], src, trash, c, iv)
  {
    NothingTaken(c, iv, Seen(files[src]), 0, 0, [], dev);
  }

  // ----- the start of a larger file -----

  /** What follows the first `from` bytes gives back at least `start`, or nothing. */
  ghost predicate GivesStart(c: Cipher, iv: Iv, end: Bytes, from: nat, start: Bytes) {
    from <= |end| && (DecryptFile(c, iv, end[from..]).Some? ==> start <= DecryptFile(c, iv, end[from..]).value)
  }

  lemma {:induction false} GivesStartBefore(c: Cipher, iv: Iv, end: Bytes, done: Bytes, chunk: Bytes, done': Bytes,
                                            start: Bytes)
    requires |chunk| == CHUNK && done' == done + EncryptChunk(c, iv, chunk)
    requires done' <= end && GivesStart(c, iv, end, |done'|, start)
    ensures GivesStart(c, iv, end, |done|, chunk + start)
  {
    AfterPiece(c, iv, end, done, chunk, done');
  }

  lemma ChunkThen(data: Bytes, chunk: Bytes, rest: Bytes, left: nat)
    requires |chunk| == CHUNK && data == chunk + rest && left <= |rest|
    ensures data[..left + CHUNK] == chunk + rest[..left]
  {
  }

  /** All but the last full piece below 2^31 stay as they are. */
  lemma {:induction false} BeyondStart(c: Cipher, iv: Iv, data: Bytes, k: nat, done: Bytes, dev: EncryptDevice,
                                       left: nat)
    requires TakesAll(dev.accepts) && Allocates(dev, k, |data|) && k <= 0x7_FFFF && left == (0x7_FFFF - k) * CHUNK
    requires |done| == k * PAGE_SIZE && |data| + k * CHUNK > LARGEST
    ensures left <= |data|
    ensures GivesStart(c, iv, EncryptFrom(c, iv, data, k, |done|, done, dev), |done|, data[..left])
    decreases |data|
  {
    if k == 0x7_FFFF {
      Beyond(c, iv, data, k, done, dev);
    } else {
      Places(|data|, k, |done|);
      var chunk, rest := data[..CHUNK], data[CHUNK..];
      var done', left' := done + EncryptChunk(c, iv, chunk), left - CHUNK;
      FullPiece(c, iv, data, k, done, dev, chunk, rest, done');
      BeyondStart(c, iv, rest, k + 1, done', dev, left');
      BeyondStartBefore(c, iv, data, k, done, dev, chunk, rest, done', left');
    }
  }

  lemma {:induction false} BeyondStartBefore(c: Cipher, iv: Iv, data: Bytes, k: nat, done: Bytes, dev: EncryptDevice,
                                             chunk: Bytes, rest: Bytes, done': Bytes, left: nat)
    requires TakesAll(dev.accepts) && Allocates(dev, k + 1, |rest|) && k < 0x7_FFFF
    requires |chunk| == CHUNK && data == chunk + rest && done' == done + EncryptChunk(c, iv, chunk)
    requires |done'| == (k + 1) * PAGE_SIZE && |rest| + (k + 1) * CHUNK > LARGEST && left <= |rest|
    requires var end := EncryptFrom(c, iv, data, k, |done|, done, dev);
             && end == EncryptFrom(c, iv, rest, k + 1, |done'|, done', dev)
             && GivesStart(c, iv, end, |done'|, rest[..left])
    ensures GivesStart(c, iv, EncryptFrom(c, iv, data, k, |done|, done, dev), |done|, data[..left + CHUNK])
  {
    var end := EncryptFrom(c, iv, data, k, |done|, done, dev);
    Beyond(c, iv, rest, k + 1, done', dev);
    GivesStartBefore(c, iv, end, done, chunk, done', rest[..left]);
    ChunkThen(data, chunk, rest, left);
  }
}
