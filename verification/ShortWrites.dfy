/** What one write that is not complete does to everything written after it: the loops go on from
    the position that the result of the write brings them to. */
module ShortWrites {
  import opened Bytes
  import opened Storage
  import opened FileSystem
  import opened Encryption
  import opened EncryptFiles
  import opened EncryptLoss
  import opened Framing
  import opened CompressFiles
  import opened CompressLoss

  // ----- encrypting -----

  /** The first `n` chunks are written whole: where the loop stands then. */
  ghost predicate Stands(c: Cipher, iv: Iv, all: Bytes, rest: Bytes, k: nat, was: Bytes, done: Bytes,
                         dev: EncryptDevice) {
    all == EncryptFrom(c, iv, rest, k, Wrap32(|done|), Overwrite(was, 0, done), dev)
  }

  lemma {:induction false} ChunkDone(c: Cipher, iv: Iv, data: Bytes, k: nat, was: Bytes, done: Bytes,
                                     dev: EncryptDevice, n: nat, done': Bytes)
    requires |data| >= CHUNK && |done| < 0x8000_0000 && n > 0 && !dev.allocFails(k)
    requires AllWritten(n * CHUNK, k, |done|, dev.accepts) && done' == done + EncryptChunk(c, iv, data[..CHUNK])
    ensures |done'| == |done| + PAGE_SIZE
    ensures Stands(c, iv, EncryptFrom(c, iv, data, k, |done|, Overwrite(was, 0, done), dev), data[CHUNK..], k + 1, was,
                   done', dev)
    ensures n > 1 ==> |done'| < 0x8000_0000 && AllWritten((n - 1) * CHUNK, k + 1, |done'|, dev.accepts)
  {
    var out, now := EncryptChunk(c, iv, data[..CHUNK]), Overwrite(was, 0, done);
    ChunkFillsBuffer(c, iv, data[..CHUNK]);
    NextWrite(n * CHUNK, k, |done|, dev.accepts, CHUNK);
    WriteGoesOn(was, done, out, dev.accepts(k));
    EncryptStep(EncryptFrom(c, iv, data, k, |done|, now, dev), c, iv, data, k, |done|, now, dev, CHUNK, out);
  }

  /** So much of the loop on `data` is over after `n` chunks. */
  ghost predicate Reaches(c: Cipher, iv: Iv, data: Bytes, k: nat, was: Bytes, done: Bytes, dev: EncryptDevice, n: nat)
    requires n * CHUNK <= |data|
  {
    var all := EncryptFrom(c, iv, data, k, Wrap32(|done|), Overwrite(was, 0, done), dev);
    var done' := done + EncryptFile(c, iv, data[..n * CHUNK]);
    |done'| == |done| + n * PAGE_SIZE && Stands(c, iv, all, data[n * CHUNK..], k + n, was, done', dev)
  }

  lemma {:induction false} ReachesNone(c: Cipher, iv: Iv, data: Bytes, k: nat, was: Bytes, done: Bytes,
                                       dev: EncryptDevice)
    ensures Reaches(c, iv, data, k, was, done, dev, 0)
  {
    assert data[0..] == data && done + EncryptFile(c, iv, data[..0]) == done;
  }

  lemma {:induction false} StartNext(c: Cipher, iv: Iv, data: Bytes, done: Bytes, n: nat, rest: Bytes, done': Bytes)
    requires 0 < n && n * CHUNK <= |data| && rest == data[CHUNK..] && done' == done + EncryptChunk(c, iv, data[..CHUNK])
    ensures done + EncryptFile(c, iv, data[..n * CHUNK]) == done' + EncryptFile(c, iv, rest[..(n - 1) * CHUNK])
    ensures data[n * CHUNK..] == rest[(n - 1) * CHUNK..]
  {
    var start := data[..n * CHUNK];
    assert start[..CHUNK] == data[..CHUNK] && start[CHUNK..] == rest[..(n - 1) * CHUNK];
    FirstPiece(c, iv, done, start, CHUNK);
  }

  lemma {:induction false} ReachesNext(c: Cipher, iv: Iv, data: Bytes, k: nat, was: Bytes, done: Bytes,
                                       dev: EncryptDevice, n: nat, rest: Bytes, done': Bytes)
    requires 0 < n && n * CHUNK <= |data| && rest == data[CHUNK..] && done' == done + EncryptChunk(c, iv, data[..CHUNK])
    requires Stands(c, iv, EncryptFrom(c, iv, data, k, Wrap32(|done|), Overwrite(was, 0, done), dev), rest, k + 1, was,
                    done', dev)
    requires |done'| == |done| + PAGE_SIZE && Reaches(c, iv, rest, k + 1, was, done', dev, n - 1)
    ensures Reaches(c, iv, data, k, was, done, dev, n)
  {
    StartNext(c, iv, data, done, n, rest, done');
  }

  lemma {:induction false} ChunksDone(c: Cipher, iv: Iv, data: Bytes, k: nat, was: Bytes, done: Bytes,
                                      dev: EncryptDevice, n: nat)
    requires n * CHUNK <= |data| && |done| < 0x8000_0000 && AllWritten(n * CHUNK, k, |done|, dev.accepts)
    requires forall j: nat :: k <= j < k + n ==> !dev.allocFails(j)
    ensures Reaches(c, iv, data, k, was, done, dev, n)
    decreases n
  {
    if n == 0 {
      ReachesNone(c, iv, data, k, was, done, dev);
    } else {
      var rest, done' := data[CHUNK..], done + EncryptChunk(c, iv, data[..CHUNK]);
      WrapSmall(|done|);
      ChunkDone(c, iv, data, k, was, done, dev, n, done');
      if n == 1 {
        ReachesNone(c, iv, rest, k + 1, was, done', dev);
      } else {
        ChunksDone(c, iv, rest, k + 1, was, done', dev, n - 1);
      }
      ReachesNext(c, iv, data, k, was, done, dev, n, rest, done');
    }
  }

  /** Complete writes from any position inside the file on. */
  lemma {:induction false} WrittenAt(c: Cipher, iv: Iv, data: Bytes, k: nat, pos: nat, dst: Bytes, dev: EncryptDevice)
    requires pos < 0x8000_0000 && pos <= |dst| && AllWritten(|data|, k, pos, dev.accepts)
    requires Allocates(dev, k, |data|)
    ensures EncryptFrom(c, iv, data, k, pos, dst, dev) == Overwrite(dst, pos, EncryptFile(c, iv, data))
  {
    var done, more := dst[..pos], EncryptFile(c, iv, data);
    assert Overwrite(dst, 0, done) == dst;
    WrittenWhole(c, iv, data, k, dst, done, dev);
    OverwriteAppends(dst, done, more);
  }

  /** The part of the file that is written before the incomplete write, the piece it was to
      write, and the part after it. */
  function StartOf(data: Bytes, n: nat): Bytes
    requires n * CHUNK < |data|
  {
    data[..n * CHUNK]
  }

  function ChunkOf(data: Bytes, n: nat): (r: Bytes)
    requires n * CHUNK < |data|
    ensures 0 < |r| <= CHUNK
  {
    data[n * CHUNK..][..Min(CHUNK, |data| - n * CHUNK)]
  }

  function RestOf(data: Bytes, n: nat): Bytes
    requires n * CHUNK < |data|
  {
    data[n * CHUNK..][|ChunkOf(data, n)|..]
  }

  lemma ThreeParts(data: Bytes, n: nat)
    requires n * CHUNK < |data|
    ensures StartOf(data, n) + ChunkOf(data, n) + RestOf(data, n) == data
  {
  }

  /** Where the incomplete write is made, what it returns, and where the next one is made. */
  function Place(n: nat): int {
    Wrap32(n * PAGE_SIZE)
  }

  function Got(data: Bytes, n: nat, accepts: nat -> int): int
    requires n * CHUNK < |data|
  {
    Transferred(Place(n), PieceSize(|ChunkOf(data, n)|), accepts(n))
  }

  function NextPlace(data: Bytes, n: nat, accepts: nat -> int): int
    requires n * CHUNK < |data|
  {
    Wrap32(Place(n) + Got(data, n, accepts))
  }

  /** All writes are complete but that of chunk `n`; the one after it is not refused. */
  ghost predicate OneIncomplete(data: Bytes, n: nat, dev: EncryptDevice) {
    && n * CHUNK < |data| && Allocates(dev, 0, |data|) && AllWritten(n * CHUNK, 0, 0, dev.accepts)
    && Got(data, n, dev.accepts) < PieceSize(|ChunkOf(data, n)|)
    && NextPlace(data, n, dev.accepts) >= 0
    && AllWritten(|RestOf(data, n)|, n + 1, NextPlace(data, n, dev.accepts), dev.accepts)
  }

  lemma {:induction false} WhereItGoes(data: Bytes, n: nat, dev: EncryptDevice)
    requires OneIncomplete(data, n, dev)
    ensures n <= 0x8_0000
    ensures var got, next := Got(data, n, dev.accepts), NextPlace(data, n, dev.accepts);
            && (n < 0x8_0000 ==> Place(n) == n * PAGE_SIZE && next == n * PAGE_SIZE + got)
            && (n == 0x8_0000 ==> Place(n) < 0 && got == -EINVAL && next == 0x8000_0000 - EINVAL)
            && next <= n * PAGE_SIZE + Max(got, 0) && (got >= 0 ==> next == n * PAGE_SIZE + got)
  {
    WrittenIffFits(n * CHUNK, dev.accepts);
    if n < 0x8_0000 {
      WrapSmall(n * PAGE_SIZE);
    }
  }

  /** The pass of chunk `n`, in terms of its parts. */
  lemma {:induction false} IncompletePass(c: Cipher, iv: Iv, all: Bytes, left: Bytes, chunk: Bytes, rest: Bytes, n: nat,
                                          before: Bytes, dev: EncryptDevice)
    requires EncryptingTo(all, c, iv, left, n, Place(n), before, dev) && left != [] && !dev.allocFails(n)
    requires chunk == left[..Min(CHUNK, |left|)] && rest == left[|chunk|..]
    ensures var piece := EncryptChunk(c, iv, chunk);
            && |piece| == PieceSize(|chunk|)
            && EncryptingTo(all, c, iv, rest, n + 1,
                            Wrap32(Place(n) + Transferred(Place(n), |piece|, dev.accepts(n))),
                            AfterWrite(before, Place(n), piece, dev.accepts(n)), dev)
  {
    ChunkFillsBuffer(c, iv, chunk);
    EncryptStep(all, c, iv, left, n, Place(n), before, dev, |chunk|, EncryptChunk(c, iv, chunk));
  }

  lemma {:induction false} FromStart(c: Cipher, iv: Iv, data: Bytes, was: Bytes, n: nat, dev: EncryptDevice,
                                     done: Bytes)
    requires n * CHUNK < |data| && Allocates(dev, 0, |data|) && AllWritten(n * CHUNK, 0, 0, dev.accepts)
    requires done == EncryptFile(c, iv, StartOf(data, n))
    ensures |done| == n * PAGE_SIZE
    ensures EncryptingTo(EncryptFrom(c, iv, data, 0, 0, was, dev), c, iv, data[n * CHUNK..], n, Place(n),
                         Overwrite(was, 0, done), dev)
  {
    assert [] + done == done && Overwrite(was, 0, []) == was && Wrap32(0) == 0;
    PassesAreBlocks(|data|, n);
    ChunksDone(c, iv, data, 0, was, [], dev, n);
  }

  lemma CipherAt(dev: EncryptDevice, size: nat, n: nat)
    requires Allocates(dev, 0, size) && n * CHUNK < size
    ensures !dev.allocFails(n)
  {
    PassesAreBlocks(size, n);
  }

  /** A write that falls short leaves out the rest of its piece, and what follows is written right
      behind; one that fails with an error sets the rest of the file back by the error code, over
      the pieces before, as does the one refused at 2^31. */
  lemma {:induction false} OneIncompleteWrite(c: Cipher, iv: Iv, data: Bytes, was: Bytes, n: nat, dev: EncryptDevice)
    requires OneIncomplete(data, n, dev)
    ensures var got, next := Got(data, n, dev.accepts), NextPlace(data, n, dev.accepts);
            var done, more := EncryptFile(c, iv, StartOf(data, n)), EncryptFile(c, iv, RestOf(data, n));
            var piece := EncryptChunk(c, iv, ChunkOf(data, n));
            && |done| == n * PAGE_SIZE && |piece| == PieceSize(|ChunkOf(data, n)|)
            && next == (if n < 0x8_0000 then n * PAGE_SIZE + got else 0x8000_0000 - EINVAL)
            && EncryptFrom(c, iv, data, 0, 0, was, dev) == Displaced(was, done, piece, got, next, more)
  {
    var done, got := EncryptFile(c, iv, StartOf(data, n)), Got(data, n, dev.accepts);
    WhereItGoes(data, n, dev);
    FromStart(c, iv, data, was, n, dev, done);
    CipherAt(dev, |data|, n);
    RestAllocates(data, n, dev);
    FromIncomplete(c, iv, EncryptFrom(c, iv, data, 0, 0, was, dev), data[n * CHUNK..], ChunkOf(data, n),
                   RestOf(data, n), n, was, done, got, NextPlace(data, n, dev.accepts), n * PAGE_SIZE, dev);
  }

  lemma {:induction false} FromIncomplete(c: Cipher, iv: Iv, all: Bytes, left: Bytes, chunk: Bytes, rest: Bytes,
                                          n: nat, was: Bytes, done: Bytes, got: int, next: nat, end: nat,
                                          dev: EncryptDevice)
    requires EncryptingTo(all, c, iv, left, n, Place(n), Overwrite(was, 0, done), dev)
    requires left != [] && !dev.allocFails(n) && chunk == left[..Min(CHUNK, |left|)] && rest == left[|chunk|..]
    requires got == Transferred(Place(n), PieceSize(|chunk|), dev.accepts(n)) < PieceSize(|chunk|)
    requires next == Wrap32(Place(n) + got) && next <= end + Max(got, 0) && (got >= 0 ==> next == end + got)
    requires end == |done| && (Place(n) == end || Place(n) < 0)
    requires AllWritten(|rest|, n + 1, next, dev.accepts) && Allocates(dev, n + 1, |rest|)
    ensures var piece := EncryptChunk(c, iv, chunk);
            && |piece| == PieceSize(|chunk|)
            && all == Displaced(was, done, piece, got, next, EncryptFile(c, iv, rest))
  {
    var before, piece := Overwrite(was, 0, done), EncryptChunk(c, iv, chunk);
    IncompletePass(c, iv, all, left, chunk, rest, n, before, dev);
    PartTaken(was, done, piece, dev.accepts(n), Place(n), got);
    RestWritten(c, iv, all, rest, n + 1, next, was, done, piece, got,
                AfterWrite(before, Place(n), piece, dev.accepts(n)), dev);
  }

  lemma {:induction false} RestWritten(c: Cipher, iv: Iv, all: Bytes, rest: Bytes, k: nat, next: nat, was: Bytes,
                                       done: Bytes, piece: Bytes, got: int, now: Bytes, dev: EncryptDevice)
    requires EncryptingTo(all, c, iv, rest, k, next, now, dev) && next < 0x8000_0000 && next <= |now|
    requires AllWritten(|rest|, k, next, dev.accepts) && Allocates(dev, k, |rest|)
    requires got < |piece| && (got >= 0 ==> next == |done| + got)
    requires now == Taken(was, done, piece, got)
    ensures all == Displaced(was, done, piece, got, next, EncryptFile(c, iv, rest))
  {
    WrittenAt(c, iv, rest, k, next, now, dev);
    MoreDisplaced(was, done, piece, got, next, EncryptFile(c, iv, rest), now);
  }

  /** What is in the file after a write of `piece` that took `got` bytes. */
  function Taken(was: Bytes, done: Bytes, piece: Bytes, got: int): Bytes
    requires got < |piece|
  {
    if got >= 0 then Overwrite(was, 0, done + piece[..got]) else Overwrite(was, 0, done)
  }

  /** `more` behind what was taken of `piece`, or over what there was by then. */
  function Displaced(was: Bytes, done: Bytes, piece: Bytes, got: int, next: int, more: Bytes): Bytes
    requires got < |piece| && next >= 0
  {
    if got >= 0 then Overwrite(was, 0, done + piece[..got] + more)
    else Overwrite(Overwrite(was, 0, done), next, more)
  }

  lemma MoreDisplaced(was: Bytes, done: Bytes, piece: Bytes, got: int, next: int, more: Bytes, now: Bytes)
    requires got < |piece| && next >= 0 && (got >= 0 ==> next == |done| + got)
    requires now == Taken(was, done, piece, got)
    ensures Overwrite(now, next, more) == Displaced(was, done, piece, got, next, more)
  {
    if got >= 0 {
      OverwriteAppends(was, done + piece[..got], more);
    }
  }

  lemma RestAllocates(data: Bytes, n: nat, dev: EncryptDevice)
    requires n * CHUNK < |data| && Allocates(dev, 0, |data|)
    ensures Allocates(dev, n + 1, |RestOf(data, n)|)
  {
    assert |RestOf(data, n)| == Max(|data| - (n + 1) * CHUNK, 0);
    assert RestOf(data, n) != [] ==> Blocks(|data|) == n + 1 + Blocks(|data| - (n + 1) * CHUNK);
  }

  lemma {:induction false} PartTaken(was: Bytes, done: Bytes, piece: Bytes, accepts: int, pos: int, got: int)
    requires pos == |done| || pos < 0
    requires got == Transferred(pos, |piece|, accepts) < |piece|
    ensures var now := AfterWrite(Overwrite(was, 0, done), pos, piece, accepts);
            && |now| >= |done| + Max(got, 0)
            && now == Taken(was, done, piece, got)
  {
    if got >= 0 {
      OverwriteAppends(was, done, piece[..got]);
    }
    if got == 0 {
      assert done + piece[..0] == done;
    }
  }

  /** A first write that fails takes the position below zero, where everything is refused. */
  lemma {:induction false} FirstWriteFails(c: Cipher, iv: Iv, data: Bytes, was: Bytes, dev: EncryptDevice)
    requires 0 < |data| < 0x8000_0000 && dev.accepts(0) < 0
    ensures EncryptFrom(c, iv, data, 0, 0, was, dev) == was
  {
    if !dev.allocFails(0) {
      var n := Min(CHUNK, |data|);
      var out := EncryptChunk(c, iv, data[..n]);
      var pos := Wrap32(Transferred(0, |out|, dev.accepts(0)));
      ChunkFillsBuffer(c, iv, data[..n]);
      EncryptStep(EncryptFrom(c, iv, data, 0, 0, was, dev), c, iv, data, 0, 0, was, dev, n, out);
      FewPasses(|data|, n);
      AllRefused(c, iv, data[n..], 1, pos, was, dev);
    }
  }

  lemma FewPasses(size: nat, n: nat)
    requires n <= size < 0x8000_0000
    ensures Blocks(size - n) < PASSES
  {
  }

  lemma {:induction false} AllRefused(c: Cipher, iv: Iv, data: Bytes, k: nat, pos: int, dst: Bytes, dev: EncryptDevice)
    requires -0x8000_0000 + EINVAL * Blocks(|data|) <= pos < 0
    ensures EncryptFrom(c, iv, data, k, pos, dst, dev) == dst
    decreases |data|
  {
    if data != [] && !dev.allocFails(k) {
      var n := Min(CHUNK, |data|);
      BlocksStep(|data|);
      EncryptStep(EncryptFrom(c, iv, data, k, pos, dst, dev), c, iv, data, k, pos, dst, dev, n,
                  EncryptChunk(c, iv, data[..n]));
      AllRefused(c, iv, data[n..], k + 1, pos - EINVAL, dst, dev);
    }
  }

  // ----- compressing -----

  /** Complete writes from any position inside the file on. */
  lemma {:induction false} FramedAt(z: Deflate, data: Bytes, tei: Tei, k: nat, pos: nat, dst: Bytes,
                                    accepts: nat -> int)
    requires pos < 0x8000_0000 && pos <= |dst| && AllFramed(z, data, k, pos, accepts)
    ensures PlainFrom(z, data, tei, k, pos, dst, accepts)
         == Zipped(Overwrite(dst, pos, Pack(z, data, tei)), !Compressible(z, data))
  {
    assert Overwrite(dst, 0, dst[..pos]) == dst;
    FramedWhole(z, data, tei, k, dst, dst[..pos], accepts);
    OverwriteAppends(dst, dst[..pos], Pack(z, data, tei));
  }

  lemma {:induction false} PayloadTaken(was: Bytes, done: Bytes, header: Tei, payload: Bytes, k: nat,
                                        accepts: nat -> int, got: int, next: nat)
    requires Transferred(|done|, 4, accepts(2 * k)) == 4
    requires got == Transferred(|done| + 4, |payload|, accepts(2 * k + 1)) < |payload|
    requires next == |done| + 4 + got < 0x8000_0000
    ensures FrameOver(Overwrite(was, 0, done), |done|, header, payload, k, accepts)
         == Taken(was, done + header, payload, got)
    ensures NextFrame(|done|, payload, k, accepts) == next <= |Taken(was, done + header, payload, got)|
  {
    WriteGoesOn(was, done, header, accepts(2 * k));
    PartTaken(was, done + header, payload, accepts(2 * k + 1), |done| + 4, got);
    WrapSmall(next);
  }

  lemma {:induction false} FramedBehind(z: Deflate, data: Bytes, tei: Tei, k: nat, next: nat, was: Bytes, done: Bytes,
                                        payload: Bytes, got: int, accepts: nat -> int)
    requires got < |payload| && next == |done| + got < 0x8000_0000
    requires next <= |Taken(was, done, payload, got)| && AllFramed(z, data, k, next, accepts)
    ensures PlainFrom(z, data, tei, k, next, Taken(was, done, payload, got), accepts)
         == Zipped(Displaced(was, done, payload, got, next, Pack(z, data, tei)), !Compressible(z, data))
  {
    FramedAt(z, data, tei, k, next, Taken(was, done, payload, got), accepts);
    MoreDisplaced(was, done, payload, got, next, Pack(z, data, tei), Taken(was, done, payload, got));
  }

  /** A payload that falls short leaves out its rest, and the next frame is written right behind;
      one that fails with an error sets everything that follows back by the error code.  `done` is
      what has been written before. */
  lemma {:induction false} OneIncompletePayload(z: Deflate, data: Bytes, tei: Tei, k: nat, was: Bytes, done: Bytes,
                                                accepts: nat -> int, payload: Bytes, header: Tei, rest: Bytes,
                                                got: int, next: nat)
    requires data != [] && z.compress(BlockOf(data)) == Some(payload) && header == Header(|payload|, tei)
    requires rest == data[|BlockOf(data)|..] && Transferred(|done|, 4, accepts(2 * k)) == 4
    requires got == Transferred(|done| + 4, |payload|, accepts(2 * k + 1)) < |payload|
    requires next == |done| + 4 + got < 0x8000_0000 && AllFramed(z, rest, k + 1, next, accepts)
    ensures PlainFrom(z, data, tei, k, |done|, Overwrite(was, 0, done), accepts)
         == Zipped(Displaced(was, done + header, payload, got, next, Pack(z, rest, header)), !Compressible(z, rest))
  {
    var before, now := Overwrite(was, 0, done), Taken(was, done + header, payload, got);
    PayloadTaken(was, done, header, payload, k, accepts, got, next);
    PlainStep(PlainFrom(z, data, tei, k, |done|, before, accepts), z, data, tei, k, |done|, before, accepts, payload,
              header, rest, next, now);
    FramedBehind(z, rest, header, k + 1, next, was, done + header, payload, got, accepts);
  }

  // ----- decompressing -----

  /** Complete writes from any position inside the file on. */
  lemma {:induction false} UnpackedAt(z: Deflate, stored: Bytes, k: nat, pos: nat, dst: Bytes, accepts: nat -> int)
    requires pos <= |dst| && TakesFrom(k, accepts)
    requires Unpack(z, stored).Some? && pos + |Unpack(z, stored).value| < 0x8000_0000
    ensures DecompressFrom(z, stored, |stored|, k, pos, dst, accepts).content
         == Overwrite(dst, pos, Unpack(z, stored).value)
  {
    assert Overwrite(dst, 0, dst[..pos]) == dst;
    UnpackedWhole(z, stored, k, dst, dst[..pos], accepts);
    OverwriteAppends(dst, dst[..pos], Unpack(z, stored).value);
  }

  lemma {:induction false} BlockTaken(was: Bytes, done: Bytes, block: Bytes, accepts: int, got: int, next: nat)
    requires got == Transferred(|done|, |block|, accepts) < |block| && next == |done| + got < 0x8000_0000
    ensures AfterWrite(Overwrite(was, 0, done), |done|, block, accepts) == Taken(was, done, block, got)
    ensures Wrap32(|done| + got) == next <= |Taken(was, done, block, got)|
  {
    PartTaken(was, done, block, accepts, |done|, got);
    WrapSmall(next);
  }

  lemma {:induction false} UnpackedBehind(z: Deflate, stored: Bytes, k: nat, next: nat, was: Bytes, done: Bytes,
                                          block: Bytes, got: int, accepts: nat -> int)
    requires got < |block| && next == |done| + got && next <= |Taken(was, done, block, got)|
    requires TakesFrom(k, accepts) && Unpack(z, stored).Some? && next + |Unpack(z, stored).value| < 0x8000_0000
    ensures DecompressFrom(z, stored, |stored|, k, next, Taken(was, done, block, got), accepts).content
         == Displaced(was, done, block, got, next, Unpack(z, stored).value)
  {
    UnpackedAt(z, stored, k, next, Taken(was, done, block, got), accepts);
    MoreDisplaced(was, done, block, got, next, Unpack(z, stored).value, Taken(was, done, block, got));
  }

  /** The same of a block that is not written whole. */
  lemma {:induction false} OneIncompleteBlock(z: Deflate, stored: Bytes, k: nat, was: Bytes, done: Bytes,
                                              accepts: nat -> int, payload: Bytes, rest: Bytes, block: Bytes, got: int,
                                              next: nat)
    requires stored != [] && FirstFrame(stored) == Some((payload, rest)) && z.decompress(payload) == Some(block)
    requires got == Transferred(|done|, |block|, accepts(k)) < |block| && next == |done| + got
    requires TakesFrom(k + 1, accepts) && Unpack(z, rest).Some? && next + |Unpack(z, rest).value| < 0x8000_0000
    ensures DecompressFrom(z, stored, |stored|, k, |done|, Overwrite(was, 0, done), accepts).content
         == Displaced(was, done, block, got, next, Unpack(z, rest).value)
  {
    BlockTaken(was, done, block, accepts(k), got, next);
    DecompressStep(z, stored, k, |done|, Overwrite(was, 0, done), accepts, payload, rest, block, next,
                   Taken(was, done, block, got));
    UnpackedBehind(z, rest, k + 1, next, was, done, block, got, accepts);
  }
}
