/** Where compress-then-encrypt keeps less than it should: what is in the trash bin after short
    writes, and what becomes of a source that is the temporary file itself. */
module PipelineLoss {
  import opened Bytes
  import opened Storage
  import opened FileSystem
  import opened Encryption
  import opened EncryptFiles
  import opened EncryptLoss
  import opened Framing
  import opened CompressFiles
  import opened CompressLoss
  import opened PackedMove
  import opened Pipeline

  /** Everything opens and unlinks, and a cipher can be had for every chunk. */
  ghost predicate NothingFails(dev: BothDevice) {
    && dev.tempOpens && dev.tempReopens && dev.trashOpens && !dev.srcStays && !dev.tempStays
    && forall k: nat :: !dev.allocFails(k)
  }

  /** Where both stages are sound, a call that returns 0 leaves the bytes in the trash bin and
      no temporary file; and it does return 0 if nothing fails. */
  lemma {:induction false} SoundSucceeds(files: Files, src: Path, trash: Path, z: Deflate, c: Cipher, iv: Iv, tei: Tei,
                                         dev: BothDevice)
    requires src in files && src != TEMP && trash != TEMP && trash != src && FirstSound(files, files[src], z, tei, dev)
    requires Compressible(z, files[src]) ==>
               SecondSound(files, PackedOver(files, files[src], z, tei), trash, c, iv, dev)
    ensures var after := BothOutcome(files, src, trash, z, c, iv, tei, dev);
            && (after.err == 0 ==>
                  && trash in after.files && OpenBoth(z, c, iv, after.files[trash]) == Some(files[src])
                  && TEMP !in after.files && (src in after.files <==> dev.srcStays))
            && (NothingFails(dev) && Compressible(z, files[src]) ==> after.err == 0)
  {
    FirstStageSound(files, src, z, tei, dev);
    if dev.tempOpens && Compressible(z, files[src]) {
      var middle := AfterFirst(files, src, z, tei, dev);
      assert SameAt(middle, files, trash) && ContentOrEmpty(middle, trash) == ContentOrEmpty(files, trash);
      SecondStageSound(middle, trash, PackedOver(files, files[src], z, tei), files[src], z, c, iv, dev);
    }
  }

  /** Nothing but writes can fail in a call into fresh files. */
  ghost predicate FreshCall(files: Files, src: Path, trash: Path, z: Deflate, dev: BothDevice) {
    && src in files && src != TEMP && trash != TEMP && trash != src && NothingFails(dev)
    && ContentOrEmpty(files, TEMP) == [] && ContentOrEmpty(files, trash) == []
    && Compressible(z, Seen(files[src]))
  }

  /** Such a call returns 0, the source and the temporary file are gone, and the trash file is
      what the second loop makes of what the first one left. */
  lemma {:induction false} FreshOutcome(files: Files, src: Path, trash: Path, z: Deflate, c: Cipher, iv: Iv, tei: Tei,
                                        dev: BothDevice)
    requires FreshCall(files, src, trash, z, dev)
    ensures var after := BothOutcome(files, src, trash, z, c, iv, tei, dev);
            var stored := PlainFrom(z, Seen(files[src]), tei, 0, 0, [], dev.zipAccepts).content;
            && after.err == 0 && src !in after.files && TEMP !in after.files && trash in after.files
            && after.files[trash] == EncryptFrom(c, iv, Seen(stored), 0, 0, [], dev.Second())
  {
    SeenOnly(z, files[src], tei, [], dev.zipAccepts);
    FailsIffIncompressible(z, Seen(files[src]), tei, [], dev.zipAccepts);
  }

  /** The trash file is the encrypted packed file if and only if the size of the source fits an
      `int` and every payload and every piece was written whole. */
  lemma {:induction false} BothIntactIff(files: Files, src: Path, trash: Path, z: Deflate, c: Cipher, iv: Iv, tei: Tei,
                                         dev: BothDevice)
    requires FreshCall(files, src, trash, z, dev) && Compressible(z, files[src]) && TakesHeaders(dev.zipAccepts)
    ensures var after, packed := BothOutcome(files, src, trash, z, c, iv, tei, dev), Pack(z, files[src], tei);
            && after.err == 0 && src !in after.files && TEMP !in after.files && trash in after.files
            && (after.files[trash] == EncryptFile(c, iv, packed)
                <==> && |files[src]| < 0x8000_0000 && AllFramed(z, files[src], 0, 0, dev.zipAccepts)
                     && AllWritten(|packed|, 0, 0, dev.encAccepts))
  {
    var content, packed := files[src], Pack(z, files[src], tei);
    var stored := PlainFrom(z, Seen(content), tei, 0, 0, [], dev.zipAccepts).content;
    FreshOutcome(files, src, trash, z, c, iv, tei, dev);
    SeenOnly(z, content, tei, [], dev.zipAccepts);
    PackedIs(z, content, tei, dev.zipAccepts);
    SealedIs(c, iv, Seen(stored), packed, dev.Second());
    WrittenIffFits(|packed|, dev.encAccepts);
    SeenMeaning(stored);
  }

  /** Encrypting, with wrapped positions too, leaves enough of a packed file with a long block
      for it not to unpack. */
  lemma {:induction false} LongStaysLong(z: Deflate, c: Cipher, iv: Iv, data: Bytes, tei: Tei, stored: Bytes,
                                         dev: EncryptDevice)
    requires Marked(z) && Compressible(z, data) && !Fits(z, data) && Allocates(dev, 0, |Seen(stored)|)
    requires UpToLong(z, data, tei) <= stored && |UpToLong(z, data, tei)| <= 0x4000_0000
    requires TakesAll(dev.accepts) && |stored| < 0x8000_0000
    ensures OpenBoth(z, c, iv, EncryptFrom(c, iv, stored, 0, 0, [], dev)) == None
  {
    var end := EncryptFrom(c, iv, stored, 0, 0, [], dev);
    SeenMeaning(stored);
    if |stored| <= LARGEST {
      WrittenIffFits(|stored|, dev.accepts);
      IntactIff(c, iv, stored, dev);
      FileRoundTrip(c, iv, stored);
      StartFails(z, data, tei, stored);
    } else {
      var left := 0x7_FFFF * CHUNK;
      BeyondStart(c, iv, stored, 0, [], dev, left);
      assert end[0..] == end;
      if DecryptFile(c, iv, end).Some? {
        var plain := DecryptFile(c, iv, end).value;
        StartOfStart(UpToLong(z, data, tei), stored, left, plain);
        StartFails(z, data, tei, plain);
      }
    }
  }

  lemma StartOfStart(start: Bytes, stored: Bytes, left: nat, plain: Bytes)
    requires start <= stored && |start| <= left <= |stored| && stored[..left] <= plain
    ensures start <= plain
  {
    assert plain[..|start|] == plain[..left][..|start|] == stored[..left][..|start|] == start;
  }

  /** On devices that take all, the bytes can be had after such a call if and only if the size of
      the source fits an `int` and every block fits its header. */
  lemma {:induction false} BothRecoverableIff(files: Files, src: Path, trash: Path, z: Deflate, c: Cipher, iv: Iv,
                                              tei: Tei, dev: BothDevice)
    requires FreshCall(files, src, trash, z, dev) && Marked(z) && TakesAll(dev.zipAccepts) && TakesAll(dev.encAccepts)
    ensures var after, content := BothOutcome(files, src, trash, z, c, iv, tei, dev), files[src];
            && after.err == 0
            && (Recoverable(after.files, content, src, trash, z, c, iv)
                <==> |content| < 0x8000_0000 && Fits(z, content))
  {
    var content, seen := files[src], Seen(files[src]);
    var stored := PlainFrom(z, seen, tei, 0, 0, [], dev.zipAccepts).content;
    FreshOutcome(files, src, trash, z, c, iv, tei, dev);
    ZippedUnpacks(z, seen, tei, dev.zipAccepts);
    SeenOrMore(content);
    SeenMeaning(stored);
    if Fits(z, seen) {
      WrittenIffFits(|stored|, dev.encAccepts);
      IntactIff(c, iv, stored, dev.Second());
      FileRoundTrip(c, iv, stored);
    } else if |stored| < 0x8000_0000 {
      LongStaysLong(z, c, iv, seen, tei, stored, dev.Second());
    } else {
      assert OpenBoth(z, c, iv, []) == Some([]);
    }
  }

  /** On a full device every file that is not empty is lost, and the call returns 0. */
  lemma {:induction false} FullDeviceLosesBoth(files: Files, src: Path, trash: Path, z: Deflate, c: Cipher, iv: Iv,
                                               tei: Tei, dev: BothDevice)
    requires FreshCall(files, src, trash, z, dev) && files[src] != []
    requires forall k: nat :: dev.zipAccepts(k) <= 0
    ensures var after := BothOutcome(files, src, trash, z, c, iv, tei, dev);
            after.err == 0 && !Recoverable(after.files, files[src], src, trash, z, c, iv)
  {
    FreshOutcome(files, src, trash, z, c, iv, tei, dev);
    NothingPacked(z, Seen(files[src]), tei, 0, 0, [], dev.zipAccepts);
    assert Seen([]) == [] && OpenBoth(z, c, iv, []) == Some([]);
  }

  // ----- a source that is the temporary file -----

  /** The compressor takes every block there can be. */
  ghost predicate TakesEveryBlock(z: Deflate) {
    forall x: Bytes {:trigger z.compress(x)} :: |x| <= CHUNK ==> z.compress(x).Some?
  }

  lemma {:induction false} CompressOne(z: Deflate, src: Bytes, self: bool, i: nat, size: nat, tei: Tei, k: nat,
                                       pos: int, dst: Bytes, accepts: nat -> int, n: nat, payload: Bytes, header: Tei,
                                       pos': int, dst': Bytes)
    requires i < size && n == Min(CHUNK, size - i)
    requires z.compress(ReadFrom(if self then dst else src, i, n)) == Some(payload) && header == Header(|payload|, tei)
    requires pos' == NextFrame(pos, payload, k, accepts) && dst' == FrameOver(dst, pos, header, payload, k, accepts)
    ensures CompressFrom(z, src, self, i, size, tei, k, pos, dst, accepts)
         == CompressFrom(z, src, self, i + n, size, header, k + 1, pos', dst', accepts)
  {
  }

  lemma {:induction false} NeverFails(z: Deflate, src: Bytes, self: bool, i: nat, size: nat, tei: Tei, k: nat, pos: int,
                                      dst: Bytes, accepts: nat -> int)
    requires TakesEveryBlock(z)
    ensures !CompressFrom(z, src, self, i, size, tei, k, pos, dst, accepts).failed
    decreases size - i
  {
    if i >= size {
    } else {
      var n := Min(CHUNK, size - i);
      var block := ReadFrom(if self then dst else src, i, n);
      assert |block| <= CHUNK && z.compress(block).Some?;
      var payload := z.compress(block).value;
      var header, pos' := Header(|payload|, tei), NextFrame(pos, payload, k, accepts);
      var dst' := FrameOver(dst, pos, header, payload, k, accepts);
      NeverFails(z, src, self, i + n, size, header, k + 1, pos', dst', accepts);
      CompressOne(z, src, self, i, size, tei, k, pos, dst, accepts, n, payload, header, pos', dst');
    }
  }

  /** Called on the temporary file, the call compresses it over itself, unlinks it, and then
      cannot reopen it: it returns an error with nothing in the trash bin.  Only a block that
      cannot be compressed leaves the file, in whatever state, where it is. */
  lemma {:induction false} TempAsSource(files: Files, trash: Path, z: Deflate, c: Cipher, iv: Iv, tei: Tei,
                                        dev: BothDevice)
    requires TEMP in files && trash != TEMP && dev.tempOpens && !dev.srcStays
    ensures var after, zip := BothOutcome(files, TEMP, trash, z, c, iv, tei, dev), ZipOf(files, TEMP, z, tei, dev);
            && after.err < 0
            && after.files == (if zip.failed then files[TEMP := zip.content] else files - {TEMP})
            && (TakesEveryBlock(z) ==> !zip.failed)
  {
    if TakesEveryBlock(z) {
      NeverFails(z, files[TEMP], true, 0, |Seen(files[TEMP])|, tei, 0, 0, files[TEMP], dev.zipAccepts);
    }
    assert files[TEMP := ZipOf(files, TEMP, z, tei, dev).content] - {TEMP} == files - {TEMP};
  }

  /** A source survives a call in which nothing fails, on a device that takes all, with files
      that are fresh and sound: it is recoverable if and only if it is not the temporary file. */
  lemma {:induction false} RecoverableIffNotTemp(files: Files, src: Path, trash: Path, z: Deflate, c: Cipher, iv: Iv,
                                                 tei: Tei, dev: BothDevice)
    requires src in files && trash != TEMP && trash != src && trash !in files && NothingFails(dev) && TakesEveryBlock(z)
    requires src != TEMP ==>
               && FirstSound(files, files[src], z, tei, dev)
               && (Compressible(z, files[src]) ==>
                     SecondSound(files, PackedOver(files, files[src], z, tei), trash, c, iv, dev))
    ensures Recoverable(BothOutcome(files, src, trash, z, c, iv, tei, dev).files, files[src], src, trash, z, c, iv)
            <==> src != TEMP
  {
    if src == TEMP {
      TempAsSource(files, trash, z, c, iv, tei, dev);
    } else {
      SoundSucceeds(files, src, trash, z, c, iv, tei, dev);
      EveryFileCompresses(z, files[src]);
    }
  }

  lemma {:induction false} EveryFileCompresses(z: Deflate, data: Bytes)
    requires TakesEveryBlock(z)
    ensures Compressible(z, data)
    decreases |data|
  {
    if data == [] {
    } else {
      assert z.compress(BlockOf(data)).Some?;
      EveryFileCompresses(z, data[|BlockOf(data)|..]);
    }
  }
}
