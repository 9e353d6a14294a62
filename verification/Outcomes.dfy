/** What the calls that encrypt and compress return and leave behind, whichever step fails and
    whatever the files they write to held before. */
module Outcomes {
  import opened Bytes
  import opened Storage
  import opened FileSystem
  import opened Encryption
  import opened EncryptFiles
  import opened EncryptLoss
  import opened Framing
  import opened CompressFiles
  import opened CompressLoss
  import opened PackedMove
  import opened Pipeline
  import opened PipelineLoss

  /** All files but these are as they were. */
  ghost predicate OnlyTouched(before: Files, after: Files, touched: set<Path>) {
    forall path: Path :: path !in touched ==> SameAt(before, after, path)
  }

  /** A source that is still there is as it was. */
  ghost predicate KeptIfThere(before: Files, after: Files, src: Path) {
    src in after ==> src in before && after[src] == before[src]
  }

  // ----- encrypting -----

  /** The encrypting call unlinks the source exactly if it returns 0, and each result it returns
      has one cause. */
  lemma {:induction false} EncryptSettles(files: Files, src: Path, trash: Path, c: Cipher, iv: Iv, dev: EncryptDevice)
    requires src != trash
    ensures var after, begun := EncryptOutcome(files, src, trash, c, iv, dev), src in files && dev.trashOpens;
            var sealed := begun && Allocates(dev, 0, |Seen(files[src])|);
            && (after.err == 0 <==> sealed && !dev.unlinkFails)
            && (after.err == -ENOMEM <==> begun && !sealed)
            && (after.err == EPERM <==> src in files && !dev.trashOpens)
            && (after.err == -EPERM <==> src !in files || (sealed && dev.unlinkFails))
            && (src in after.files <==> src in files && after.err != 0) && KeptIfThere(files, after.files, src)
            && (trash in after.files <==> trash in files || begun) && (!begun ==> after.files == files)
            && OnlyTouched(files, after.files, {src, trash})
  {
  }

  /** What such a call leaves of older files when every write is complete: the ciphertext over
      the old trash file, which gives the source back exactly if the old file was no longer, or
      went on with one encrypted empty chunk behind full pieces. */
  lemma {:induction false} EncryptOver(files: Files, src: Path, trash: Path, c: Cipher, iv: Iv, dev: EncryptDevice)
    requires CallSucceeds(files, src, dev) && src != trash && AllWritten(|files[src]|, 0, 0, dev.accepts)
    ensures var after, sealed := EncryptOutcome(files, src, trash, c, iv, dev), EncryptFile(c, iv, files[src]);
            var was := ContentOrEmpty(files, trash);
            && after == Outcome(files[trash := Overwrite(was, 0, sealed)] - {src}, 0)
            && (DecryptFile(c, iv, after.files[trash]) == Some(files[src])
                <==> || |was| <= |sealed|
                     || (|files[src]| % CHUNK == 0 && Stale(was, |sealed|) == EncryptChunk(c, iv, [])))
  {
    var content, was := files[src], ContentOrEmpty(files, trash);
    WrittenIffFits(|content|, dev.accepts);
    SeenMeaning(content);
    WrittenOver(c, iv, content, was, dev);
    StaleCipherExact(c, iv, content, was);
  }

  /** A cipher that cannot be had ends the loop: only the chunks before it matter. */
  lemma {:induction false} StopsAtFailure(c: Cipher, iv: Iv, data: Bytes, k: nat, pos: int, dst: Bytes,
                                          dev: EncryptDevice, n: nat)
    requires n * CHUNK < |data| && dev.allocFails(k + n)
    ensures EncryptFrom(c, iv, data, k, pos, dst, dev) == EncryptFrom(c, iv, data[..n * CHUNK], k, pos, dst, dev)
    decreases n
  {
    if n > 0 && !dev.allocFails(k) {
      var start := data[..n * CHUNK];
      var out := EncryptChunk(c, iv, data[..CHUNK]);
      var pos' := Wrap32(pos + Transferred(pos, |out|, dev.accepts(k)));
      var dst' := AfterWrite(dst, pos, out, dev.accepts(k));
      assert start[..CHUNK] == data[..CHUNK];
      assert start[CHUNK..] == data[CHUNK..][..(n - 1) * CHUNK];
      EncryptStep(EncryptFrom(c, iv, data, k, pos, dst, dev), c, iv, data, k, pos, dst, dev, CHUNK, out);
      EncryptStep(EncryptFrom(c, iv, start, k, pos, dst, dev), c, iv, start, k, pos, dst, dev, CHUNK, out);
      StopsAtFailure(c, iv, data[CHUNK..], k + 1, pos', dst', dev, n - 1);
    }
  }

  /** If the first cipher that cannot be had is that of chunk `n`, the call returns -ENOMEM and
      leaves the ciphertext of the chunks before it, over the old trash file; the source stays. */
  lemma {:induction false} EncryptCutOff(files: Files, src: Path, trash: Path, c: Cipher, iv: Iv, dev: EncryptDevice,
                                         n: nat)
    requires src in files && src != trash && dev.trashOpens && n * CHUNK < |Seen(files[src])| && dev.allocFails(n)
    requires (forall k: nat :: k < n ==> !dev.allocFails(k)) && AllWritten(n * CHUNK, 0, 0, dev.accepts)
    ensures var start, was := files[src][..n * CHUNK], ContentOrEmpty(files, trash);
            EncryptOutcome(files, src, trash, c, iv, dev)
            == Outcome(files[trash := Overwrite(was, 0, EncryptFile(c, iv, start))], -ENOMEM)
  {
    var seen, was := Seen(files[src]), ContentOrEmpty(files, trash);
    var start := seen[..n * CHUNK];
    assert start == files[src][..n * CHUNK];
    StopsAtFailure(c, iv, seen, 0, 0, was, dev, n);
    PassesAreBlocks(|seen|, n);
    WholeChunks(n);
    WrittenOver(c, iv, start, was, dev);
  }

  lemma WholeChunks(n: nat)
    ensures Blocks(n * CHUNK) == n
  {
  }

  // ----- compressing -----

  /** How the compressing call ends once the trash file is open. */
  lemma {:induction false} CompressEnds(files: Files, src: Path, trash: Path, z: Deflate, tei: Tei,
                                        dev: CompressDevice) returns (now: Bytes)
    requires src in files && src != trash && dev.trashOpens
    ensures now == PlainFrom(z, Seen(files[src]), tei, 0, 0, ContentOrEmpty(files, trash), dev.accepts).content
    ensures CompressOutcome(files, src, trash, z, tei, dev)
         == Finished(files[trash := now], src, Compressible(z, Seen(files[src])), dev.unlinkFails)
  {
    var was := ContentOrEmpty(files, trash);
    SeenOnly(z, files[src], tei, was, dev.accepts);
    FailsIffIncompressible(z, Seen(files[src]), tei, was, dev.accepts);
    now := PlainFrom(z, Seen(files[src]), tei, 0, 0, was, dev.accepts).content;
  }

  /** The source goes after compressing it has worked; that unlinking fails is no error. */
  function Finished(written: Files, src: Path, packed: bool, unlinkFails: bool): Outcome {
    Outcome(if packed && !unlinkFails then written - {src} else written, if packed then 0 else -1)
  }

  /** The compressing call removes the source exactly if it could be opened, compressed and
      unlinked, and no call that returns an error loses the data. */
  lemma {:induction false} CompressSettles(files: Files, src: Path, trash: Path, z: Deflate, tei: Tei,
                                           dev: CompressDevice)
    requires src != trash
    ensures var after, begun := CompressOutcome(files, src, trash, z, tei, dev), src in files && dev.trashOpens;
            var packed := begun && Compressible(z, Seen(files[src]));
            && after.err == (if src !in files then -EPERM else if !begun then EPERM else if packed then 0 else -1)
            && (src in after.files <==> src in files && !(packed && !dev.unlinkFails))
            && KeptIfThere(files, after.files, src)
            && (trash in after.files <==> trash in files || begun) && (!begun ==> after.files == files)
            && OnlyTouched(files, after.files, {src, trash})
            && (src in files && after.err != 0 ==> !LostPacked(after.files, files[src], src, trash, z))
  {
    if src in files && dev.trashOpens {
      var now := CompressEnds(files, src, trash, z, tei, dev);
    }
  }

  /** What such a call leaves of older files when every write is complete, whether compressing
      fails or not: what could be packed over the old trash file.  If every block written fits
      its header, that unpacks to the part of the source up to the first block that cannot be
      compressed, and then to what unpacks from the rest of the old file. */
  lemma {:induction false} CompressOver(files: Files, src: Path, trash: Path, z: Deflate, tei: Tei,
                                        dev: CompressDevice)
    requires src in files && src != trash && dev.trashOpens && AllFramed(z, Seen(files[src]), 0, 0, dev.accepts)
    ensures var packed, was := Pack(z, Seen(files[src]), tei), ContentOrEmpty(files, trash);
            var now := Overwrite(was, 0, packed);
            && CompressOutcome(files, src, trash, z, tei, dev)
               == Finished(files[trash := now], src, Compressible(z, Seen(files[src])), dev.unlinkFails)
            && (FitsUntilFailure(z, Seen(files[src])) ==> GivesFront(z, files[src], now, Stale(was, |packed|)))
  {
    var seen, was := Seen(files[src]), ContentOrEmpty(files, trash);
    var now := CompressEnds(files, src, trash, z, tei, dev);
    PlainOver(z, seen, tei, was, dev.accepts);
    if FitsUntilFailure(z, seen) {
      PackedGivesFront(z, files[src], tei, was);
    }
  }

  // ----- both -----

  /** What the first stage leaves in the temporary file. */
  function Zip(files: Files, src: Path, z: Deflate, tei: Tei, dev: BothDevice): Bytes
    requires src in files
  {
    PlainFrom(z, Seen(files[src]), tei, 0, 0, ContentOrEmpty(files, TEMP), dev.zipAccepts).content
  }

  /** The files between the two stages. */
  function Between(files: Files, src: Path, zip: Bytes, packed: bool, srcStays: bool): Files {
    if packed && !srcStays then files[TEMP := zip] - {src} else files[TEMP := zip]
  }

  lemma {:induction false} BothEnds(files: Files, src: Path, trash: Path, z: Deflate, c: Cipher, iv: Iv, tei: Tei,
                                    dev: BothDevice)
    requires src in files && src != TEMP && dev.tempOpens
    ensures var packed := Compressible(z, Seen(files[src]));
            var middle := Between(files, src, Zip(files, src, z, tei, dev), packed, dev.srcStays);
            BothOutcome(files, src, trash, z, c, iv, tei, dev)
            == if packed then SecondOutcome(middle, trash, c, iv, dev) else Outcome(middle, -1)
  {
    var was := ContentOrEmpty(files, TEMP);
    SeenOnly(z, files[src], tei, was, dev.zipAccepts);
    FailsIffIncompressible(z, Seen(files[src]), tei, was, dev.zipAccepts);
  }

  /** Compressing has worked, and then encrypting, with a cipher for every chunk. */
  ghost predicate Packs(files: Files, src: Path, z: Deflate, dev: BothDevice) {
    src in files && dev.tempOpens && Compressible(z, Seen(files[src]))
  }

  ghost predicate Seals(files: Files, src: Path, z: Deflate, tei: Tei, dev: BothDevice) {
    && Packs(files, src, z, dev) && dev.tempReopens && dev.trashOpens
    && Allocates(dev.Second(), 0, |Seen(Zip(files, src, z, tei, dev))|)
  }

  /** What the second stage does with the temporary file. */
  lemma {:induction false} SecondSettles(files: Files, trash: Path, c: Cipher, iv: Iv, dev: BothDevice)
    requires TEMP in files && trash != TEMP
    ensures var after, begun := SecondOutcome(files, trash, c, iv, dev), dev.tempReopens && dev.trashOpens;
            var sealed := begun && Allocates(dev.Second(), 0, |Seen(files[TEMP])|);
            && after.err == (if begun && !sealed then -ENOMEM else if !begun || dev.tempStays then -EPERM else 0)
            && (TEMP in after.files <==> after.err != 0) && KeptIfThere(files, after.files, TEMP)
            && (!begun ==> after.files == files) && OnlyTouched(files, after.files, {TEMP, trash})
  {
    EncryptSettles(files, TEMP, trash, c, iv, dev.Second());
  }

  /** Each result the call that does both returns has its causes. */
  lemma {:induction false} BothReturns(files: Files, src: Path, trash: Path, z: Deflate, c: Cipher, iv: Iv, tei: Tei,
                                       dev: BothDevice)
    requires src != TEMP && trash != TEMP && trash != src
    ensures var after, packs := BothOutcome(files, src, trash, z, c, iv, tei, dev), Packs(files, src, z, dev);
            var seals := Seals(files, src, z, tei, dev);
            && (after.err == 0 <==> seals && !dev.tempStays)
            && (after.err == EPERM <==> src in files && !dev.tempOpens)
            && (after.err == -ENOMEM <==> packs && dev.tempReopens && dev.trashOpens && !seals)
            && after.err in {0, EPERM, -EPERM, -ENOMEM}
  {
    if src in files && dev.tempOpens {
      BothEnds(files, src, trash, z, c, iv, tei, dev);
      if Packs(files, src, z, dev) {
        SecondSettles(Between(files, src, Zip(files, src, z, tei, dev), true, dev.srcStays), trash, c, iv, dev);
      }
    }
  }

  /** The source goes as soon as it has been compressed; the compressed file stays exactly if an
      error is returned. */
  lemma {:induction false} BothSettles(files: Files, src: Path, trash: Path, z: Deflate, c: Cipher, iv: Iv, tei: Tei,
                                       dev: BothDevice)
    requires src != TEMP && trash != TEMP && trash != src
    ensures var after, packs := BothOutcome(files, src, trash, z, c, iv, tei, dev), Packs(files, src, z, dev);
            var begun := src in files && dev.tempOpens;
            && (!begun ==> after.files == files)
            && (src in after.files <==> src in files && !(packs && !dev.srcStays))
            && KeptIfThere(files, after.files, src) && OnlyTouched(files, after.files, {src, TEMP, trash})
            && (!packs || !dev.tempReopens || !dev.trashOpens ==> SameAt(files, after.files, trash))
            && (begun ==> (TEMP in after.files <==> after.err != 0))
            && (begun && after.err != 0 ==> after.files[TEMP] == Zip(files, src, z, tei, dev))
  {
    if src in files && dev.tempOpens {
      BothEnds(files, src, trash, z, c, iv, tei, dev);
      if Packs(files, src, z, dev) {
        var middle := Between(files, src, Zip(files, src, z, tei, dev), true, dev.srcStays);
        SecondSettles(middle, trash, c, iv, dev);
        ThenSecond(files, src, trash, Zip(files, src, z, tei, dev), dev.srcStays, middle,
                   SecondOutcome(middle, trash, c, iv, dev).files);
      }
    }
  }

  lemma ThenSecond(files: Files, src: Path, trash: Path, zip: Bytes, srcStays: bool, middle: Files, after: Files)
    requires src in files && src != TEMP && trash != TEMP && trash != src
    requires middle == Between(files, src, zip, true, srcStays) && OnlyTouched(middle, after, {TEMP, trash})
    ensures src in after <==> srcStays
    ensures KeptIfThere(files, after, src) && OnlyTouched(files, after, {src, TEMP, trash})
  {
    forall path: Path | path !in {src, TEMP, trash} ensures SameAt(files, after, path) {
      assert SameAt(middle, after, path);
    }
    assert SameAt(middle, after, src);
  }

  lemma {:induction false} SecondOver(files: Files, src: Path, trash: Path, zip: Bytes, c: Cipher, iv: Iv,
                                      dev: BothDevice)
    requires src in files && src != TEMP && trash != TEMP && trash != src && NothingFails(dev)
    requires AllWritten(|zip|, 0, 0, dev.encAccepts)
    ensures var was := ContentOrEmpty(files, trash);
            var now := Overwrite(was, 0, EncryptFile(c, iv, zip));
            && SecondOutcome(Between(files, src, zip, true, false), trash, c, iv, dev)
               == Outcome(files[trash := now] - {TEMP, src}, 0)
            && (DecryptFile(c, iv, now) == Some(zip)
                <==> Harmless(c, iv, |zip|, Stale(was, |EncryptFile(c, iv, zip)|)))
  {
    var was := ContentOrEmpty(files, trash);
    EncryptOver(Between(files, src, zip, true, false), TEMP, trash, c, iv, dev.Second());
    OverwriteStart(was, EncryptFile(c, iv, zip));
    FileThenTail(c, iv, zip, Stale(was, |EncryptFile(c, iv, zip)|));
    TwoGone(files, src, trash, zip, Overwrite(was, 0, EncryptFile(c, iv, zip)));
  }

  /** What such a call leaves of older files when nothing fails and every write is complete: the
      ciphertext, over the old trash file, of the packed file over the old temporary file.  Either
      format comes back as by itself. */
  lemma {:induction false} BothOver(files: Files, src: Path, trash: Path, z: Deflate, c: Cipher, iv: Iv, tei: Tei,
                                    dev: BothDevice)
    requires Packs(files, src, z, dev) && src != TEMP && trash != TEMP && trash != src && NothingFails(dev)
    requires AllFramed(z, Seen(files[src]), 0, 0, dev.zipAccepts)
    requires var packed := Pack(z, Seen(files[src]), tei);
             AllWritten(|Overwrite(ContentOrEmpty(files, TEMP), 0, packed)|, 0, 0, dev.encAccepts)
    ensures var packed, temp := Pack(z, Seen(files[src]), tei), ContentOrEmpty(files, TEMP);
            var zip, was := Overwrite(temp, 0, packed), ContentOrEmpty(files, trash);
            var now := Overwrite(was, 0, EncryptFile(c, iv, zip));
            && BothOutcome(files, src, trash, z, c, iv, tei, dev) == Outcome(files[trash := now] - {TEMP, src}, 0)
            && (DecryptFile(c, iv, now) == Some(zip)
                <==> Harmless(c, iv, |zip|, Stale(was, |EncryptFile(c, iv, zip)|)))
            && (FitsUntilFailure(z, Seen(files[src])) ==> GivesFront(z, files[src], zip, Stale(temp, |packed|)))
  {
    var seen, temp := Seen(files[src]), ContentOrEmpty(files, TEMP);
    BothEnds(files, src, trash, z, c, iv, tei, dev);
    PlainOver(z, seen, tei, temp, dev.zipAccepts);
    SecondOver(files, src, trash, Zip(files, src, z, tei, dev), c, iv, dev);
    if FitsUntilFailure(z, seen) {
      PackedGivesFront(z, files[src], tei, temp);
    }
  }

  lemma TwoGone(files: Files, src: Path, trash: Path, zip: Bytes, now: Bytes)
    requires trash != TEMP && trash != src
    ensures (files[TEMP := zip] - {src})[trash := now] - {TEMP} == files[trash := now] - {TEMP, src}
  {
  }
}
