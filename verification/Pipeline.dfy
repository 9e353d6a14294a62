/** The handlers that join two loops: compress then encrypt (process_enc_comp), and compress
    then decompress again (xclone2 of sys_xclone2_myorg.c). */
module Pipeline {
  import opened Bytes
  import opened Storage
  import opened FileSystem
  import opened Encryption
  import opened EncryptFiles
  import opened EncryptLoss
  import opened Framing
  import opened CompressFiles
  import opened CompressLoss

  const TEMP: Path := "temp.txt"
  const OUT: Path := "out.txt"
  const OUT_CMP: Path := "out.txt.cmp"

  // ----- round trips and sizes across both formats -----

  /** What decodes the trash file of a run that compresses, then encrypts. */
  function OpenBoth(z: Deflate, c: Cipher, iv: Iv, stored: Bytes): Option<Bytes> {
    match DecryptFile(c, iv, stored)
    case Some(packed) => Unpack(z, packed)
    case None => None
  }

  /** Encryption cuts the compressed stream anew, yet the whole pipeline inverts. */
  lemma {:induction false} PipelineRoundTrip(z: Deflate, c: Cipher, iv: Iv, data: Bytes, tei: Tei)
    requires Fits(z, data)
    ensures OpenBoth(z, c, iv, EncryptFile(c, iv, Pack(z, data, tei))) == Some(data)
  {
    FileRoundTrip(c, iv, Pack(z, data, tei));
    PackRoundTrip(z, data, tei);
  }

  /** A file that could be compressed comes back through both if and only if every block
      fits its header. */
  lemma {:induction false} PipelineIffFits(z: Deflate, c: Cipher, iv: Iv, data: Bytes, tei: Tei)
    requires Marked(z) && Compressible(z, data)
    ensures OpenBoth(z, c, iv, EncryptFile(c, iv, Pack(z, data, tei))) == Some(data) <==> Fits(z, data)
  {
    FileRoundTrip(c, iv, Pack(z, data, tei));
    RoundTripIffFits(z, data, tei);
  }

  // ----- compress, then encrypt -----

  /** What may go wrong between and inside the two stages. */
  datatype BothDevice = BothDevice(tempOpens: bool, zipAccepts: nat -> int, srcStays: bool, tempReopens: bool,
                                   trashOpens: bool, allocFails: nat -> bool, encAccepts: nat -> int, tempStays: bool)
  {
    function Second(): EncryptDevice {
      EncryptDevice(trashOpens, allocFails, encAccepts, tempStays)
    }
  }

  /** What the first stage makes of the temporary file; it may be the source itself. */
  function ZipOf(files: Files, src: Path, z: Deflate, tei: Tei, dev: BothDevice): Zipped
    requires src in files
  {
    CompressFrom(z, files[src], src == TEMP, 0, |Seen(files[src])|, tei, 0, 0, ContentOrEmpty(files, TEMP),
                 dev.zipAccepts)
  }

  function AfterFirst(files: Files, src: Path, z: Deflate, tei: Tei, dev: BothDevice): Files
    requires src in files
  {
    var zip := ZipOf(files, src, z, tei, dev);
    var written := files[TEMP := zip.content];
    if zip.failed || dev.srcStays then written else written - {src}
  }

  /** After the second opening of the trash file the code looks at the wrong pointer; here the
      call stops. */
  ghost function SecondOutcome(files: Files, trash: Path, c: Cipher, iv: Iv, dev: BothDevice): Outcome {
    if !dev.tempReopens || TEMP !in files || !dev.trashOpens then Outcome(files, -EPERM)
    else EncryptOutcome(files, TEMP, trash, c, iv, dev.Second())
  }

  ghost function BothOutcome(files: Files, src: Path, trash: Path, z: Deflate, c: Cipher, iv: Iv, tei: Tei,
                             dev: BothDevice): Outcome {
    if src !in files then Outcome(files, -EPERM)
    else if !dev.tempOpens then Outcome(files, EPERM)
    else
      var middle := AfterFirst(files, src, z, tei, dev);
      if ZipOf(files, src, z, tei, dev).failed then Outcome(middle, -1) else SecondOutcome(middle, trash, c, iv, dev)
  }

  // ----- where the bytes can be had -----

  /** The bytes `content` can still be had, from one of the three files. */
  ghost predicate Recoverable(files: Files, content: Bytes, src: Path, trash: Path, z: Deflate, c: Cipher, iv: Iv) {
    || (src in files && files[src] == content)
    || (TEMP in files && Unpack(z, files[TEMP]) == Some(content))
    || (trash in files && OpenBoth(z, c, iv, files[trash]) == Some(content))
  }

  ghost predicate RecoverableSince(log: seq<Files>, from: nat, content: Bytes, src: Path, trash: Path,
                                   z: Deflate, c: Cipher, iv: Iv) {
    forall i :: from <= i < |log| ==> Recoverable(log[i], content, src, trash, z, c, iv)
  }

  /** The states of one stage: only `path` changes, until the files are `last`. */
  ghost predicate Staged(log: seq<Files>, from: nat, files: Files, path: Path, last: Files) {
    forall i :: from <= i < |log| ==> log[i] == last || (path in log[i] && log[i] == files[path := log[i][path]])
  }

  /** As long as only `path` changes and another file keeps the content, it is recoverable. */
  lemma StagedKeeps(log: seq<Files>, from: nat, files: Files, path: Path, last: Files, content: Bytes, src: Path,
                    trash: Path, z: Deflate, c: Cipher, iv: Iv)
    requires Staged(log, from, files, path, last)
    requires || (path != src && src in files && files[src] == content)
             || (path != TEMP && TEMP in files && Unpack(z, files[TEMP]) == Some(content))
    requires Recoverable(last, content, src, trash, z, c, iv)
    ensures RecoverableSince(log, from, content, src, trash, z, c, iv)
  {
    forall i | from <= i < |log| ensures Recoverable(log[i], content, src, trash, z, c, iv) {
      assert log[i] == last || log[i] == files[path := log[i][path]];
    }
  }

  /** What the first stage makes of the temporary file if every write is complete. */
  function PackedOver(files: Files, content: Bytes, z: Deflate, tei: Tei): Bytes {
    Overwrite(ContentOrEmpty(files, TEMP), 0, Pack(z, content, tei))
  }

  /** The first stage leaves a temporary file that unpacks to the content: every block fits
      its header, every write is complete, and what is left of an older file is harmless. */
  ghost predicate FirstSound(files: Files, content: Bytes, z: Deflate, tei: Tei, dev: BothDevice) {
    && |content| < 0x8000_0000
    && (Compressible(z, content) ==>
          && Fits(z, content) && AllFramed(z, content, 0, 0, dev.zipAccepts)
          && Unpack(z, Stale(ContentOrEmpty(files, TEMP), |Pack(z, content, tei)|)) == Some([]))
  }

  /** The same of the second stage, with `packed` in the temporary file. */
  ghost predicate SecondSound(files: Files, packed: Bytes, trash: Path, c: Cipher, iv: Iv, dev: BothDevice) {
    && AllWritten(|packed|, 0, 0, dev.encAccepts)
    && Harmless(c, iv, |packed|, Stale(ContentOrEmpty(files, trash), |EncryptFile(c, iv, packed)|))
  }

  /** Files that are not there or not longer than what is written are harmless. */
  lemma {:induction false} NoTailHarmless(was: Bytes, trashWas: Bytes, content: Bytes, packed: Bytes, z: Deflate,
                                          c: Cipher, iv: Iv, tei: Tei)
    ensures |was| <= |Pack(z, content, tei)| ==> Unpack(z, Stale(was, |Pack(z, content, tei)|)) == Some([])
    ensures |trashWas| <= |EncryptFile(c, iv, packed)| ==>
              Harmless(c, iv, |packed|, Stale(trashWas, |EncryptFile(c, iv, packed)|))
  {
  }

  lemma {:induction false} FirstStageSound(files: Files, src: Path, z: Deflate, tei: Tei, dev: BothDevice)
    requires src in files && src != TEMP && FirstSound(files, files[src], z, tei, dev)
    ensures var zip := ZipOf(files, src, z, tei, dev);
            && (zip.failed <==> !Compressible(z, files[src]))
            && (!zip.failed ==> zip.content == PackedOver(files, files[src], z, tei)
                                && Unpack(z, zip.content) == Some(files[src]))
  {
    var content, was := files[src], ContentOrEmpty(files, TEMP);
    SeenMeaning(content);
    FailsIffIncompressible(z, content, tei, was, dev.zipAccepts);
    if Compressible(z, content) {
      FramedOver(z, content, tei, was, dev.zipAccepts);
      StalePackExact(z, content, tei, was);
    }
  }

  lemma {:induction false} SecondStageSound(files: Files, trash: Path, packed: Bytes, content: Bytes, z: Deflate,
                                            c: Cipher, iv: Iv, dev: BothDevice)
    requires TEMP in files && files[TEMP] == packed && trash != TEMP && Unpack(z, packed) == Some(content)
    requires SecondSound(files, packed, trash, c, iv, dev)
    ensures var after := SecondOutcome(files, trash, c, iv, dev);
            && (after.err != 0 ==> TEMP in after.files && after.files[TEMP] == packed)
            && (after.err == 0 ==> trash in after.files && OpenBoth(z, c, iv, after.files[trash]) == Some(content))
  {
    var was := ContentOrEmpty(files, trash);
    WrittenIffFits(|packed|, dev.encAccepts);
    SeenMeaning(packed);
    if Allocates(dev.Second(), 0, |packed|) {
      WrittenOver(c, iv, packed, was, dev.Second());
      OverwriteStart(was, EncryptFile(c, iv, packed));
      FileThenTail(c, iv, packed, Stale(was, |EncryptFile(c, iv, packed)|));
    }
  }

  // ----- the code -----

  /** First stage: source to temporary file.  Then the source goes. */
  method CompressStage(disk: Disk, src: Path, z: Deflate, tei: Tei, dev: BothDevice) returns (err: int)
    requires src in disk.files
    modifies disk
    ensures old(disk.log) <= disk.log
    ensures Staged(disk.log, |old(disk.log)|, old(disk.files), TEMP, disk.files)
    ensures disk.files == AfterFirst(old(disk.files), src, z, tei, dev)
    ensures err == if ZipOf(old(disk.files), src, z, tei, dev).failed then -1 else 0
  {
    ghost var files0, log0 := disk.files, disk.log;
    disk.Create(TEMP);
    ghost var created := disk.files;
    assert Staged(disk.log, |log0|, files0, TEMP, created);
    var zipErr := CompressInto(disk, src, TEMP, z, tei, dev.zipAccepts);
    UpdateTwice(files0, TEMP, created[TEMP], disk.files[TEMP]);
    StagedOn(log0 + [created], disk.log, |log0|, files0, TEMP, created[TEMP], disk.files);
    if zipErr < 0 {
      return zipErr;
    }
    ghost var log1, files1 := disk.log, disk.files;
    var unlinkErr := disk.Unlink(src, dev.srcStays);
    StagedEnd(log1, |log0|, files0, TEMP, files1, disk.files);
    err := 0;
  }

  /** A loop that only changes `path` continues a stage. */
  lemma StagedOn(log: seq<Files>, more: seq<Files>, from: nat, files: Files, path: Path, was: Bytes, last: Files)
    requires from <= |log| <= |more| && log <= more && OnlyChanged(more, |log|, files[path := was], path)
    requires forall i :: from <= i < |log| ==> path in log[i] && log[i] == files[path := log[i][path]]
    ensures Staged(more, from, files, path, last)
    ensures forall i :: from <= i < |more| ==> path in more[i] && more[i] == files[path := more[i][path]]
  {
    forall i | from <= i < |more| ensures path in more[i] && more[i] == files[path := more[i][path]] {
      if i < |log| {
        assert more[i] == log[i];
      } else {
        UpdateTwice(files, path, was, more[i][path]);
      }
    }
  }

  lemma StagedEnd(log: seq<Files>, from: nat, files: Files, path: Path, before: Files, last: Files)
    requires from <= |log| && forall i :: from <= i < |log| ==> path in log[i] && log[i] == files[path := log[i][path]]
    ensures Staged(log + [last], from, files, path, last)
  {
  }

  /** Second stage: temporary file to trash bin.  Then the temporary file goes. */
  method EncryptStage(disk: Disk, trash: Path, c: Cipher, iv: Iv, dev: BothDevice) returns (err: int)
    requires trash != TEMP
    modifies disk
    ensures old(disk.log) <= disk.log
    ensures Staged(disk.log, |old(disk.log)|, old(disk.files), trash, disk.files)
    ensures Outcome(disk.files, err) == SecondOutcome(old(disk.files), trash, c, iv, dev)
  {
    if !dev.tempReopens || TEMP !in disk.files || !dev.trashOpens {
      return -EPERM;
    }
    ghost var files0, log0, was := disk.files, disk.log, ContentOrEmpty(disk.files, trash);
    disk.Create(trash);
    ghost var created := disk.files;
    err := EncryptInto(disk, TEMP, trash, c, iv, dev.Second());
    UpdateTwice(files0, trash, was, disk.files[trash]);
    StagedOn(log0 + [created], disk.log, |log0|, files0, trash, was, disk.files);
    if err < 0 {
      return;
    }
    ghost var log1, files1 := disk.log, disk.files;
    err := disk.Unlink(TEMP, dev.tempStays);
    StagedEnd(log1, |log0|, files0, trash, files1, disk.files);
  }

  /** Compresses a file, encrypts the result into the trash bin, and unlinks the original
      (flag 4087).  In every state the files go through, whichever opening, allocation,
      compression or unlinking fails, the bytes of the file can be had from the source, the
      temporary file or the trash file, provided both stages are sound. */
  method ProcessEncComp(disk: Disk, src: Path, trash: Path, z: Deflate, c: Cipher, iv: Iv, tei: Tei, dev: BothDevice)
    returns (err: int)
    requires trash != src && trash != TEMP
    modifies disk
    ensures Outcome(disk.files, err) == BothOutcome(old(disk.files), src, trash, z, c, iv, tei, dev)
    ensures old(disk.log) <= disk.log
    ensures src in old(disk.files) && src != TEMP && FirstSound(old(disk.files), old(disk.files[src]), z, tei, dev) ==>
              var content := old(disk.files[src]);
              (Compressible(z, content) ==>
                 SecondSound(old(disk.files), PackedOver(old(disk.files), content, z, tei), trash, c, iv, dev)) ==>
              RecoverableSince(disk.log, |old(disk.log)|, content, src, trash, z, c, iv)
  {
    if src !in disk.files {
      return -EPERM;
    }
    if !dev.tempOpens {
      return EPERM;
    }
    ghost var content, files0, log0 := disk.files[src], disk.files, disk.log;
    err := CompressStage(disk, src, z, tei, dev);
    ghost var files1, log1 := disk.files, disk.log;
    ghost var packed := PackedOver(files0, content, z, tei);
    ghost var good := src != TEMP && FirstSound(files0, content, z, tei, dev)
                      && (Compressible(z, content) ==> SecondSound(files0, packed, trash, c, iv, dev));
    if good {
      FirstStageSound(files0, src, z, tei, dev);
      StagedKeeps(log1, |log0|, files0, TEMP, files1, content, src, trash, z, c, iv);
    }
    if err < 0 {
      return;
    }
    err := EncryptStage(disk, trash, c, iv, dev);
    if good {
      SecondStageKeeps(files0, files1, src, trash, content, packed, z, c, iv, dev);
      StagedKeeps(disk.log, |log1|, files1, trash, disk.files, content, src, trash, z, c, iv);
      RecoverableJoins(log1, disk.log, |log0|, content, src, trash, z, c, iv);
    }
  }

  lemma RecoverableJoins(log: seq<Files>, more: seq<Files>, from: nat, content: Bytes, src: Path, trash: Path,
                         z: Deflate, c: Cipher, iv: Iv)
    requires from <= |log| && log <= more
    ensures RecoverableSince(log, from, content, src, trash, z, c, iv)
            && RecoverableSince(more, |log|, content, src, trash, z, c, iv)
            ==> RecoverableSince(more, from, content, src, trash, z, c, iv)
  {
  }

  lemma {:induction false} SecondStageKeeps(files0: Files, files1: Files, src: Path, trash: Path, content: Bytes,
                                            packed: Bytes, z: Deflate, c: Cipher, iv: Iv, dev: BothDevice)
    requires trash != TEMP && TEMP in files1 && files1[TEMP] == packed && Unpack(z, packed) == Some(content)
    requires SameAt(files1, files0, trash) && SecondSound(files0, packed, trash, c, iv, dev)
    ensures Recoverable(SecondOutcome(files1, trash, c, iv, dev).files, content, src, trash, z, c, iv)
  {
    assert ContentOrEmpty(files1, trash) == ContentOrEmpty(files0, trash);
    SecondStageSound(files1, trash, packed, content, z, c, iv, dev);
  }
}
