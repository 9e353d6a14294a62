/** The handler of sys_xclone2_myorg.c: it compresses a file into one file of fixed name and
    decompresses that into another. */
module CompressAndBack {
  import opened Bytes
  import opened Storage
  import opened FileSystem
  import opened Encryption  // CHUNK and Seen
  import opened Framing
  import opened CompressFiles
  import opened CompressLoss
  import opened PackedMove  // SeenOnly and SeenOrMore
  import opened Pipeline  // OUT and OUT_CMP

  /** What the two files hold in the end, and whether the call fails. */
  datatype Back = Back(stored: Bytes, content: Bytes, failed: bool)

  /** `was` and `wasCmp` are what they held before; with `self` the source is the first one. */
  function BackFrom(z: Deflate, content: Bytes, self: bool, was: Bytes, wasCmp: Bytes, tei: Tei,
                    zipAccepts: nat -> int, accepts: nat -> int): Back
  {
    var stored := CompressFrom(z, content, self, 0, |Seen(content)|, tei, 0, 0, was, zipAccepts).content;
    var zip := DecompressFrom(z, stored, Wrap32(|stored|), 0, 0, wasCmp, accepts);
    Back(stored, zip.content, zip.failed)
  }

  /** An error of the first loop is overwritten by the result of the second. */
  method CompressDecompress(disk: Disk, src: Path, z: Deflate, tei: Tei, zipAccepts: nat -> int, accepts: nat -> int)
    returns (err: int)
    requires src in disk.files
    modifies disk
    ensures var back := BackFrom(z, old(disk.files[src]), src == OUT, ContentOrEmpty(old(disk.files), OUT),
                                 ContentOrEmpty(old(disk.files), OUT_CMP), tei, zipAccepts, accepts);
            disk.files == old(disk.files)[OUT := back.stored][OUT_CMP := back.content] && (err < 0 <==> back.failed)
  {
    ghost var files0, was, wasCmp := disk.files, ContentOrEmpty(disk.files, OUT), ContentOrEmpty(disk.files, OUT_CMP);
    assert OUT != OUT_CMP by { assert |OUT| != |OUT_CMP|; }
    disk.Create(OUT);
    disk.Create(OUT_CMP);
    assert disk.files[src] == files0[src];
    ghost var back := BackFrom(z, files0[src], src == OUT, was, wasCmp, tei, zipAccepts, accepts);
    err := CompressInto(disk, src, OUT, z, tei, zipAccepts);
    UpdateOther(files0, OUT, was, OUT_CMP, wasCmp, back.stored);
    err := DecompressInto(disk, OUT, OUT_CMP, z, accepts);
    UpdateTwice(files0[OUT := back.stored], OUT_CMP, wasCmp, back.content);
  }

  /** How the second loop ends on a stored file of `size` bytes that unpacks to `all`: with that
      over the older second file, or with an error.  If its size, kept in an `int`, is negative,
      nothing is read. */
  ghost predicate ReadsBack(failed: bool, content: Bytes, all: Option<Bytes>, size: nat, wasCmp: Bytes) {
    && (size < 0x8000_0000 ==>
          && (failed <==> all == None)
          && (all.Some? && |all.value| < 0x8000_0000 ==> content == Overwrite(wasCmp, 0, all.value)))
    && (0x8000_0000 <= size < 0x1_0000_0000 ==> !failed && content == wasCmp)
  }

  /** What comes back over an older first file is the seen part of the file up to the first block
      that cannot be compressed, followed by what is left of the older one.  That a block cannot
      be compressed is no error of the call. */
  lemma {:induction false} BackExact(z: Deflate, content: Bytes, was: Bytes, wasCmp: Bytes, tei: Tei,
                                     zipAccepts: nat -> int, accepts: nat -> int)
    requires FitsUntilFailure(z, Seen(content)) && TakesAll(zipAccepts) && TakesAll(accepts)
    ensures var packed := Pack(z, Seen(content), tei);
            var back := BackFrom(z, content, false, was, wasCmp, tei, zipAccepts, accepts);
            && back.stored == Overwrite(was, 0, packed) && (|back.stored| < 0x8000_0000 <==> |was| < 0x8000_0000)
            && GivesFront(z, content, back.stored, Stale(was, |packed|))
            && ReadsBack(back.failed, back.content, Unpack(z, back.stored), |back.stored|, wasCmp)
  {
    Stored(z, content, was, tei, zipAccepts);
    PackedGivesFront(z, content, tei, was);
    ReadBack(z, Overwrite(was, 0, Pack(z, Seen(content), tei)), wasCmp, accepts);
  }

  /** So into a fresh first file, a file with a block that cannot be compressed comes back cut
      off before that, and the call returns no error. */
  lemma {:induction false} BackCutOff(z: Deflate, content: Bytes, tei: Tei, zipAccepts: nat -> int,
                                      accepts: nat -> int)
    requires FitsUntilFailure(z, content) && |content| < 0x8000_0000 && TakesAll(zipAccepts) && TakesAll(accepts)
    ensures var back := BackFrom(z, content, false, [], [], tei, zipAccepts, accepts);
            && !back.failed && back.content == Front(z, content)
            && (back.content == content <==> Compressible(z, content))
  {
    SeenMeaning(content);
    BackExact(z, content, [], [], tei, zipAccepts, accepts);
    var front := Front(z, content);
    assert Stale([], |Pack(z, content, tei)|) == [] && Unpack(z, []) == Some([]);
    assert front + [] == front && Overwrite([], 0, front) == front;
  }

  lemma {:induction false} NothingRead(z: Deflate, stored: Bytes, wasCmp: Bytes, accepts: nat -> int)
    requires 0x8000_0000 <= |stored| < 0x1_0000_0000
    ensures DecompressFrom(z, stored, Wrap32(|stored|), 0, 0, wasCmp, accepts) == Zipped(wasCmp, false)
  {
    assert Wrap32(|stored|) < 0;
  }

  lemma {:induction false} ReadBack(z: Deflate, stored: Bytes, wasCmp: Bytes, accepts: nat -> int)
    requires TakesAll(accepts)
    ensures var zip := DecompressFrom(z, stored, Wrap32(|stored|), 0, 0, wasCmp, accepts);
            ReadsBack(zip.failed, zip.content, Unpack(z, stored), |stored|, wasCmp)
  {
    if |stored| < 0x8000_0000 {
      WrapSmall(|stored|);
      UnpackedOver(z, stored, wasCmp, accepts);
    } else if |stored| < 0x1_0000_0000 {
      NothingRead(z, stored, wasCmp, accepts);
    }
  }

  /** What the first loop leaves. */
  lemma {:induction false} Stored(z: Deflate, content: Bytes, was: Bytes, tei: Tei, zipAccepts: nat -> int)
    requires FitsUntilFailure(z, Seen(content)) && TakesAll(zipAccepts)
    ensures var seen, packed := Seen(content), Pack(z, Seen(content), tei);
            && |packed| < 0x8000_0000 && (|Overwrite(was, 0, packed)| < 0x8000_0000 <==> |was| < 0x8000_0000)
            && CompressFrom(z, content, false, 0, |seen|, tei, 0, 0, was, zipAccepts).content
               == Overwrite(was, 0, packed)
  {
    var seen := Seen(content);
    var packed := Pack(z, seen, tei);
    SeenOnly(z, content, tei, was, zipAccepts);
    PackedFits(z, seen, tei);
    assert Wrap32(0) == 0;
    FitsIsFramed(z, seen, tei, 0, 0, zipAccepts);
    FramedOver(z, seen, tei, was, zipAccepts);
  }

  lemma {:induction false} UnpackedOver(z: Deflate, stored: Bytes, was: Bytes, accepts: nat -> int)
    requires TakesAll(accepts)
    ensures var zip := DecompressFrom(z, stored, |stored|, 0, 0, was, accepts);
            && (zip.failed <==> Unpack(z, stored) == None)
            && (Unpack(z, stored).Some? && |Unpack(z, stored).value| < 0x8000_0000 ==>
                  zip.content == Overwrite(was, 0, Unpack(z, stored).value))
  {
    UnpackFails(z, stored, 0, 0, was, accepts);
    if Unpack(z, stored).Some? && |Unpack(z, stored).value| < 0x8000_0000 {
      assert Overwrite(was, 0, []) == was && [] + Unpack(z, stored).value == Unpack(z, stored).value;
      UnpackedWhole(z, stored, 0, was, [], accepts);
    }
  }

  /** A source of one block that is the first file itself is read before it is written to. */
  lemma {:induction false} OneBlockOverItself(z: Deflate, content: Bytes, tei: Tei, accepts: nat -> int)
    requires |content| <= CHUNK
    ensures CompressFrom(z, content, true, 0, |content|, tei, 0, 0, content, accepts)
         == CompressFrom(z, content, false, 0, |content|, tei, 0, 0, content, accepts)
  {
    if content == [] || z.compress(ReadFrom(content, 0, |content|)) == None {
    } else {
      assert z.compress(ReadFrom(content, 0, |content|)).Some?;
    }
  }

  /** So what comes back is the file, up to a block that cannot be compressed, and then what
      unpacks from the rest of it beyond its own packed form. */
  lemma {:induction false} BackOverItself(z: Deflate, content: Bytes, wasCmp: Bytes, tei: Tei, zipAccepts: nat -> int,
                                          accepts: nat -> int)
    requires |content| <= CHUNK && FitsUntilFailure(z, content) && TakesAll(zipAccepts) && TakesAll(accepts)
    ensures var packed := Pack(z, content, tei);
            var back := BackFrom(z, content, true, content, wasCmp, tei, zipAccepts, accepts);
            && back.stored == Overwrite(content, 0, packed) && |back.stored| < 0x8000_0000
            && GivesFront(z, content, back.stored, Stale(content, |packed|))
            && ReadsBack(back.failed, back.content, Unpack(z, back.stored), |back.stored|, wasCmp)
  {
    SeenMeaning(content);
    OneBlockOverItself(z, content, tei, zipAccepts);
    BackExact(z, content, content, wasCmp, tei, zipAccepts, accepts);
  }
}
