/** Moving a file to the trash bin page by page (processunlink, processunlink_async). */
module MovePages {
  import opened Bytes
  import opened Storage
  import opened FileSystem

  /** How the device behaves in each pass of the copy loop, and afterwards. */
  datatype Device = Device(trashOpens: bool, readFails: nat -> bool, accepts: nat -> int, unlinkFails: bool)

  datatype Copy = Copy(content: Bytes, readFailed: bool)

  /** Bytes written in pass `k`.  The offset of the write is kept in a C `int`. */
  function Written(src: Bytes, k: nat, dev: Device): (r: int)
    ensures r <= |PageAt(src, k)|
  {
    Transferred(Wrap32(k * PAGE_SIZE), |PageAt(src, k)|, dev.accepts(k))
  }

  /** The trash file after pass `k`, if it held `dst` before. */
  function AfterPass(src: Bytes, k: nat, dst: Bytes, dev: Device): Bytes {
    AfterWrite(dst, Wrap32(k * PAGE_SIZE), PageAt(src, k), dev.accepts(k))
  }

  /** The copy from pass `k` on, onto a file that holds `dst` so far. */
  function CopyFrom(src: Bytes, k: nat, dst: Bytes, dev: Device): Copy
    decreases if k * PAGE_SIZE <= |src| then |src| - k * PAGE_SIZE + 1 else 0
  {
    if dev.readFails(k) then Copy(dst, true)
    else if Written(src, k, dev) == PAGE_SIZE then CopyFrom(src, k + 1, AfterPass(src, k, dst, dev), dev)
    else Copy(AfterPass(src, k, dst, dev), false)
  }

  lemma {:induction false} CopyUnfolds(src: Bytes, k: nat, dst: Bytes, dev: Device, now: Bytes)
    requires !dev.readFails(k) && now == AfterPass(src, k, dst, dev)
    ensures CopyFrom(src, k, dst, dev)
         == if Written(src, k, dev) == PAGE_SIZE then CopyFrom(src, k + 1, now, dev) else Copy(now, false)
  {
  }

  function MoveOutcome(files: Files, src: Path, trash: Path, dev: Device): Outcome {
    if src !in files || !dev.trashOpens then Outcome(files, -EPERM)
    else
      var created := files[trash := ContentOrEmpty(files, trash)];
      var copy := CopyFrom(created[src], 0, created[trash], dev);
      var copied := created[trash := copy.content];
      if copy.readFailed then Outcome(copied, 0)
      else if dev.unlinkFails then Outcome(copied, -EPERM)
      else Outcome(copied - {src}, 0)
  }

  /** Where the loop stands: what is left to do to reach the copy `all`. */
  ghost predicate CopyingTo(all: Copy, src: Bytes, k: nat, total: int, more: bool, copy: Bytes, dev: Device) {
    if more then k * PAGE_SIZE <= |src| && total == Wrap32(k * PAGE_SIZE) && all == CopyFrom(src, k, copy, dev)
    else all == Copy(copy, false)
  }

  lemma CopyStep(all: Copy, src: Bytes, k: nat, copy: Bytes, dev: Device, n: int, total: int, more: bool, copy': Bytes)
    requires CopyingTo(all, src, k, Wrap32(k * PAGE_SIZE), true, copy, dev)
    requires !dev.readFails(k) && n == Written(src, k, dev) && copy' == AfterPass(src, k, copy, dev)
    requires total == Wrap32(Wrap32(k * PAGE_SIZE) + n) && more == (n == |PageAt(src, k)| == PAGE_SIZE)
    ensures CopyingTo(all, src, if |PageAt(src, k)| == PAGE_SIZE then k + 1 else k, total, more, copy', dev)
    ensures |PageAt(src, k)| == PAGE_SIZE ==> (k + 1) * PAGE_SIZE <= |src|
  {
    WrapSum(k * PAGE_SIZE, n);
  }

  /** One pass of the copy loop. */
  method CopyPass(disk: Disk, src: Path, trash: Path, tempbuf: array<byte>, pagesread: nat, total: int, dev: Device,
                  ghost content: Bytes, ghost copy: Bytes, ghost all: Copy)
    returns (readbytes: int, nextPages: nat, nextTotal: int, more: bool, ghost copy': Bytes)
    requires src != trash && tempbuf.Length == PAGE_SIZE
    requires src in disk.files && disk.files[src] == content && trash in disk.files && disk.files[trash] == copy
    requires CopyingTo(all, content, pagesread, total, true, copy, dev)
    modifies disk, tempbuf
    ensures disk.files == old(disk.files)[trash := copy']
    ensures readbytes < 0 ==> all == Copy(copy', true)
    ensures readbytes >= 0 ==> CopyingTo(all, content, nextPages, nextTotal, more, copy', dev)
    ensures readbytes >= 0 ==> nextPages >= pagesread && (more ==> nextPages > pagesread)
    ensures nextPages * PAGE_SIZE <= |content|
  {
    nextPages, nextTotal, more, copy' := pagesread, total, false, copy;
    readbytes := disk.ReadAt(src, pagesread * PAGE_SIZE, tempbuf, PAGE_SIZE, dev.readFails(pagesread));
    if readbytes < 0 {
      return;
    }
    ghost var page := PageAt(content, pagesread);
    assert tempbuf[..readbytes] == page;
    var writebytes := disk.WriteAt(trash, total, tempbuf, readbytes, dev.accepts(pagesread));
    nextTotal := Wrap32(total + writebytes);
    if readbytes == PAGE_SIZE {
      nextPages := pagesread + 1;
    }
    more := readbytes == writebytes && readbytes == PAGE_SIZE;
    copy' := AfterPass(content, pagesread, copy, dev);
    assert disk.files == old(disk.files)[trash := copy'];
    CopyStep(all, content, pagesread, copy, dev, writebytes, nextTotal, more, copy');
  }

  /** The copy loop. */
  method CopyPages(disk: Disk, src: Path, trash: Path, dev: Device) returns (readFailed: bool)
    requires src != trash && src in disk.files && trash in disk.files
    modifies disk
    ensures var copy := CopyFrom(old(disk.files[src]), 0, old(disk.files[trash]), dev);
            disk.files == old(disk.files)[trash := copy.content] && readFailed == copy.readFailed
  {
    var tempbuf := new byte[PAGE_SIZE];
    var pagesread, total := 0, 0;
    var more := true;
    ghost var before := disk.files;
    ghost var content, copy := before[src], before[trash];
    ghost var all := CopyFrom(content, 0, copy, dev);
    assert disk.files == before[trash := copy];
    while more
      invariant 0 <= pagesread && pagesread * PAGE_SIZE <= |content|
      invariant disk.files == before[trash := copy]
      invariant CopyingTo(all, content, pagesread, total, more, copy, dev)
      decreases |content| - pagesread * PAGE_SIZE, more
    {
      ghost var last := copy;
      var readbytes;
      readbytes, pagesread, total, more, copy :=
        CopyPass(disk, src, trash, tempbuf, pagesread, total, dev, content, copy, all);
      UpdateTwice(before, trash, last, copy);
      if readbytes < 0 {
        return true;
      }
    }
    readFailed := false;
  }

  /** The whole operation; `err` is still 0 when a read fails. */
  method ProcessUnlink(disk: Disk, src: Path, trash: Path, dev: Device) returns (err: int)
    requires src != trash
    modifies disk
    ensures Outcome(disk.files, err) == MoveOutcome(old(disk.files), src, trash, dev)
  {
    if src !in disk.files || !dev.trashOpens {
      return -EPERM;
    }
    disk.Create(trash);
    var readFailed := CopyPages(disk, src, trash, dev);
    if readFailed {
      return 0;
    }
    err := disk.Unlink(src, dev.unlinkFails);
  }

  // ----- a device without faults -----

  ghost predicate FaultFree(dev: Device) {
    dev.trashOpens && !dev.unlinkFails && (forall k :: !dev.readFails(k)) && (forall k :: dev.accepts(k) >= PAGE_SIZE)
  }

  /** As far as the copy gets before the `int` offset turns negative. */
  const REACH: nat := 0x8000_0000

  lemma {:induction false} FaultFreeCopy(src: Bytes, k: nat, was: Bytes, dev: Device)
    requires FaultFree(dev) && k * PAGE_SIZE <= |src| && k * PAGE_SIZE <= REACH
    ensures CopyFrom(src, k, Overwrite(was, 0, FirstPages(src, k)), dev)
         == Copy(Overwrite(was, 0, src[..Min(|src|, REACH)]), false)
    decreases |src| - k * PAGE_SIZE
  {
    NextPage(src, k);
    OverwriteAppends(was, FirstPages(src, k), PageAt(src, k));
    if k * PAGE_SIZE < REACH {
      WrapSmall(k * PAGE_SIZE);
      assert PageAt(src, k)[..|PageAt(src, k)|] == PageAt(src, k);
      if |PageAt(src, k)| == PAGE_SIZE {
        FaultFreeCopy(src, k + 1, was, dev);
      } else {
        assert src[..Min(|src|, REACH)] == src;
      }
    } else {
      assert Wrap32(k * PAGE_SIZE) < 0;
      assert FirstPages(src, k) == src[..Min(|src|, REACH)];
    }
  }

  /** On a device without faults the file is moved whole exactly if it has at most 2^31
      bytes; of a longer one the rest is lost, for the source is unlinked all the same. */
  lemma MoveWithoutFaults(files: Files, src: Path, trash: Path, dev: Device)
    requires FaultFree(dev) && src in files && src != trash
    ensures var after := MoveOutcome(files, src, trash, dev);
            && after.err == 0
            && after.files == files[trash := Overwrite(ContentOrEmpty(files, trash), 0,
                                                       files[src][..Min(|files[src]|, REACH)])] - {src}
            && (|files[src]| <= REACH ==> after.files == Moved(files, src, trash))
            && (ContentOrEmpty(files, trash) == [] && after.files == Moved(files, src, trash) ==> |files[src]| <= REACH)
  {
    var content, was := files[src], ContentOrEmpty(files, trash);
    FaultFreeCopy(content, 0, was, dev);
    assert Overwrite(was, 0, FirstPages(content, 0)) == was;
    if |content| <= REACH {
      assert content[..Min(|content|, REACH)] == content;
    } else {
      var after := MoveOutcome(files, src, trash, dev).files;
      assert after[trash] == Overwrite(was, 0, content[..REACH]);
      assert Moved(files, src, trash)[trash] == Overwrite(was, 0, content);
    }
  }

  // ----- any device -----

  ghost predicate CleanBefore(src: Bytes, k: nat, dev: Device) {
    forall j: nat :: j < k ==> !dev.readFails(j) && Written(src, j, dev) == |PageAt(src, j)|
  }

  /** The first fault of the device is a write that falls short. */
  ghost predicate ShortWriteFirst(src: Bytes, dev: Device) {
    exists k: nat :: ShortWriteAt(src, k, dev)
  }

  ghost predicate ShortWriteAt(src: Bytes, k: nat, dev: Device) {
    && k * PAGE_SIZE < |src| && CleanBefore(src, k, dev)
    && !dev.readFails(k) && Written(src, k, dev) < |PageAt(src, k)|
  }

  ghost predicate ReadFailsAt(src: Bytes, k: nat, dev: Device) {
    k * PAGE_SIZE <= |src| && CleanBefore(src, k, dev) && dev.readFails(k)
  }

  /** The first fault of the device is a read that fails. */
  ghost predicate ReadFailsFirst(src: Bytes, dev: Device) {
    exists k: nat :: ReadFailsAt(src, k, dev)
  }

  /** Clean passes never get beyond the reach of the `int` offset. */
  lemma CleanStaysInReach(src: Bytes, k: nat, dev: Device)
    requires CleanBefore(src, k, dev) && k * PAGE_SIZE <= |src|
    ensures k * PAGE_SIZE <= REACH
  {
    var refused := Written(src, REACH / PAGE_SIZE, dev);
  }

  lemma PartialPage(src: Bytes, k: nat, n: nat, was: Bytes)
    requires k * PAGE_SIZE <= |src| && n <= |PageAt(src, k)|
    ensures FirstPages(src, k) + PageAt(src, k)[..n] == src[..k * PAGE_SIZE + n]
    ensures Overwrite(Overwrite(was, 0, FirstPages(src, k)), k * PAGE_SIZE, PageAt(src, k)[..n])
         == Overwrite(was, 0, src[..k * PAGE_SIZE + n])
    ensures n == |PageAt(src, k)| == PAGE_SIZE ==> src[..k * PAGE_SIZE + n] == FirstPages(src, k + 1)
  {
    OverwriteAppends(was, FirstPages(src, k), PageAt(src, k)[..n]);
  }

  /** A copy that stops in pass `k` settles what the first fault is. */
  lemma FirstFaultHere(src: Bytes, k: nat, dev: Device)
    requires CleanBefore(src, k, dev) && k * PAGE_SIZE <= |src|
    requires dev.readFails(k) || Written(src, k, dev) != |PageAt(src, k)| || |PageAt(src, k)| < PAGE_SIZE
    ensures forall j: nat :: ShortWriteAt(src, j, dev) || ReadFailsAt(src, j, dev) ==> j == k
    ensures ShortWriteFirst(src, dev) <==> ShortWriteAt(src, k, dev)
    ensures ReadFailsFirst(src, dev) <==> ReadFailsAt(src, k, dev)
  {
    forall j: nat | ShortWriteAt(src, j, dev) || ReadFailsAt(src, j, dev) ensures j == k {
      if j > k {
        assert false;
      }
    }
  }

  /** How many bytes a copy moves: those before the page of the first fault, and of that page
      what the device took. */
  ghost predicate Moves(src: Bytes, dev: Device, n: nat) {
    && (forall k: nat :: ReadFailsAt(src, k, dev) ==> n == k * PAGE_SIZE)
    && (forall k: nat :: ShortWriteAt(src, k, dev) ==> n == k * PAGE_SIZE + Max(Written(src, k, dev), 0))
    && (!ReadFailsFirst(src, dev) && !ShortWriteFirst(src, dev) ==> n == |src|)
  }

  lemma {:induction false} MovesHere(src: Bytes, k: nat, dev: Device, n: nat)
    requires CleanBefore(src, k, dev) && k * PAGE_SIZE <= |src|
    requires dev.readFails(k) || Written(src, k, dev) != PAGE_SIZE
    requires n == k * PAGE_SIZE + if dev.readFails(k) then 0 else Max(Written(src, k, dev), 0)
    ensures n <= |src| && Moves(src, dev, n) && (ReadFailsFirst(src, dev) <==> dev.readFails(k))
  {
    FirstFaultHere(src, k, dev);
  }

  /** From pass `k` on the copy makes the first `n` bytes of it, over whatever there was. */
  ghost predicate Copies(src: Bytes, k: nat, was: Bytes, dev: Device, n: nat) {
    && n <= |src| && Moves(src, dev, n)
    && CopyFrom(src, k, Overwrite(was, 0, FirstPages(src, k)), dev)
       == Copy(Overwrite(was, 0, src[..n]), ReadFailsFirst(src, dev))
  }

  lemma {:induction false} CopiesHere(src: Bytes, k: nat, was: Bytes, dev: Device, n: nat)
    requires CleanBefore(src, k, dev) && k * PAGE_SIZE <= |src|
    requires dev.readFails(k) || Written(src, k, dev) != PAGE_SIZE
    requires n == k * PAGE_SIZE + if dev.readFails(k) then 0 else Max(Written(src, k, dev), 0)
    ensures Copies(src, k, was, dev, n)
  {
    MovesHere(src, k, dev, n);
    if dev.readFails(k) {
      NothingTakenOver(src, k, was);
    } else {
      PassOver(src, k, was, dev, Written(src, k, dev));
    }
  }

  lemma {:induction false} CopiesBefore(src: Bytes, k: nat, was: Bytes, dev: Device, n: nat)
    requires CleanBefore(src, k, dev) && k * PAGE_SIZE <= |src| && !dev.readFails(k)
    requires Written(src, k, dev) == PAGE_SIZE && Copies(src, k + 1, was, dev, n)
    ensures Copies(src, k, was, dev, n)
  {
    PassOver(src, k, was, dev, PAGE_SIZE);
  }

  /** On every device the copy is a prefix of the source. */
  lemma {:induction false} CopyIsPrefix(src: Bytes, k: nat, was: Bytes, dev: Device) returns (n: nat)
    requires CleanBefore(src, k, dev) && k * PAGE_SIZE <= |src|
    ensures Copies(src, k, was, dev, n)
    decreases |src| - k * PAGE_SIZE
  {
    if dev.readFails(k) {
      n := k * PAGE_SIZE;
      CopiesHere(src, k, was, dev, n);
    } else if Written(src, k, dev) != PAGE_SIZE {
      n := k * PAGE_SIZE + Max(Written(src, k, dev), 0);
      CopiesHere(src, k, was, dev, n);
    } else {
      CleanNext(src, k, dev);
      n := CopyIsPrefix(src, k + 1, was, dev);
      CopiesBefore(src, k, was, dev, n);
    }
  }

  lemma CleanNext(src: Bytes, k: nat, dev: Device)
    requires CleanBefore(src, k, dev) && k * PAGE_SIZE <= |src| && !dev.readFails(k)
    requires Written(src, k, dev) == PAGE_SIZE
    ensures CleanBefore(src, k + 1, dev) && (k + 1) * PAGE_SIZE <= |src|
  {
  }

  lemma {:induction false} PassOver(src: Bytes, k: nat, was: Bytes, dev: Device, got: int)
    requires CleanBefore(src, k, dev) && k * PAGE_SIZE <= |src| && !dev.readFails(k) && got == Written(src, k, dev)
    ensures k * PAGE_SIZE + Max(got, 0) <= |src|
    ensures CopyFrom(src, k, Overwrite(was, 0, FirstPages(src, k)), dev)
         == if got == PAGE_SIZE then CopyFrom(src, k + 1, Overwrite(was, 0, FirstPages(src, k + 1)), dev)
            else Copy(Overwrite(was, 0, src[..k * PAGE_SIZE + Max(got, 0)]), false)
  {
    CleanStaysInReach(src, k, dev);
    assert got > 0 ==> Wrap32(k * PAGE_SIZE) == k * PAGE_SIZE;
    PartialPage(src, k, Max(got, 0), was);
    NothingTakenOver(src, k, was);
    CopyUnfolds(src, k, Overwrite(was, 0, FirstPages(src, k)), dev,
                AfterPass(src, k, Overwrite(was, 0, FirstPages(src, k)), dev));
  }

  lemma NothingTakenOver(src: Bytes, k: nat, was: Bytes)
    requires k * PAGE_SIZE <= |src|
    ensures Overwrite(was, 0, FirstPages(src, k)) == Overwrite(was, 0, src[..k * PAGE_SIZE])
  {
  }

  /** The data of the file is in neither place any more. */
  ghost predicate Lost(before: Files, after: Files, src: Path, trash: Path) {
    src in before && src !in after && !(trash in after && after[trash] == before[src])
  }

  /** Into a fresh trash file, a move loses data exactly if the first fault is a short
      write: the loop stops there and the source is unlinked regardless. */
  lemma MoveLosesIff(files: Files, src: Path, trash: Path, dev: Device)
    requires src in files && src != trash && ContentOrEmpty(files, trash) == []
    ensures Lost(files, MoveOutcome(files, src, trash, dev).files, src, trash)
            <==> dev.trashOpens && !dev.unlinkFails && ShortWriteFirst(files[src], dev)
  {
    var n := CopyIsPrefix(files[src], 0, [], dev);
    assert FirstPages(files[src], 0) == [] && Overwrite([], 0, files[src][..n]) == files[src][..n];
  }

  /** The call reports success with the source still in place exactly if the first fault is a
      failing read; the source is then as it was. */
  lemma {:induction false} SuccessKeepsSourceIff(files: Files, src: Path, trash: Path, dev: Device)
    requires src in files && src != trash
    ensures var after := MoveOutcome(files, src, trash, dev);
            && (after.err == 0 && src in after.files <==> dev.trashOpens && ReadFailsFirst(files[src], dev))
            && (src in after.files ==> after.files[src] == files[src])
  {
    var n := CopyIsPrefix(files[src], 0, ContentOrEmpty(files, trash), dev);
    assert Overwrite(ContentOrEmpty(files, trash), 0, FirstPages(files[src], 0)) == ContentOrEmpty(files, trash);
  }

  /** What every call leaves and returns, whatever the device does: in the trash file, over
      what it held, the bytes before the first fault. */
  lemma {:induction false} MoveSettles(files: Files, src: Path, trash: Path, dev: Device) returns (n: nat)
    requires src != trash
    ensures var after := MoveOutcome(files, src, trash, dev);
            && (src !in files || !dev.trashOpens ==> after == Outcome(files, -EPERM))
            && (src in files && dev.trashOpens ==>
                  n <= |files[src]| && Moves(files[src], dev, n) &&
                  var readFails := ReadFailsFirst(files[src], dev);
                  var written := files[trash := Overwrite(ContentOrEmpty(files, trash), 0, files[src][..n])];
                  after == if readFails then Outcome(written, 0)
                           else if dev.unlinkFails then Outcome(written, -EPERM)
                           else Outcome(written - {src}, 0))
  {
    n := 0;
    if src in files {
      var was := ContentOrEmpty(files, trash);
      n := CopyIsPrefix(files[src], 0, was, dev);
      assert Overwrite(was, 0, FirstPages(files[src], 0)) == was;
    }
  }
}
