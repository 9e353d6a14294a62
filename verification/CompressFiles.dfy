/** The loops of compress_file and decompress_file on buffers and files, with framing repaired,
    and processcompress.  Neither loop looks at how much of a frame or block was written. */
module CompressFiles {
  import opened Bytes
  import opened Storage
  import opened FileSystem
  import opened Encryption  // CHUNK and Seen are common to both formats
  import opened Framing

  /** What the device takes of each header (2k) and payload (2k + 1) of pass k. */
  datatype CompressDevice = CompressDevice(trashOpens: bool, accepts: nat -> int, unlinkFails: bool)

  // ----- what the loops make of the file they write to -----

  datatype Zipped = Zipped(content: Bytes, failed: bool)

  /** Header and payload are written at the file position, one after the other. */
  function PayloadPos(pos: int, k: nat, accepts: nat -> int): int {
    var n := Transferred(pos, 4, accepts(2 * k));
    if n < 0 then pos else pos + n
  }

  function FrameOver(dst: Bytes, pos: int, header: Tei, payload: Bytes, k: nat, accepts: nat -> int): (r: Bytes)
    ensures |r| >= |dst|
  {
    AfterWrite(AfterWrite(dst, pos, header, accepts(2 * k)), PayloadPos(pos, k, accepts), payload, accepts(2 * k + 1))
  }

  /** The next position, behind header and payload. */
  function NextFrame(pos: int, payload: Bytes, k: nat, accepts: nat -> int): int {
    Wrap32(pos + 4 + Transferred(PayloadPos(pos, k, accepts), |payload|, accepts(2 * k + 1)))
  }

  /** From pass `k` on, the source being read up to `i` of `size` bytes, onto a file that
      holds `dst` so far.  With `self` the source is that very file. */
  function CompressFrom(z: Deflate, src: Bytes, self: bool, i: nat, size: nat, tei: Tei, k: nat, pos: int, dst: Bytes,
                        accepts: nat -> int): Zipped
    decreases size - i
  {
    if i >= size then Zipped(dst, false)
    else
      var n := Min(CHUNK, size - i);
      match z.compress(ReadFrom(if self then dst else src, i, n))
      case None => Zipped(dst, true)
      case Some(payload) =>
        var header := Header(|payload|, tei);
        CompressFrom(z, src, self, i + n, size, header, k + 1, NextFrame(pos, payload, k, accepts),
                     FrameOver(dst, pos, header, payload, k, accepts), accepts)
  }

  /** The same of decompressing; `fsize` is what is left of the size the loop knows. */
  function DecompressFrom(z: Deflate, stored: Bytes, fsize: int, k: nat, pos: int, dst: Bytes,
                          accepts: nat -> int): Zipped
    decreases |stored| + 1, 0
  {
    if fsize <= 0 then Zipped(dst, false)
    else DecompressFrame(z, FirstFrame(stored), fsize, k, pos, dst, accepts)
  }

  function DecompressFrame(z: Deflate, frame: Option<(Bytes, Bytes)>, fsize: int, k: nat, pos: int, dst: Bytes,
                           accepts: nat -> int): Zipped
    decreases if frame.Some? then |frame.value.1| + 1 else 0, 1
  {
    match frame
    case None => Zipped(dst, true)
    case Some((payload, rest)) =>
      match z.decompress(payload)
      case None => Zipped(dst, true)
      case Some(block) =>
        DecompressFrom(z, rest, fsize - 4 - |payload|, k + 1, Wrap32(pos + Transferred(pos, |block|, accepts(k))),
                       AfterWrite(dst, pos, block, accepts(k)), accepts)
  }

  function CompressOutcome(files: Files, src: Path, trash: Path, z: Deflate, tei: Tei, dev: CompressDevice): Outcome {
    if src !in files then Outcome(files, -EPERM)
    else if !dev.trashOpens then Outcome(files, EPERM)
    else
      var was := ContentOrEmpty(files, trash);
      var zip := CompressFrom(z, files[src], false, 0, |Seen(files[src])|, tei, 0, 0, was, dev.accepts);
      var written := files[trash := zip.content];
      if zip.failed then Outcome(written, -1)
      else Outcome(if dev.unlinkFails then written else written - {src}, 0)
  }

  // ----- compressing -----

  /** Copies a value into a buffer, as the compressor or snprintf leaves it there. */
  method Fill(buf: array<byte>, data: Bytes)
    requires |data| <= buf.Length
    modifies buf
    ensures buf[..|data|] == data && buf[|data|..] == old(buf[|data|..])
  {
    forall i | 0 <= i < |data| {
      buf[i] := data[i];
    }
  }

  /** Reads and compresses one block into a buffer. */
  method ZipBlock(disk: Disk, src: Path, z: Deflate, currRead: nat, tempSize: nat)
    returns (err: int, buff4: array<byte>, bytes1: nat)
    requires src in disk.files && currRead + tempSize <= |disk.files[src]| && tempSize <= CHUNK
    ensures fresh(buff4) && bytes1 == tempSize
    ensures var compressed := z.compress(ReadFrom(disk.files[src], currRead, tempSize));
            if compressed == None then err == -1
            else 0 <= err <= buff4.Length && buff4[..err] == compressed.value
  {
    var buff3;
    buff3, buff4 := new byte[PAGE_SIZE], new byte[PAGE_SIZE];
    bytes1 := disk.ReadAt(src, currRead, buff3, tempSize, false);
    var compressed := z.compress(buff3[..bytes1]);
    if compressed == None {
      err := -1;
    } else {
      err := |compressed.value|;
      Fill(buff4, compressed.value);
    }
  }

  method WriteFrame(disk: Disk, dst: Path, tei: array<byte>, buf: array<byte>, len: nat, pos: int, k: nat,
                    accepts: nat -> int, ghost header: Tei, ghost payload: Bytes) returns (bytes2: int)
    requires dst in disk.files && tei.Length == 4 && len <= buf.Length
    requires tei[..] == header && buf[..len] == payload
    modifies disk
    ensures bytes2 == Transferred(PayloadPos(pos, k, accepts), |payload|, accepts(2 * k + 1))
    ensures disk.files == old(disk.files)[dst := FrameOver(old(disk.files[dst]), pos, header, payload, k, accepts)]
    ensures old(disk.log) <= disk.log && OnlyChanged(disk.log, |old(disk.log)|, old(disk.files), dst)
  {
    ghost var before := disk.files;
    assert tei[..4] == header;
    bytes2 := disk.WriteAt(dst, pos, tei, 4, accepts(2 * k));
    ghost var middle := disk.files[dst];
    assert disk.files == before[dst := middle];
    bytes2 := disk.WriteAt(dst, if bytes2 < 0 then pos else pos + bytes2, buf, len, accepts(2 * k + 1));
    UpdateTwice(before, dst, middle, disk.files[dst]);
    assert disk.files == before[dst := disk.files[dst]];
  }

  /** At the head of pass `k`; what is left to do ends in `all`. */
  ghost predicate AtBlock(all: Zipped, z: Deflate, content: Bytes, self: bool, i: nat, size: nat, tei: Tei, k: nat,
                          pos: int, now: Bytes, accepts: nat -> int) {
    i <= size && size <= |if self then now else content|
    && all == CompressFrom(z, content, self, i, size, tei, k, pos, now, accepts)
  }

  lemma {:induction false} FirstBlock(z: Deflate, content: Bytes, self: bool, tei: Tei, now: Bytes,
                                      accepts: nat -> int)
    requires self ==> now == content
    ensures var size := |Seen(content)|;
            AtBlock(CompressFrom(z, content, self, 0, size, tei, 0, 0, now, accepts), z, content, self, 0, size, tei,
                    0, 0, now, accepts)
  {
  }

  lemma {:induction false} NextBlock(all: Zipped, z: Deflate, content: Bytes, self: bool, i: nat, size: nat, tei: Tei,
                                     k: nat, pos: int, now: Bytes, accepts: nat -> int, n: nat, payload: Bytes,
                                     header: Tei, i': nat, pos': int, now': Bytes)
    requires AtBlock(all, z, content, self, i, size, tei, k, pos, now, accepts) && i < size && n == Min(CHUNK, size - i)
    requires z.compress(ReadFrom(if self then now else content, i, n)) == Some(payload)
    requires header == Header(|payload|, tei)
    requires i' == i + n && pos' == NextFrame(pos, payload, k, accepts)
    requires now' == FrameOver(now, pos, header, payload, k, accepts)
    ensures AtBlock(all, z, content, self, i', size, header, k + 1, pos', now', accepts)
  {
  }

  lemma {:induction false} LastBlock(all: Zipped, z: Deflate, content: Bytes, self: bool, i: nat, size: nat, tei: Tei,
                                     k: nat, pos: int, now: Bytes, accepts: nat -> int)
    requires AtBlock(all, z, content, self, i, size, tei, k, pos, now, accepts)
    requires i == size || z.compress(ReadFrom(if self then now else content, i, Min(CHUNK, size - i))) == None
    ensures all == Zipped(now, i != size)
  {
  }

  /** One pass of the loop below. */
  method CompressPass(disk: Disk, src: Path, dst: Path, z: Deflate, tei: array<byte>, currRead: nat, tempSize: nat,
                      currWrite: int, k: nat, accepts: nat -> int, ghost content: Bytes, ghost size: nat,
                      ghost tei1: Tei, ghost now: Bytes, ghost all: Zipped)
    returns (err: int, nextRead: nat, nextWrite: int, ghost header: Tei, ghost now': Bytes)
    requires src in disk.files && dst in disk.files
    requires disk.files[dst] == now && (src != dst ==> disk.files[src] == content)
    requires tei.Length == 4 && tei[..] == tei1 && currRead < size && tempSize == Min(CHUNK, size - currRead)
    requires AtBlock(all, z, content, src == dst, currRead, size, tei1, k, currWrite, now, accepts)
    modifies disk, tei
    ensures disk.files == old(disk.files)[dst := now'] && tei[..] == header
    ensures old(disk.log) <= disk.log && OnlyChanged(disk.log, |old(disk.log)|, old(disk.files), dst)
    ensures err < 0 ==> err == -1 && all == Zipped(now', true)
    ensures err >= 0 ==> nextRead == currRead + tempSize
    ensures err >= 0 ==> AtBlock(all, z, content, src == dst, nextRead, size, header, k + 1, nextWrite, now', accepts)
  {
    nextRead, nextWrite, header, now' := currRead, currWrite, tei1, now;
    var buff4, bytes1;
    err, buff4, bytes1 := ZipBlock(disk, src, z, currRead, tempSize);
    if err < 0 {
      LastBlock(all, z, content, src == dst, currRead, size, tei1, k, currWrite, now, accepts);
      return;
    }
    ghost var payload := buff4[..err];
    Fill(tei, Header(err, tei[..]));
    header := Header(err, tei1);
    assert tei[..] == header;
    var bytes2 := WriteFrame(disk, dst, tei, buff4, err, currWrite, k, accepts, header, payload);
    nextRead := currRead + bytes1;
    nextWrite := Wrap32(currWrite + 4 + bytes2);
    now' := FrameOver(now, currWrite, header, payload, k, accepts);
    NextBlock(all, z, content, src == dst, currRead, size, tei1, k, currWrite, now, accepts, tempSize, payload, header,
              nextRead, nextWrite, now');
  }

  /** The repaired compress_file: positions advance by header and payload.  Source and target
      may be the same file. */
  method CompressInto(disk: Disk, src: Path, dst: Path, z: Deflate, tei0: Tei, accepts: nat -> int) returns (err: int)
    requires src in disk.files && dst in disk.files
    modifies disk
    ensures old(disk.log) <= disk.log && OnlyChanged(disk.log, |old(disk.log)|, old(disk.files), dst)
    ensures err >= -1
    ensures var content := old(disk.files[src]);
            var zip :=
              CompressFrom(z, content, src == dst, 0, |Seen(content)|, tei0, 0, 0, old(disk.files[dst]), accepts);
            disk.files == old(disk.files)[dst := zip.content] && (err < 0 <==> zip.failed)
  {
    ghost var before, content, now := disk.files, disk.files[src], disk.files[dst];
    ghost var self, size := src == dst, |Seen(content)|;
    ghost var all := CompressFrom(z, content, self, 0, size, tei0, 0, 0, now, accepts);
    ghost var header := tei0;
    var tei := new byte[4](i requires 0 <= i < 4 => tei0[i]);
    assert tei[..] == tei0 && disk.files == before[dst := now];
    var fsize := Wrap32(|disk.files[src]|);
    var currRead, currWrite, pass := 0, 0, 0;
    FirstBlock(z, content, self, tei0, now, accepts);
    err := 0;
    while fsize > 0
      invariant 0 <= currRead && 0 <= pass && err >= 0 && currRead + (if fsize > 0 then fsize else 0) == size
      invariant old(disk.log) <= disk.log && OnlyChanged(disk.log, |old(disk.log)|, before, dst)
      invariant disk.files == before[dst := now] && tei[..] == header
      invariant AtBlock(all, z, content, self, currRead, size, header, pass, currWrite, now, accepts)
      decreases fsize
    {
      var tempSize;
      if fsize > PAGE_SIZE - 16 {
        tempSize := PAGE_SIZE - 16;
        fsize := fsize - tempSize;
      } else {
        tempSize := fsize;
        fsize := 0;
      }
      ghost var logged, last := disk.log, now;
      err, currRead, currWrite, header, now :=
        CompressPass(disk, src, dst, z, tei, currRead, tempSize, currWrite, pass, accepts, content, size, header, now,
                     all);
      LogContinues(logged, disk.log, |old(disk.log)|, before, dst, last);
      UpdateTwice(before, dst, last, now);
      if err < 0 {
        return;
      }
      pass := pass + 1;
    }
    LastBlock(all, z, content, self, currRead, size, header, pass, currWrite, now, accepts);
  }

  /** Compresses a file into the trash bin and unlinks it (flag 4083). */
  method ProcessCompress(disk: Disk, src: Path, trash: Path, z: Deflate, tei: Tei, dev: CompressDevice)
    returns (err: int)
    requires src != trash
    modifies disk
    ensures Outcome(disk.files, err) == CompressOutcome(old(disk.files), src, trash, z, tei, dev)
  {
    if src !in disk.files {
      return -EPERM;
    }
    if !dev.trashOpens {
      return EPERM;
    }
    ghost var was := ContentOrEmpty(disk.files, trash);
    ghost var zip := CompressFrom(z, disk.files[src], false, 0, |Seen(disk.files[src])|, tei, 0, 0, was, dev.accepts);
    disk.Create(trash);
    var zipErr := CompressInto(disk, src, trash, z, tei, dev.accepts);
    UpdateTwice(old(disk.files), trash, was, zip.content);
    if zipErr < 0 {
      return zipErr;
    }
    var unlinkErr := disk.Unlink(src, dev.unlinkFails);
    err := 0;
  }

  // ----- decompressing -----

  /** Reads one frame; the outcome is what FirstFrame says of the rest of the file. */
  method ReadFrame(disk: Disk, src: Path, buf: array<byte>, currRead: nat, ghost seen: Bytes)
    returns (psize: int)
    requires src in disk.files && buf.Length == PAGE_SIZE
    requires seen == disk.files[src] && currRead < |seen|
    modifies buf
    ensures psize < 0 <==> FirstFrame(seen[currRead..]) == None
    ensures psize >= 0 ==> psize <= PAGE_SIZE && currRead + 4 + psize <= |seen|
                           && FirstFrame(seen[currRead..]) == Some((buf[..psize], seen[currRead + 4 + psize..]))
  {
    ghost var stored := seen[currRead..];
    var ps := new byte[4];
    var bytes1 := disk.ReadAt(src, currRead, ps, 4, false);
    if bytes1 < 4 {
      return -EINVAL;
    }
    assert ps[..] == ps[..4] == stored[..4];
    var parsed := ParseHeader(ps[..]);
    if parsed == None || parsed.value > PAGE_SIZE {
      return -EINVAL;
    }
    psize := parsed.value;
    bytes1 := disk.ReadAt(src, currRead + 4, buf, psize, false);
    if bytes1 < psize {
      return -EINVAL;
    }
    assert buf[..psize] == seen[currRead + 4..currRead + 4 + psize] == stored[4..4 + psize];
    assert stored[4 + psize..] == seen[currRead + 4 + psize..];
  }

  /** At the head of pass `k`, the stored file being read up to `i`. */
  ghost predicate AtFrame(all: Zipped, z: Deflate, stored: Bytes, i: nat, fsize: int, k: nat, pos: int, now: Bytes,
                          accepts: nat -> int) {
    && i + fsize <= |stored| && i <= |stored|
    && all == DecompressFrom(z, stored[i..], fsize, k, pos, now, accepts)
  }

  lemma {:induction false} DecompressOne(z: Deflate, stored: Bytes, fsize: int, k: nat, pos: int, dst: Bytes,
                                         accepts: nat -> int, payload: Bytes, rest: Bytes, block: Bytes, fsize': int,
                                         pos': int, dst': Bytes)
    requires fsize > 0 && FirstFrame(stored) == Some((payload, rest)) && z.decompress(payload) == Some(block)
    requires fsize' == fsize - 4 - |payload| && pos' == Wrap32(pos + Transferred(pos, |block|, accepts(k)))
    requires dst' == AfterWrite(dst, pos, block, accepts(k))
    ensures DecompressFrom(z, stored, fsize, k, pos, dst, accepts)
         == DecompressFrom(z, rest, fsize', k + 1, pos', dst', accepts)
  {
    assert DecompressFrom(z, stored, fsize, k, pos, dst, accepts)
        == DecompressFrame(z, Some((payload, rest)), fsize, k, pos, dst, accepts);
  }

  lemma {:induction false} NextStored(all: Zipped, z: Deflate, stored: Bytes, i: nat, fsize: int, k: nat, pos: int,
                                      now: Bytes, accepts: nat -> int, payload: Bytes, block: Bytes, i': nat,
                                      fsize': int, pos': int, now': Bytes)
    requires AtFrame(all, z, stored, i, fsize, k, pos, now, accepts) && fsize > 0
    requires i' == i + 4 + |payload| <= |stored| && fsize' == fsize - 4 - |payload|
    requires FirstFrame(stored[i..]) == Some((payload, stored[i'..]))
    requires z.decompress(payload) == Some(block) && pos' == Wrap32(pos + Transferred(pos, |block|, accepts(k)))
    requires now' == AfterWrite(now, pos, block, accepts(k))
    ensures AtFrame(all, z, stored, i', fsize', k + 1, pos', now', accepts)
  {
    DecompressOne(z, stored[i..], fsize, k, pos, now, accepts, payload, stored[i'..], block, fsize', pos', now');
  }

  lemma {:induction false} BadFrame(all: Zipped, z: Deflate, stored: Bytes, i: nat, fsize: int, k: nat, pos: int,
                                    now: Bytes, accepts: nat -> int)
    requires AtFrame(all, z, stored, i, fsize, k, pos, now, accepts) && fsize > 0
    requires FirstFrame(stored[i..]).Some? ==> z.decompress(FirstFrame(stored[i..]).value.0) == None
    ensures all == Zipped(now, true)
  {
    assert all == DecompressFrame(z, FirstFrame(stored[i..]), fsize, k, pos, now, accepts);
  }

  lemma {:induction false} LastStored(all: Zipped, z: Deflate, stored: Bytes, i: nat, fsize: int, k: nat, pos: int,
                                      now: Bytes, accepts: nat -> int)
    requires AtFrame(all, z, stored, i, fsize, k, pos, now, accepts) && fsize <= 0
    ensures all == Zipped(now, false)
  {
  }

  /** One pass of the loop below: the stored file is consumed up to `nextRead`. */
  method DecompressPass(disk: Disk, src: Path, dst: Path, z: Deflate, currRead: nat, fsize: int, currWrite: int, k: nat,
                        accepts: nat -> int, ghost stored: Bytes, ghost now: Bytes, ghost all: Zipped)
    returns (err: int, nextRead: nat, nextSize: int, nextWrite: int, ghost now': Bytes)
    requires src != dst && src in disk.files && dst in disk.files && fsize > 0
    requires stored == disk.files[src] && now == disk.files[dst]
    requires AtFrame(all, z, stored, currRead, fsize, k, currWrite, now, accepts)
    modifies disk
    ensures err < 0 ==>
              disk.files == old(disk.files) && disk.log == old(disk.log) && now' == now && all == Zipped(now, true)
    ensures err >= 0 ==>
              && nextSize < fsize && disk.files == old(disk.files)[dst := now']
              && AtFrame(all, z, stored, nextRead, nextSize, k + 1, nextWrite, now', accepts)
              && disk.log == old(disk.log) + [disk.files]
  {
    nextRead, nextSize, nextWrite, now' := currRead, fsize, currWrite, now;
    var buff3, buff4 := new byte[PAGE_SIZE], new byte[PAGE_SIZE];
    var psize := ReadFrame(disk, src, buff3, currRead, stored);
    if psize < 0 {
      BadFrame(all, z, stored, currRead, fsize, k, currWrite, now, accepts);
      err := -EINVAL;
      return;
    }
    ghost var payload := buff3[..psize];
    var block := z.decompress(buff3[..psize]);
    if block == None {
      BadFrame(all, z, stored, currRead, fsize, k, currWrite, now, accepts);
      err := -1;
      return;
    }
    Fill(buff4, block.value);
    var bytes2 := disk.WriteAt(dst, currWrite, buff4, |block.value|, accepts(k));
    nextWrite := Wrap32(currWrite + bytes2);
    nextRead, nextSize := currRead + 4 + psize, fsize - 4 - psize;
    err := 0;
    now' := AfterWrite(now, currWrite, block.value, accepts(k));
    NextStored(all, z, stored, currRead, fsize, k, currWrite, now, accepts, payload, block.value, nextRead, nextSize,
               nextWrite, now');
  }

  /** The repaired decompress_file: each pass consumes a header and its payload. */
  method DecompressInto(disk: Disk, src: Path, dst: Path, z: Deflate, accepts: nat -> int) returns (err: int)
    requires src != dst && src in disk.files && dst in disk.files
    modifies disk
    ensures old(disk.log) <= disk.log && OnlyChanged(disk.log, |old(disk.log)|, old(disk.files), dst)
    ensures var stored := old(disk.files[src]);
            var zip := DecompressFrom(z, stored, Wrap32(|stored|), 0, 0, old(disk.files[dst]), accepts);
            disk.files == old(disk.files)[dst := zip.content] && (err < 0 <==> zip.failed)
  {
    ghost var before, now, stored := disk.files, disk.files[dst], disk.files[src];
    ghost var all := DecompressFrom(z, stored, Wrap32(|stored|), 0, 0, now, accepts);
    assert stored[0..] == stored && disk.files == before[dst := now];
    var fsize := Wrap32(|disk.files[src]|);
    var currRead, currWrite, pass := 0, 0, 0;
    err := 0;
    while fsize > 0
      invariant 0 <= currRead && 0 <= pass && err >= 0
      invariant old(disk.log) <= disk.log && OnlyChanged(disk.log, |old(disk.log)|, before, dst)
      invariant disk.files == before[dst := now]
      invariant AtFrame(all, z, stored, currRead, fsize, pass, currWrite, now, accepts)
      decreases fsize
    {
      ghost var last := now;
      err, currRead, fsize, currWrite, now :=
        DecompressPass(disk, src, dst, z, currRead, fsize, currWrite, pass, accepts, stored, now, all);
      if err < 0 {
        return;
      }
      UpdateTwice(before, dst, last, now);
      LogGrows(disk.log[..|disk.log| - 1], |old(disk.log)|, before, dst, now);
      pass := pass + 1;
    }
    LastStored(all, z, stored, currRead, fsize, pass, currWrite, now, accepts);
  }
}
