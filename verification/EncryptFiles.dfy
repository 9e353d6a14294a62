/** Encrypting a file into the trash bin: clone_encryption on buffers, the loop that
    processencryption and process_enc_comp have in common, and the former as a whole.  The
    loop never looks at how much of a piece was written. */
module EncryptFiles {
  import opened Bytes
  import opened Storage
  import opened FileSystem
  import opened Encryption

  const ENOMEM := 12

  /** Which ciphers cannot be allocated and what the device takes of each piece, by pass; and
      whether the trash file can be opened and the source unlinked. */
  datatype EncryptDevice = EncryptDevice(trashOpens: bool, allocFails: nat -> bool, accepts: nat -> int,
                                         unlinkFails: bool)

  // ----- what the loop makes of the file it writes to -----

  /** From pass `k` on, with `data` still to be read, onto a file that holds `dst` so far; the
      position `pos` is kept in a C `int`. */
  function EncryptFrom(c: Cipher, iv: Iv, data: Bytes, k: nat, pos: int, dst: Bytes, dev: EncryptDevice): Bytes
    decreases |data|
  {
    if data == [] || dev.allocFails(k) then dst
    else
      var n := Min(CHUNK, |data|);
      var out := EncryptChunk(c, iv, data[..n]);
      EncryptFrom(c, iv, data[n..], k + 1, Wrap32(pos + Transferred(pos, |out|, dev.accepts(k))),
                  AfterWrite(dst, pos, out, dev.accepts(k)), dev)
  }

  /** A cipher can be allocated for every chunk of `n` bytes, from pass `k` on. */
  ghost predicate Allocates(dev: EncryptDevice, k: nat, n: nat) {
    forall j: nat :: k <= j < k + Blocks(n) ==> !dev.allocFails(j)
  }

  lemma PassesAreBlocks(n: nat, pass: nat)
    ensures pass * CHUNK < n <==> pass < Blocks(n)
  {
  }

  ghost function EncryptOutcome(files: Files, src: Path, trash: Path, c: Cipher, iv: Iv, dev: EncryptDevice): Outcome {
    if src !in files then Outcome(files, -EPERM)
    else if !dev.trashOpens then Outcome(files, EPERM)
    else
      var seen := Seen(files[src]);
      var written := files[trash := EncryptFrom(c, iv, seen, 0, 0, ContentOrEmpty(files, trash), dev)];
      if !Allocates(dev, 0, |seen|) then Outcome(written, -ENOMEM)
      else if dev.unlinkFails then Outcome(written, -EPERM)
      else Outcome(written - {src}, 0)
  }

  // ----- the code -----

  /** Encrypts the first `srcLen` bytes of `src` into `dst`; an error is a cipher that could
      not be allocated. */
  method CloneEncryption(c: Cipher, iv: Iv, dst: array<byte>, src: array<byte>, srcLen: nat, allocFails: bool)
    returns (err: int, dstLen: nat)
    requires srcLen <= src.Length && srcLen <= CHUNK && dst.Length == PAGE_SIZE && src != dst
    modifies dst
    ensures err == if allocFails then -ENOMEM else 0
    ensures !allocFails ==> dstLen <= dst.Length && dst[..dstLen] == EncryptChunk(c, iv, src[..srcLen])
  {
    if allocFails {
      return -ENOMEM, 0;
    }
    ghost var chunk := src[..srcLen];
    var zeroPadding := 0x10 - srcLen % 0x10;
    var pad := new byte[48];
    forall i | 0 <= i < zeroPadding {
      pad[i] := zeroPadding;
    }
    assert src[..srcLen] + pad[..zeroPadding] == Pad(chunk);
    ChunkFillsBuffer(c, iv, chunk);
    dstLen := srcLen + zeroPadding;
    var out := Cbc(c, iv, src[..srcLen] + pad[..zeroPadding]);
    forall i | 0 <= i < dstLen {
      dst[i] := out[i];
    }
    assert dst[..dstLen] == out && src[..srcLen] == chunk;
    err := 0;
  }

  /** Reads and encrypts one chunk into a buffer. */
  method SealChunk(disk: Disk, src: Path, c: Cipher, iv: Iv, currRead: nat, tempSize: nat, allocFails: bool,
                   ghost seen: Bytes) returns (err: int, buff4: array<byte>, dstLen: nat, bytes1: nat)
    requires src in disk.files && |seen| <= |disk.files[src]| && seen == disk.files[src][..|seen|]
    requires currRead < |seen| && tempSize == Min(CHUNK, |seen| - currRead)
    ensures fresh(buff4) && bytes1 == tempSize && err == if allocFails then -ENOMEM else 0
    ensures !allocFails ==>
              && dstLen <= buff4.Length
              && buff4[..dstLen] == EncryptChunk(c, iv, seen[currRead..][..tempSize])
  {
    var buff3;
    buff3, buff4 := new byte[PAGE_SIZE], new byte[PAGE_SIZE];
    bytes1 := disk.ReadAt(src, currRead, buff3, tempSize, false);
    assert buff3[..bytes1] == seen[currRead..][..tempSize];
    err, dstLen := CloneEncryption(c, iv, buff4, buff3, bytes1, allocFails);
  }

  /** The loop has come to `rest`, and what is left to do ends in `all`. */
  ghost predicate EncryptingTo(all: Bytes, c: Cipher, iv: Iv, rest: Bytes, k: nat, pos: int, now: Bytes,
                               dev: EncryptDevice) {
    all == EncryptFrom(c, iv, rest, k, pos, now, dev)
  }

  lemma {:induction false} EncryptStep(all: Bytes, c: Cipher, iv: Iv, rest: Bytes, k: nat, pos: int, now: Bytes,
                                       dev: EncryptDevice, n: nat, out: Bytes)
    requires rest != [] && n == Min(CHUNK, |rest|) && EncryptingTo(all, c, iv, rest, k, pos, now, dev)
    requires !dev.allocFails(k) && out == EncryptChunk(c, iv, rest[..n])
    ensures EncryptingTo(all, c, iv, rest[n..], k + 1, Wrap32(pos + Transferred(pos, |out|, dev.accepts(k))),
                         AfterWrite(now, pos, out, dev.accepts(k)), dev)
  {
  }

  /** At the head of pass `k`. */
  ghost predicate AtPass(all: Bytes, c: Cipher, iv: Iv, seen: Bytes, currRead: nat, k: nat, pos: int, now: Bytes,
                         dev: EncryptDevice) {
    && currRead == Min(k * CHUNK, |seen|) && (forall j: nat :: j < k ==> !dev.allocFails(j))
    && EncryptingTo(all, c, iv, seen[currRead..], k, pos, now, dev)
  }

  lemma {:induction false} FirstPass(c: Cipher, iv: Iv, seen: Bytes, now: Bytes, dev: EncryptDevice)
    ensures AtPass(EncryptFrom(c, iv, seen, 0, 0, now, dev), c, iv, seen, 0, 0, 0, now, dev)
  {
    assert seen[0..] == seen;
  }

  lemma {:induction false} FailedPass(all: Bytes, c: Cipher, iv: Iv, seen: Bytes, i: nat, k: nat, pos: int,
                                      now: Bytes, dev: EncryptDevice)
    requires AtPass(all, c, iv, seen, i, k, pos, now, dev) && i < |seen| && dev.allocFails(k)
    ensures all == now && !Allocates(dev, 0, |seen|)
  {
    PassesAreBlocks(|seen|, k);
  }

  lemma {:induction false} NextPass(all: Bytes, c: Cipher, iv: Iv, seen: Bytes, i: nat, k: nat, pos: int, now: Bytes,
                                    dev: EncryptDevice, n: nat, out: Bytes, i': nat, pos': int, now': Bytes)
    requires AtPass(all, c, iv, seen, i, k, pos, now, dev) && i < |seen| && n == Min(CHUNK, |seen| - i)
    requires !dev.allocFails(k) && out == EncryptChunk(c, iv, seen[i..][..n])
    requires i' == i + n && pos' == Wrap32(pos + Transferred(pos, |out|, dev.accepts(k)))
    requires now' == AfterWrite(now, pos, out, dev.accepts(k))
    ensures AtPass(all, c, iv, seen, i', k + 1, pos', now', dev)
  {
    EncryptStep(all, c, iv, seen[i..], k, pos, now, dev, n, out);
    assert seen[i..][n..] == seen[i'..];
  }

  lemma {:induction false} LastPass(all: Bytes, c: Cipher, iv: Iv, seen: Bytes, i: nat, k: nat, pos: int, now: Bytes,
                                    dev: EncryptDevice)
    requires AtPass(all, c, iv, seen, i, k, pos, now, dev) && i == |seen|
    ensures all == now && Allocates(dev, 0, |seen|)
  {
    assert seen[i..] == [];
    PassesAreBlocks(|seen|, k);
  }

  /** One pass of the loop below. */
  method EncryptPass(disk: Disk, src: Path, dst: Path, c: Cipher, iv: Iv, currRead: nat, tempSize: nat,
                     currWrite: int, k: nat, dev: EncryptDevice, ghost seen: Bytes, ghost now: Bytes, ghost all: Bytes)
    returns (err: int, nextRead: nat, nextWrite: int, ghost now': Bytes)
    requires src != dst && src in disk.files && dst in disk.files && disk.files[dst] == now
    requires |seen| <= |disk.files[src]| && seen == disk.files[src][..|seen|]
    requires currRead < |seen| && tempSize == Min(CHUNK, |seen| - currRead)
    requires AtPass(all, c, iv, seen, currRead, k, currWrite, now, dev)
    modifies disk
    ensures err == 0 || (err == -ENOMEM && !Allocates(dev, 0, |seen|))
    ensures err < 0 ==> disk.files == old(disk.files) && disk.log == old(disk.log) && now' == all == now
    ensures err == 0 ==>
              && nextRead == currRead + tempSize && AtPass(all, c, iv, seen, nextRead, k + 1, nextWrite, now', dev)
              && disk.files == old(disk.files)[dst := now'] && disk.log == old(disk.log) + [disk.files]
  {
    nextRead, nextWrite, now' := currRead, currWrite, now;
    var buff4, dstLen, bytes1;
    err, buff4, dstLen, bytes1 := SealChunk(disk, src, c, iv, currRead, tempSize, dev.allocFails(k), seen);
    if err < 0 {
      FailedPass(all, c, iv, seen, currRead, k, currWrite, now, dev);
      return;
    }
    ghost var out := buff4[..dstLen];
    var bytes2 := disk.WriteAt(dst, currWrite, buff4, dstLen, dev.accepts(k));
    nextRead := currRead + bytes1;
    nextWrite := Wrap32(currWrite + bytes2);
    now' := AfterWrite(now, currWrite, out, dev.accepts(k));
    NextPass(all, c, iv, seen, currRead, k, currWrite, now, dev, tempSize, out, nextRead, nextWrite, now');
  }

  /** The loop that processencryption and process_enc_comp have in common. */
  method EncryptInto(disk: Disk, src: Path, dst: Path, c: Cipher, iv: Iv, dev: EncryptDevice) returns (err: int)
    requires src != dst && src in disk.files && dst in disk.files
    modifies disk
    ensures old(disk.log) <= disk.log && OnlyChanged(disk.log, |old(disk.log)|, old(disk.files), dst)
    ensures disk.files
         == old(disk.files)[dst := EncryptFrom(c, iv, Seen(old(disk.files[src])), 0, 0, old(disk.files[dst]), dev)]
    ensures err == if Allocates(dev, 0, |Seen(old(disk.files[src]))|) then 0 else -ENOMEM
  {
    ghost var before, seen, now := disk.files, Seen(disk.files[src]), disk.files[dst];
    ghost var all := EncryptFrom(c, iv, seen, 0, 0, now, dev);
    FirstPass(c, iv, seen, now, dev);
    assert disk.files == before[dst := now];
    var fsize := Wrap32(|disk.files[src]|);
    var currRead, currWrite, pass := 0, 0, 0;
    err := 0;
    while fsize > 0
      invariant 0 <= pass && 0 <= currRead && err == 0
      invariant currRead + (if fsize > 0 then fsize else 0) == |seen|
      invariant old(disk.log) <= disk.log && OnlyChanged(disk.log, |old(disk.log)|, before, dst)
      invariant disk.files == before[dst := now]
      invariant AtPass(all, c, iv, seen, currRead, pass, currWrite, now, dev)
      decreases fsize
    {
      var tempSize;
      if fsize > PAGE_SIZE - 16 {
        tempSize := PAGE_SIZE - 16;
        fsize := fsize - tempSize;
      } else {
        tempSize := fsize;
        fsize := 0;
      }
      ghost var last := now;
      err, currRead, currWrite, now :=
        EncryptPass(disk, src, dst, c, iv, currRead, tempSize, currWrite, pass, dev, seen, now, all);
      if err < 0 {
        return;
      }
      UpdateTwice(before, dst, last, now);
      LogGrows(disk.log[..|disk.log| - 1], |old(disk.log)|, before, dst, now);
      pass := pass + 1;
    }
    LastPass(all, c, iv, seen, currRead, pass, currWrite, now, dev);
  }

  /** Encrypts a file into the trash bin and unlinks it (flag 4085). */
  method ProcessEncryption(disk: Disk, src: Path, trash: Path, c: Cipher, iv: Iv, dev: EncryptDevice)
    returns (err: int)
    requires src != trash
    modifies disk
    ensures Outcome(disk.files, err) == EncryptOutcome(old(disk.files), src, trash, c, iv, dev)
  {
    if src !in disk.files {
      return -EPERM;
    }
    if !dev.trashOpens {
      return EPERM;
    }
    ghost var was := ContentOrEmpty(disk.files, trash);
    ghost var all := EncryptFrom(c, iv, Seen(disk.files[src]), 0, 0, was, dev);
    disk.Create(trash);
    err := EncryptInto(disk, src, trash, c, iv, dev);
    UpdateTwice(old(disk.files), trash, was, all);
    if err < 0 {
      return;
    }
    err := disk.Unlink(src, dev.unlinkFails);
  }
}
