/** The file system as the kernel code calls it.  Transfers may fail or fall short as the
    caller's device parameters say; `log` records every state the files go through. */
module FileSystem {
  import opened Bytes
  import opened Storage

  const EPERM := 1
  const EINVAL := 22

  const MAX_ERRNO := 4095

  /** What vfs_write returns for `len` bytes at `pos` when the device takes `accepts`, a
      negative number being an error. */
  function Transferred(pos: int, len: nat, accepts: int): (r: int)
    ensures -MAX_ERRNO <= r <= len
  {
    if pos < 0 then -EINVAL
    else if len == 0 then 0
    else if accepts < -MAX_ERRNO then -MAX_ERRNO
    else Min(accepts, len)
  }

  /** A write at a position that is not negative is complete, stops where the device says, or
      fails with its error. */
  lemma TransferredExact(pos: int, len: nat, accepts: int)
    requires -MAX_ERRNO <= accepts
    ensures var n := Transferred(pos, len, accepts);
            && (n == len <==> pos >= 0 && (len == 0 || accepts >= len))
            && (pos >= 0 && len > 0 && accepts < len ==> n == accepts)
            && (pos < 0 ==> n == -22)
  {
  }

  /** What a file holds after such a write. */
  function AfterWrite(content: Bytes, pos: int, data: Bytes, accepts: int): (r: Bytes)
    ensures |r| >= |content|
  {
    var n := Transferred(pos, |data|, accepts);
    if n > 0 then Overwrite(content, pos, data[..n]) else content
  }

  /** The device takes whatever it is given. */
  ghost predicate TakesAll(accepts: nat -> int) {
    forall k: nat :: accepts(k) >= PAGE_SIZE
  }

  lemma {:induction false} WriteGoesOn(was: Bytes, done: Bytes, out: Bytes, accepts: int)
    requires Transferred(|done|, |out|, accepts) == |out|
    ensures AfterWrite(Overwrite(was, 0, done), |done|, out, accepts) == Overwrite(was, 0, done + out)
  {
    OverwriteAppends(was, done, out);
    assert out[..|out|] == out;
  }

  lemma FirstWrite(done: Bytes, out: Bytes, accepts: int)
    requires |out| <= accepts
    ensures AfterWrite(done, |done|, out, accepts) == done + out && Transferred(|done|, |out|, accepts) == |out|
  {
    assert out[..|out|] == out;
  }

  /** A write at the end of a file appends what is taken. */
  lemma Appended(done: Bytes, data: Bytes, accepts: int)
    ensures AfterWrite(done, |done|, data, accepts) == done + data[..Max(Transferred(|done|, |data|, accepts), 0)]
  {
    if Transferred(|done|, |data|, accepts) <= 0 {
      assert done + data[..0] == done;
    }
  }

  /** More passes than a file whose size fits an `int` can take. */
  const PASSES: nat := 0x10_0000

  /** Before pass `k` a position kept in an `int` is not beyond the `size` bytes that were to
      be written, and errors have not taken it so far down that it wraps around. */
  predicate Behind(size: nat, k: nat, pos: int) {
    pos <= size && (size < 0x8000_0000 ==> pos >= -MAX_ERRNO - EINVAL * k)
  }

  /** What is missing once stays missing: the position never catches up. */
  lemma StaysBehind(size: nat, k: nat, pos: int, wanted: nat, got: int)
    requires Behind(size, k, pos) && k < PASSES && wanted <= 0x8000_0000
    requires got <= wanted && got >= if pos < 0 then -EINVAL else -MAX_ERRNO
    ensures Behind(size + wanted, k + 1, Wrap32(pos + got))
    ensures pos < size || got < wanted ==> Wrap32(pos + got) < size + wanted
  {
  }

  lemma WriteEnds(content: Bytes, pos: int, data: Bytes, accepts: int, size: nat)
    requires pos <= size && |content| <= size
    ensures |AfterWrite(content, pos, data, accepts)| <= size + |data|
    ensures data != [] && (pos < size || Transferred(pos, |data|, accepts) < |data|) ==>
              |AfterWrite(content, pos, data, accepts)| < size + |data|
  {
  }

  /** What a call leaves behind and returns. */
  datatype Outcome = Outcome(files: Files, err: int)

  /** Each logged state from `from` on differs from `files` at most in what `path` holds. */
  ghost predicate OnlyChanged(log: seq<Files>, from: nat, files: Files, path: Path) {
    forall i :: from <= i < |log| ==> path in log[i] && log[i] == files[path := log[i][path]]
  }

  lemma LogGrows(log: seq<Files>, from: nat, files: Files, path: Path, now: Bytes)
    requires from <= |log| && OnlyChanged(log, from, files, path)
    ensures OnlyChanged(log + [files[path := now]], from, files, path)
  {
  }

  /** Two stretches of a log in which only `path` changes make one. */
  lemma LogContinues(log: seq<Files>, more: seq<Files>, from: nat, files: Files, path: Path, now: Bytes)
    requires from <= |log| && log <= more && OnlyChanged(log, from, files, path)
    requires OnlyChanged(more, |log|, files[path := now], path)
    ensures OnlyChanged(more, from, files, path)
  {
  }

  class Disk {
    var files: Files
    ghost var log: seq<Files>

    constructor (files: Files)
      ensures this.files == files && log == []
    {
      this.files := files;
      log := [];
    }

    method Create(path: Path)
      modifies this
      ensures files == old(files)[path := ContentOrEmpty(old(files), path)]
      ensures log == old(log) + [files]
    {
      files := files[path := ContentOrEmpty(files, path)];
      log := log + [files];
    }

    method Unlink(path: Path, fails: bool) returns (err: int)
      modifies this
      ensures err == if fails || path !in old(files) then -EPERM else 0
      ensures files == if err < 0 then old(files) else old(files) - {path}
      ensures log == old(log) + [files]
    {
      if fails || path !in files {
        err := -EPERM;
      } else {
        files := files - {path};
        err := 0;
      }
      log := log + [files];
    }

    method ReadAt(path: Path, off: nat, buf: array<byte>, len: nat, fails: bool) returns (n: int)
      requires path in files && len <= buf.Length
      modifies buf
      ensures n == if fails then -EINVAL else |ReadFrom(files[path], off, len)|
      ensures n >= 0 ==> n <= len && buf[..n] == ReadFrom(files[path], off, len)
      ensures forall i :: Min(n, len) <= i < buf.Length && 0 <= i ==> buf[i] == old(buf[i])
    {
      if fails {
        return -EINVAL;
      }
      var data := ReadFrom(files[path], off, len);
      forall i | 0 <= i < |data| {
        buf[i] := data[i];
      }
      return |data|;
    }

    method WriteAt(path: Path, pos: int, buf: array<byte>, len: nat, accepts: int) returns (n: int)
      requires path in files && len <= buf.Length
      modifies this
      ensures n == Transferred(pos, len, accepts)
      ensures files == old(files)[path := AfterWrite(old(files)[path], pos, buf[..len], accepts)]
      ensures log == old(log) + [files]
    {
      n := Transferred(pos, len, accepts);
      if n > 0 {
        assert buf[..len][..n] == buf[..n];
        files := files[path := Overwrite(files[path], pos, buf[..n])];
      }
      log := log + [files];
    }
  }
}
