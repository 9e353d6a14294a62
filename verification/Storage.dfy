/** The small file system the kernel code runs on: read at an offset, overwrite at an
    offset without truncation (files are opened with O_CREAT, never O_TRUNC), unlink. */
module Storage {
  import opened Bytes

  type Path = string
  type Files = map<Path, Bytes>

  const PAGE_SIZE: nat := 4096

  /** At most `len` bytes of `content` from `off` on; fewer only at the end of the file. */
  function ReadFrom(content: Bytes, off: nat, len: nat): (r: Bytes)
    ensures |r| <= len
    ensures off <= |content| ==> |r| == Min(len, |content| - off)
  {
    var lo := Min(off, |content|);
    content[lo..Min(lo + len, |content|)]
  }

  /** `content` with `data` written at `off`: a gap is filled with zeros, a tail is kept. */
  function Overwrite(content: Bytes, off: nat, data: Bytes): (r: Bytes)
    ensures |r| == if data == [] || off + |data| < |content| then |content| else off + |data|
  {
    if data == [] then content
    else
      var base := if off <= |content| then content else content + seq(off - |content|, _ => 0);
      base[..off] + data + if off + |data| < |content| then content[off + |data|..] else []
  }

  /** Byte by byte: what is read is what is there. */
  lemma ReadExact(content: Bytes, off: nat, len: nat, i: nat)
    requires i < len && off + i < |content|
    ensures i < |ReadFrom(content, off, len)| && ReadFrom(content, off, len)[i] == content[off + i]
  {
  }

  /** Byte by byte: the data where it was written, elsewhere what was there, and zeros in a gap. */
  lemma OverwriteExact(content: Bytes, off: nat, data: Bytes, i: nat)
    requires i < |Overwrite(content, off, data)|
    ensures Overwrite(content, off, data)[i]
         == if off <= i < off + |data| then data[i - off] else if i < |content| then content[i] else 0
  {
  }

  /** What an old file keeps beyond `n` bytes written over its start. */
  function Stale(was: Bytes, n: nat): Bytes {
    if n <= |was| then was[n..] else []
  }

  lemma OverwriteStart(was: Bytes, data: Bytes)
    ensures Overwrite(was, 0, data) == data + Stale(was, |data|)
  {
  }

  lemma UpdateTwice(files: Files, path: Path, x: Bytes, y: Bytes)
    ensures files[path := x][path := y] == files[path := y]
  {
  }

  lemma UpdateOther(files: Files, a: Path, x: Bytes, b: Path, y: Bytes, x': Bytes)
    requires a != b
    ensures files[a := x][b := y][a := x'] == files[a := x'][b := y]
  {
  }

  /** The content of a file that may not exist yet, as O_CREAT finds it. */
  function ContentOrEmpty(files: Files, path: Path): Bytes {
    if path in files then files[path] else []
  }

  predicate SameAt(f: Files, g: Files, path: Path) {
    (path in f <==> path in g) && (path in f ==> f[path] == g[path])
  }

  /** Writing two adjacent pieces one after the other is writing them in one go. */
  lemma OverwriteAppends(content: Bytes, done: Bytes, data: Bytes)
    ensures Overwrite(Overwrite(content, 0, done), |done|, data) == Overwrite(content, 0, done + data)
  {
    if done == [] || data == [] {
      assert done + data == if done == [] then data else done;
    } else {
      var first := Overwrite(content, 0, done);
      var n := |done| + |data|;
      assert first[..|done|] == done;
      assert n < |content| ==> first[n..] == content[n..];
      assert content[..0] == [];
    }
  }

  /** Page `k` of a file, as the copy loop reads it. */
  function PageAt(src: Bytes, k: nat): (r: Bytes)
    ensures |r| <= PAGE_SIZE
  {
    ReadFrom(src, k * PAGE_SIZE, PAGE_SIZE)
  }

  /** The part of a file that the first `k` pages cover. */
  function FirstPages(src: Bytes, k: nat): Bytes {
    src[..Min(k * PAGE_SIZE, |src|)]
  }

  lemma NextPage(src: Bytes, k: nat)
    requires k * PAGE_SIZE <= |src|
    ensures FirstPages(src, k) + PageAt(src, k) == FirstPages(src, k + 1)
    ensures |PageAt(src, k)| < PAGE_SIZE ==> FirstPages(src, k + 1) == src
  {
  }

  /** Moving one file to the trash bin, all at once: what a job is for. */
  function Moved(files: Files, src: Path, trash: Path): Files {
    if src !in files then files
    else files[trash := Overwrite(ContentOrEmpty(files, trash), 0, files[src])] - {src}
  }
}
