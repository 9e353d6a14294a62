/** Copying the common prefix of two files, block by block (read_write.c). */
module CommonPrefix {
  import opened Bytes
  import opened Storage

  const BLOCK_SIZE: nat := 4096

  /** The longest common prefix of two files that holds no NUL byte, on the whole files. */
  function Common(a: Bytes, b: Bytes): (r: Bytes)
    ensures r <= a && r <= b && 0 !in r
  {
    if a == [] || b == [] || a[0] == 0 || a[0] != b[0] then [] else [a[0]] + Common(a[1..], b[1..])
  }

  /** It is the longest one: any other such prefix is a prefix of it. */
  lemma {:induction false} CommonIsLongest(a: Bytes, b: Bytes, p: Bytes)
    requires p <= a && p <= b && 0 !in p
    ensures p <= Common(a, b)
  {
    if p == [] {
    } else {
      assert p[0] in p;
      forall i | 0 <= i < |p[1..]| ensures p[1..][i] != 0 { assert p[i + 1] in p; }
      CommonIsLongest(a[1..], b[1..], p[1..]);
      assert p == [p[0]] + p[1..];
    }
  }

  lemma {:induction false} CommonCut(a: Bytes, b: Bytes, n: nat)
    requires n <= |a| && n <= |b| && a[..n] == b[..n] && 0 !in a[..n]
    ensures Common(a, b) == a[..n] + Common(a[n..], b[n..])
  {
    if n == 0 {
    } else {
      assert a[0] == a[..n][0] && b[0] == b[..n][0] && a[..n][0] in a[..n];
      assert a[1..][..n - 1] == a[..n][1..] && b[1..][..n - 1] == b[..n][1..];
      assert 0 !in a[1..][..n - 1] by { assert forall x :: x in a[..n][1..] ==> x in a[..n]; }
      CommonCut(a[1..], b[1..], n - 1);
      assert a[1..][n - 1..] == a[n..] && b[1..][n - 1..] == b[n..];
      assert a[..n] == [a[0]] + a[1..][..n - 1];
    }
  }

  /** A freshly zeroed buffer with what a read at `pos` leaves in it. */
  ghost predicate Filled(buf: seq<byte>, file: Bytes, pos: nat) {
    && |buf| == BLOCK_SIZE
    && forall i :: 0 <= i < BLOCK_SIZE ==> buf[i] == if pos + i < |file| then file[pos + i] else 0
  }

  method ReadBlock(file: Bytes, pos: nat) returns (buf: array<byte>, bytes: nat)
    requires pos <= |file|
    ensures fresh(buf) && Filled(buf[..], file, pos)
    ensures bytes == Min(BLOCK_SIZE, |file| - pos)
  {
    buf := new byte[BLOCK_SIZE](_ => 0);
    bytes := Min(BLOCK_SIZE, |file| - pos);
    forall i | 0 <= i < bytes {
      buf[i] := file[pos + i];
    }
  }

  /** How far the loop over one block gets. */
  ghost predicate Stops(x: seq<byte>, y: seq<byte>, i: nat)
    requires |x| == |y| == BLOCK_SIZE
  {
    && i <= BLOCK_SIZE
    && (forall k :: 0 <= k < i ==> x[k] == y[k] != 0)
    && (i < BLOCK_SIZE ==> x[i] == 0 || y[i] == 0 || x[i] != y[i])
  }

  method CompareBlocks(buff3: array<byte>, buff4: array<byte>) returns (i: nat)
    requires buff3.Length == buff4.Length == BLOCK_SIZE
    ensures Stops(buff3[..], buff4[..], i)
  {
    i := 0;
    while i < BLOCK_SIZE && buff3[i] != 0 && buff4[i] != 0
      invariant 0 <= i <= BLOCK_SIZE
      invariant forall k :: 0 <= k < i ==> buff3[k] == buff4[k] != 0
    {
      if buff3[i] != buff4[i] { break; }
      i := i + 1;
    }
  }

  /** The first `pos` bytes of both files are common and have been written. */
  ghost predicate CommonUpTo(a: Bytes, b: Bytes, out: Bytes, pos: nat) {
    pos <= |a| && pos <= |b| && |out| == pos && Common(a, b) == out + Common(a[pos..], b[pos..])
  }

  lemma BlockMatches(a: Bytes, b: Bytes, pos: nat, x: seq<byte>, y: seq<byte>, i: nat)
    requires pos <= |a| && pos <= |b| && Filled(x, a, pos) && Filled(y, b, pos) && Stops(x, y, i)
    ensures pos + i <= |a| && pos + i <= |b|
    ensures Common(a[pos..], b[pos..]) == x[..i] + Common(a[pos + i..], b[pos + i..])
    ensures i < BLOCK_SIZE ==> Common(a[pos + i..], b[pos + i..]) == []
  {
    assert i > 0 ==> x[i - 1] != 0 && y[i - 1] != 0;
    var a', b' := a[pos..], b[pos..];
    assert a'[..i] == x[..i] && b'[..i] == y[..i] && x[..i] == y[..i];
    CommonCut(a', b', i);
    assert a'[i..] == a[pos + i..] && b'[i..] == b[pos + i..];
    if i < BLOCK_SIZE {
      assert x[i] == (if pos + i < |a| then a[pos + i] else 0) && y[i] == if pos + i < |b| then b[pos + i] else 0;
    }
  }

  /** One block settles `i` bytes of the common prefix, and all of it if it stops early. */
  lemma BlockSettles(a: Bytes, b: Bytes, pos: nat, x: seq<byte>, y: seq<byte>, i: nat, out: Bytes, next: nat)
    requires CommonUpTo(a, b, out, pos) && Filled(x, a, pos) && Filled(y, b, pos) && Stops(x, y, i) && next == pos + i
    ensures CommonUpTo(a, b, out + x[..i], next)
    ensures i < BLOCK_SIZE ==> Common(a, b) == out + x[..i]
    ensures i == BLOCK_SIZE ==> next - pos == Min(BLOCK_SIZE, |a| - pos)
  {
    BlockMatches(a, b, pos, x, y, i);
    Regroup(out, x[..i], Common(a[next..], b[next..]));
  }

  lemma Regroup(p: Bytes, q: Bytes, r: Bytes)
    ensures p + (q + r) == p + q + r && (r == [] ==> p + q + r == p + q)
  {
  }

  /** The next block of both files and how much of it is common, `piece`. */
  method NextPiece(a: Bytes, b: Bytes, fileSize: nat, ghost out: Bytes) returns (piece: Bytes, bytes1: nat)
    requires fileSize < |a| && CommonUpTo(a, b, out, fileSize)
    ensures |piece| <= BLOCK_SIZE && CommonUpTo(a, b, out + piece, fileSize + |piece|)
    ensures |piece| < BLOCK_SIZE ==> Common(a, b) == out + piece
    ensures bytes1 == Min(BLOCK_SIZE, |a| - fileSize)
    ensures |piece| == BLOCK_SIZE || fileSize + |piece| == |a| ==> bytes1 == |piece|
  {
    var buff3, buff4, bytes2;
    buff3, bytes1 := ReadBlock(a, fileSize);
    buff4, bytes2 := ReadBlock(b, fileSize);
    var i := CompareBlocks(buff3, buff4);
    BlockSettles(a, b, fileSize, buff3[..], buff4[..], i, out, fileSize + i);
    piece := buff3[..i];
    assert buff3[..][..i] == piece;
  }

  /** NothingCommon is the early return that only creates the output file; LoopEnd is the
      end of the loop, by its condition or by its `break`. */
  datatype Exit = NothingCommon | WriteError | LoopEnd

  /** The loop gets to write block `k` if all before it are common. */
  predicate Reaches(a: Bytes, b: Bytes, k: nat) {
    k * BLOCK_SIZE < |a| && k * BLOCK_SIZE <= |Common(a, b)|
  }

  /** Some block the loop gets to cannot be written completely. */
  ghost predicate WriteFails(a: Bytes, b: Bytes, shortWrite: nat -> bool) {
    exists k: nat :: Reaches(a, b, k) && shortWrite(k)
  }

  /** Where pass `k` starts in a file of `size` bytes. */
  function StartOf(k: nat, size: nat): nat {
    if k == 0 then 0 else Min(StartOf(k - 1, size) + BLOCK_SIZE, size)
  }

  lemma {:induction false} StartMeaning(k: nat, size: nat)
    ensures StartOf(k, size) == Min(k * BLOCK_SIZE, size)
  {
    if k == 0 {
    } else {
      StartMeaning(k - 1, size);
    }
  }

  lemma WriteFailsNow(a: Bytes, b: Bytes, out: Bytes, pos: nat, pass: nat, shortWrite: nat -> bool)
    requires CommonUpTo(a, b, out, pos) && pos == StartOf(pass, |a|) < |a| && shortWrite(pass)
    ensures WriteFails(a, b, shortWrite)
  {
    StartMeaning(pass, |a|);
    assert Reaches(a, b, pass);
  }

  /** After the last block the loop gets to. */
  lemma WritesDone(a: Bytes, b: Bytes, passes: nat, shortWrite: nat -> bool)
    requires |a| <= passes * BLOCK_SIZE || |Common(a, b)| < passes * BLOCK_SIZE
    requires forall k: nat :: k < passes ==> !shortWrite(k)
    ensures !WriteFails(a, b, shortWrite)
  {
    forall k: nat | Reaches(a, b, k) ensures k < passes {
    }
  }

  /** What a run may end with: the whole prefix and its length, or nothing. */
  ghost predicate Settles(a: Bytes, b: Bytes, shortWrite: nat -> bool, exit: Exit, out: Bytes, fileSize: nat) {
    match exit
    case NothingCommon => a != [] && Common(a, b) == [] == out
    case WriteError => Common(a, b) != [] && WriteFails(a, b, shortWrite) && out == []
    case LoopEnd =>
      && out == Common(a, b) && fileSize == |out|
      && (a == [] || (out != [] && !WriteFails(a, b, shortWrite)))
  }

  /** At the head of the loop. */
  ghost predicate AtBlock(a: Bytes, b: Bytes, shortWrite: nat -> bool, out: Bytes, fileSize: nat, pass: nat) {
    && fileSize == StartOf(pass, |a|) && CommonUpTo(a, b, out, fileSize) && (pass > 0 ==> out != [])
    && forall k: nat :: k < pass ==> !shortWrite(k)
  }

  lemma FirstBlock(a: Bytes, b: Bytes, shortWrite: nat -> bool)
    ensures AtBlock(a, b, shortWrite, [], 0, 0)
  {
    assert a[0..] == a && b[0..] == b;
  }

  lemma NextBlock(a: Bytes, b: Bytes, shortWrite: nat -> bool, out: Bytes, fileSize: nat, pass: nat,
                  piece: Bytes, next: nat)
    requires AtBlock(a, b, shortWrite, out, fileSize, pass) && fileSize < |a| && !shortWrite(pass)
    requires CommonUpTo(a, b, out + piece, fileSize + |piece|) && next == fileSize + |piece|
    requires |piece| == Min(BLOCK_SIZE, |a| - fileSize)
    ensures AtBlock(a, b, shortWrite, out + piece, next, pass + 1)
  {
  }

  lemma WholeFile(a: Bytes, b: Bytes, shortWrite: nat -> bool, out: Bytes, fileSize: nat, pass: nat)
    requires AtBlock(a, b, shortWrite, out, fileSize, pass) && fileSize == |a|
    ensures Settles(a, b, shortWrite, LoopEnd, out, fileSize)
  {
    StartMeaning(pass, |a|);
    WritesDone(a, b, pass, shortWrite);
  }

  /** One pass; without an exit it has settled its block, and the next one follows. */
  method DedupPass(a: Bytes, b: Bytes, fileSize: nat, out: Bytes, pass: nat, shortWrite: nat -> bool)
    returns (exit: Option<Exit>, nextOut: Bytes, nextSize: nat, nextPass: nat)
    requires fileSize < |a| && AtBlock(a, b, shortWrite, out, fileSize, pass)
    ensures exit == None ==> AtBlock(a, b, shortWrite, nextOut, nextSize, nextPass) && fileSize < nextSize <= |a|
    ensures exit.Some? ==> Settles(a, b, shortWrite, exit.value, nextOut, nextSize)
  {
    nextPass := pass;
    var piece, bytes1 := NextPiece(a, b, fileSize, out);
    var i := |piece|;
    if i == 0 && fileSize == 0 {
      return Some(NothingCommon), [], 0, pass;
    }
    if shortWrite(pass) {
      WriteFailsNow(a, b, out, fileSize, pass, shortWrite);
      return Some(WriteError), [], fileSize, pass;
    }
    nextOut := out + piece;
    if i < BLOCK_SIZE && fileSize + i != |a| {
      StartMeaning(pass, |a|);
      WritesDone(a, b, pass + 1, shortWrite);
      return Some(LoopEnd), nextOut, fileSize + i, pass;
    }
    exit, nextSize, nextPass := None, fileSize + bytes1, pass + 1;
    NextBlock(a, b, shortWrite, out, fileSize, pass, piece, nextSize);
  }

  /** The loop of xdedup; `shortWrite` tells which block cannot be written completely, in
      which case the output is removed. */
  method Dedup(a: Bytes, b: Bytes, shortWrite: nat -> bool) returns (exit: Exit, out: Bytes, fileSize: nat)
    ensures Settles(a, b, shortWrite, exit, out, fileSize)
  {
    out, fileSize := [], 0;
    var pass := 0;
    FirstBlock(a, b, shortWrite);
    while fileSize < |a|
      invariant 0 <= pass && fileSize <= |a| && AtBlock(a, b, shortWrite, out, fileSize, pass)
    {
      var done;
      done, out, fileSize, pass := DedupPass(a, b, fileSize, out, pass, shortWrite);
      if done.Some? {
        return done.value, out, fileSize;
      }
    }
    WholeFile(a, b, shortWrite, out, fileSize, pass);
    exit := LoopEnd;
  }
}
