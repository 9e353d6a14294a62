/** Moving a file compressed to the trash bin (processcompress): when the call, which returns 0
    with the source gone, has left a trash file that gives the data back. */
module PackedMove {
  import opened Bytes
  import opened Storage
  import opened FileSystem
  import opened Encryption  // CHUNK, Blocks and Seen
  import opened EncryptLoss  // BlocksFit and NothingFrom
  import opened Framing
  import opened CompressFiles
  import opened CompressLoss

  /** Everything opens and unlinks, and every block that is read can be compressed. */
  ghost predicate CallReturns(files: Files, src: Path, z: Deflate, dev: CompressDevice) {
    src in files && dev.trashOpens && !dev.unlinkFails && Compressible(z, Seen(files[src]))
  }

  /** Only what is seen of the source matters. */
  lemma {:induction false} SeenOnly(z: Deflate, content: Bytes, tei: Tei, was: Bytes, accepts: nat -> int)
    ensures var seen := Seen(content);
            && CompressFrom(z, content, false, 0, |seen|, tei, 0, 0, was, accepts)
               == PlainFrom(z, seen, tei, 0, 0, was, accepts)
               == CompressFrom(z, seen, false, 0, |seen|, tei, 0, 0, was, accepts)
  {
    var seen := Seen(content);
    assert content[0..|seen|] == seen && seen[0..|seen|] == seen;
    PlainIsCompress(z, content, 0, |seen|, tei, 0, 0, was, accepts);
    PlainIsCompress(z, seen, 0, |seen|, tei, 0, 0, was, accepts);
  }

  // ----- a source that is not seen to its end has a longer packed file -----

  lemma {:induction false} PackAtLeast(z: Deflate, data: Bytes, tei: Tei)
    requires Compressible(z, data)
    ensures |Pack(z, data, tei)| >= 4 * Blocks(|data|)
    decreases |data|
  {
    if data == [] {
    } else {
      var payload, rest := z.compress(BlockOf(data)).value, data[|BlockOf(data)|..];
      BlocksStep(|data|);
      PackNext(z, [], data, tei);
      PackAtLeast(z, rest, Header(|payload|, tei));
    }
  }

  lemma {:induction false} OneBlockAtMost(z: Deflate, data: Bytes, tei: Tei)
    requires |data| <= CHUNK
    ensures |Pack(z, data, tei)| <= 4 + PAGE_SIZE
  {
    if data == [] || z.compress(BlockOf(data)) == None {
    } else {
      PackNext(z, [], data, tei);
      assert data[|BlockOf(data)|..] == [];
    }
  }

  /** What is left out takes more room than one block can. */
  lemma {:induction false} PackGrows(z: Deflate, seen: Bytes, content: Bytes, tei: Tei)
    requires seen <= content && |content| >= |seen| + 0x100_0000 && Compressible(z, content)
    ensures |Pack(z, seen, tei)| < |Pack(z, content, tei)|
    decreases |seen|
  {
    if |seen| < CHUNK {
      OneBlockAtMost(z, seen, tei);
      PackAtLeast(z, content, tei);
    } else {
      assert BlockOf(content) == content[..CHUNK] == seen[..CHUNK] == BlockOf(seen);
      var header := Header(|z.compress(BlockOf(seen)).value|, tei);
      PackNext(z, [], seen, tei);
      PackNext(z, [], content, tei);
      PackGrows(z, seen[CHUNK..], content[CHUNK..], header);
    }
  }

  lemma SeenOrMore(content: Bytes)
    ensures Seen(content) <= content
    ensures Seen(content) != content ==> |content| >= |Seen(content)| + 0x100_0000
    ensures Seen(content) == content <==> |content| < 0x8000_0000
  {
    SeenMeaning(content);
    var size := Wrap32(|content|);
    assert size < 0x8000_0000;
    if |content| >= 0x8000_0000 {
      assert size <= |content| - 0x1_0000_0000;
    }
  }

  /** What of a file gets into its packed form, and when that is all of it. */
  lemma {:induction false} FrontOfFile(z: Deflate, content: Bytes)
    ensures var front := Front(z, Seen(content));
            && front <= content
            && (front == content <==> |content| < 0x8000_0000 && Compressible(z, content))
  {
    SeenOrMore(content);
    var front, seen := Front(z, Seen(content)), Seen(content);
    assert content[..|front|] == seen[..|front|];
  }

  /** `stored` unpacks to what could be compressed of `content` and then to what `tail` unpacks to;
      to `content` exactly if the tail unpacks to the part left out, which is empty exactly if the
      file has less than 2^31 bytes and can be compressed. */
  ghost predicate GivesFront(z: Deflate, content: Bytes, stored: Bytes, tail: Bytes) {
    var front := Front(z, Seen(content));
    && front <= content && Unpack(z, stored) == After(front, Unpack(z, tail))
    && (Unpack(z, stored) == Some(content) <==> Unpack(z, tail) == Some(content[|front|..]))
    && (content[|front|..] == [] <==> |content| < 0x8000_0000 && Compressible(z, content))
  }

  lemma {:induction false} PackedGivesFront(z: Deflate, content: Bytes, tei: Tei, was: Bytes)
    requires FitsUntilFailure(z, Seen(content))
    ensures var packed := Pack(z, Seen(content), tei);
            GivesFront(z, content, Overwrite(was, 0, packed), Stale(was, |packed|))
  {
    var seen, front := Seen(content), Front(z, Seen(content));
    var tail := Stale(was, |Pack(z, seen, tei)|);
    OverwriteStart(was, Pack(z, seen, tei));
    FrontThenTail(z, seen, tei, tail);
    FrontOfFile(z, content);
    assert content == front + content[|front|..];
    AfterCancels(front, content[|front|..], Unpack(z, tail));
  }

  /** What the loop leaves of a file of any size is its packed file only if it is seen to its
      end and written whole. */
  lemma {:induction false} PackedIs(z: Deflate, content: Bytes, tei: Tei, accepts: nat -> int)
    requires Compressible(z, content) && TakesHeaders(accepts)
    ensures var end := CompressFrom(z, content, false, 0, |Seen(content)|, tei, 0, 0, [], accepts).content;
            && |end| <= |Pack(z, content, tei)|
            && (end == Pack(z, content, tei)
                <==> |content| < 0x8000_0000 && AllFramed(z, content, 0, 0, accepts))
  {
    var seen := Seen(content);
    SeenOnly(z, content, tei, [], accepts);
    FramesIntactIff(z, seen, tei, accepts);
    SeenOrMore(content);
    if seen != content {
      PackGrows(z, seen, content, tei);
    }
  }

  /** A call into a fresh trash file on a file that can be compressed returns 0 with the source
      gone; the packed file is there if and only if the size of the source fits an `int` and
      every payload was written whole. */
  lemma {:induction false} PackedMoveIntactIff(files: Files, src: Path, trash: Path, z: Deflate, tei: Tei,
                                               dev: CompressDevice)
    requires CallReturns(files, src, z, dev) && src != trash && ContentOrEmpty(files, trash) == []
    requires Compressible(z, files[src]) && TakesHeaders(dev.accepts)
    ensures var after, content := CompressOutcome(files, src, trash, z, tei, dev), files[src];
            && after.err == 0 && src !in after.files && trash in after.files
            && (after.files[trash] == Pack(z, content, tei)
                <==> |content| < 0x8000_0000 && AllFramed(z, content, 0, 0, dev.accepts))
  {
    var content := files[src];
    SeenOnly(z, content, tei, [], dev.accepts);
    FailsIffIncompressible(z, Seen(content), tei, [], dev.accepts);
    PackedIs(z, content, tei, dev.accepts);
  }

  // ----- the packed file up to its first long block -----

  function UpToLong(z: Deflate, data: Bytes, tei: Tei): Bytes
    decreases |data|
  {
    if data == [] || z.compress(BlockOf(data)) == None then []
    else
      var payload := z.compress(BlockOf(data)).value;
      var header := Header(|payload|, tei);
      header + payload + if |payload| > 999 then [] else UpToLong(z, data[|BlockOf(data)|..], header)
  }

  lemma UpToLongStep(z: Deflate, data: Bytes, tei: Tei, payload: Bytes, header: Tei, more: Bytes)
    requires data != [] && z.compress(BlockOf(data)) == Some(payload) && header == Header(|payload|, tei)
    ensures UpToLong(z, data, tei) + more
         == header + payload + if |payload| > 999 then more
                               else UpToLong(z, data[|BlockOf(data)|..], header) + more
  {
    var next := if |payload| > 999 then [] else UpToLong(z, data[|BlockOf(data)|..], header);
    assert UpToLong(z, data, tei) == header + payload + next;
    Regroup([], header, payload, next, more);
    assert |payload| > 999 ==> next + more == more;
  }

  lemma Regroup(done: Bytes, header: Tei, payload: Bytes, next: Bytes, more: Bytes)
    ensures header + payload + next + more == header + payload + (next + more)
    ensures done + (header + payload + next) == done + header + payload + next
  {
  }

  /** Nothing that starts with it unpacks. */
  lemma {:induction false} UpToLongFails(z: Deflate, data: Bytes, tei: Tei, more: Bytes)
    requires Marked(z) && Compressible(z, data) && !Fits(z, data)
    ensures Unpack(z, UpToLong(z, data, tei) + more) == None
    decreases |data|
  {
    var payload, rest := z.compress(BlockOf(data)).value, data[|BlockOf(data)|..];
    var header := Header(|payload|, tei);
    UpToLongStep(z, data, tei, payload, header, more);
    if |payload| > 999 {
      LongFrameFails(z, BlockOf(data), payload, more, tei);
    } else {
      FrameThen(z, BlockOf(data), payload, UpToLong(z, rest, header) + more, tei);
      UpToLongFails(z, rest, header, more);
    }
  }

  lemma {:induction false} StartFails(z: Deflate, data: Bytes, tei: Tei, stored: Bytes)
    requires Marked(z) && Compressible(z, data) && !Fits(z, data) && UpToLong(z, data, tei) <= stored
    ensures Unpack(z, stored) == None
  {
    var n := |UpToLong(z, data, tei)|;
    UpToLongFails(z, data, tei, stored[n..]);
    assert stored == UpToLong(z, data, tei) + stored[n..];
  }

  lemma {:induction false} UpToLongSize(z: Deflate, data: Bytes, tei: Tei)
    ensures |UpToLong(z, data, tei)| <= 1003 * Blocks(|data|) + 4 + PAGE_SIZE
    decreases |data|
  {
    if data == [] || z.compress(BlockOf(data)) == None {
    } else {
      var payload, rest := z.compress(BlockOf(data)).value, data[|BlockOf(data)|..];
      BlocksStep(|data|);
      UpToLongSize(z, rest, Header(|payload|, tei));
    }
  }

  // ----- on a device that takes all, it stays where it was written -----

  lemma FrameBeyond(dst: Bytes, pos: int, header: Tei, payload: Bytes, k: nat, accepts: nat -> int, n: nat)
    requires TakesAll(accepts) && |payload| <= PAGE_SIZE
    requires -0x8000_0000 <= pos < 0x8000_0000 && (pos < 0 || pos >= n) && n <= |dst| && n <= 0x8000_0000 - EINVAL
    ensures var now, next := FrameOver(dst, pos, header, payload, k, accepts), NextFrame(pos, payload, k, accepts);
            && n <= |now| <= Max(|dst|, 0x8000_0000 + 4 + PAGE_SIZE) && now[..n] == dst[..n]
            && -0x8000_0000 <= next < 0x8000_0000 && (next < 0 || next >= n)
  {
    if pos >= 0 {
      assert header[..4] == header && payload[..|payload|] == payload;
      var middle := Overwrite(dst, pos, header);
      assert middle[..n] == dst[..n];
    }
  }

  /** Whatever is written from `n` on, with wrapped positions too, leaves the start alone. */
  lemma {:induction false} StartStays(z: Deflate, data: Bytes, tei: Tei, k: nat, pos: int, dst: Bytes,
                                      accepts: nat -> int, n: nat)
    requires TakesAll(accepts) && -0x8000_0000 <= pos < 0x8000_0000 && (pos < 0 || pos >= n)
    requires n <= |dst| && n <= 0x8000_0000 - EINVAL
    ensures var end := PlainFrom(z, data, tei, k, pos, dst, accepts).content;
            n <= |end| <= Max(|dst|, 0x8000_0000 + 4 + PAGE_SIZE) && end[..n] == dst[..n]
    decreases |data|
  {
    if Ended(z, data) {
      EndedMeaning(z, data, tei, k, pos, dst, accepts);
    } else {
      var payload, rest := z.compress(BlockOf(data)).value, data[|BlockOf(data)|..];
      var header, pos' := Header(|payload|, tei), NextFrame(pos, payload, k, accepts);
      var dst' := FrameOver(dst, pos, header, payload, k, accepts);
      FrameBeyond(dst, pos, header, payload, k, accepts, n);
      StartStays(z, rest, header, k + 1, pos', dst', accepts, n);
      PlainStep(PlainFrom(z, data, tei, k, pos, dst, accepts), z, data, tei, k, pos, dst, accepts, payload, header,
                rest, pos', dst');
    }
  }

  lemma AppendFrame(done: Bytes, header: Tei, payload: Bytes, k: nat, accepts: nat -> int)
    requires TakesAll(accepts) && |payload| <= PAGE_SIZE
    ensures FrameOver(done, |done|, header, payload, k, accepts) == done + header + payload
    ensures NextFrame(|done|, payload, k, accepts) == Wrap32(|done| + 4 + |payload|)
  {
    FirstWrite(done, header, accepts(2 * k));
    FirstWrite(done + header, payload, accepts(2 * k + 1));
  }

  lemma {:induction false} AppendStep(z: Deflate, data: Bytes, tei: Tei, k: nat, done: Bytes, accepts: nat -> int,
                                      payload: Bytes, header: Tei, rest: Bytes, done': Bytes)
    requires TakesAll(accepts) && data != [] && z.compress(BlockOf(data)) == Some(payload)
    requires header == Header(|payload|, tei) && rest == data[|BlockOf(data)|..]
    requires done' == done + header + payload && |done'| < 0x8000_0000
    ensures PlainFrom(z, data, tei, k, |done|, done, accepts)
         == PlainFrom(z, rest, header, k + 1, |done'|, done', accepts)
  {
    WrapSmall(|done'|);
    AppendFrame(done, header, payload, k, accepts);
    PlainStep(PlainFrom(z, data, tei, k, |done|, done, accepts), z, data, tei, k, |done|, done, accepts, payload,
              header, rest, |done'|, done');
  }

  lemma UpToLongAfter(z: Deflate, data: Bytes, tei: Tei, done: Bytes, payload: Bytes, header: Tei, done': Bytes)
    requires data != [] && z.compress(BlockOf(data)) == Some(payload) && header == Header(|payload|, tei)
    requires done' == done + header + payload
    ensures done + UpToLong(z, data, tei)
         == done' + if |payload| > 999 then [] else UpToLong(z, data[|BlockOf(data)|..], header)
  {
    var next := if |payload| > 999 then [] else UpToLong(z, data[|BlockOf(data)|..], header);
    assert UpToLong(z, data, tei) == header + payload + next;
    Regroup(done, header, payload, next, []);
  }

  /** The packed file up to its first long block is there, wherever the rest of it goes. */
  lemma {:induction false} LongStays(z: Deflate, data: Bytes, tei: Tei, k: nat, done: Bytes, accepts: nat -> int)
    requires TakesAll(accepts) && |done| + 1003 * Blocks(|data|) + 4 + PAGE_SIZE <= 0x8000_0000 - EINVAL
    ensures done + UpToLong(z, data, tei) <= PlainFrom(z, data, tei, k, |done|, done, accepts).content
    decreases |data|
  {
    if Ended(z, data) {
      EndedMeaning(z, data, tei, k, |done|, done, accepts);
      assert done + UpToLong(z, data, tei) == done;
    } else {
      var payload, rest := z.compress(BlockOf(data)).value, data[|BlockOf(data)|..];
      var header := Header(|payload|, tei);
      var done' := done + header + payload;
      BlocksStep(|data|);
      AppendStep(z, data, tei, k, done, accepts, payload, header, rest, done');
      UpToLongAfter(z, data, tei, done, payload, header, done');
      if |payload| > 999 {
        StartStays(z, rest, header, k + 1, |done'|, done', accepts, |done'|);
        assert done' + [] == done';
      } else {
        LongStays(z, rest, header, k + 1, done', accepts);
      }
    }
  }

  /** What the loop writes of `data`, whole or not, unpacks to it if every block fits its
      header, and to nothing otherwise. */
  lemma {:induction false} ZippedUnpacks(z: Deflate, data: Bytes, tei: Tei, accepts: nat -> int)
    requires |data| < 0x8000_0000 && Compressible(z, data) && Marked(z) && TakesAll(accepts)
    ensures var end := PlainFrom(z, data, tei, 0, 0, [], accepts).content;
            && Unpack(z, end) == (if Fits(z, data) then Some(data) else None)
            && (Fits(z, data) ==> end == Pack(z, data, tei) && |end| < LARGEST)
            && (!Fits(z, data) ==> UpToLong(z, data, tei) <= end)
            && |UpToLong(z, data, tei)| <= 0x4000_0000 && |end| <= 0x8000_0000 + 4 + PAGE_SIZE
  {
    var end := PlainFrom(z, data, tei, 0, 0, [], accepts).content;
    UpToLongSize(z, data, tei);
    FewBlocks(|data|);
    StartStays(z, data, tei, 0, 0, [], accepts, 0);
    FitsIff(z, data);
    if Fits(z, data) {
      PackedFits(z, data, tei);
      assert Wrap32(0) == 0;
      FitsIsFramed(z, data, tei, 0, 0, accepts);
      FramedWhole(z, data, tei, 0, [], [], accepts);
      OverwriteStart([], Pack(z, data, tei));
      assert [] + Pack(z, data, tei) == Pack(z, data, tei) == Pack(z, data, tei) + [] && Overwrite([], 0, []) == [];
      PackRoundTrip(z, data, tei);
    } else {
      LongStays(z, data, tei, 0, [], accepts);
      assert [] + UpToLong(z, data, tei) == UpToLong(z, data, tei);
      StartFails(z, data, tei, end);
    }
  }

  lemma FewBlocks(n: nat)
    requires n < 0x8000_0000
    ensures 1003 * Blocks(n) + 4 + PAGE_SIZE <= 0x4000_0000
  {
  }

  /** On a device that takes all, what is in the fresh trash file unpacks to the source if and
      only if the size of the source fits an `int` and every block fits its header. */
  lemma {:induction false} PackedMoveRecoverableIff(files: Files, src: Path, trash: Path, z: Deflate, tei: Tei,
                                                    dev: CompressDevice)
    requires CallReturns(files, src, z, dev) && src != trash && ContentOrEmpty(files, trash) == []
    requires Marked(z) && TakesAll(dev.accepts)
    ensures var after, content := CompressOutcome(files, src, trash, z, tei, dev), files[src];
            && after.err == 0 && src !in after.files && trash in after.files
            && (Unpack(z, after.files[trash]) == Some(content) <==> |content| < 0x8000_0000 && Fits(z, content))
  {
    var content := files[src];
    SeenOnly(z, content, tei, [], dev.accepts);
    FailsIffIncompressible(z, Seen(content), tei, [], dev.accepts);
    ZippedUnpacks(z, Seen(content), tei, dev.accepts);
    SeenOrMore(content);
  }

  // ----- on a device that stays full -----

  /** Once a header or a payload falls short, nothing is taken any more. */
  ghost predicate FramesStayFull(z: Deflate, data: Bytes, k: nat, pos: int, accepts: nat -> int)
    decreases |data|
  {
    data == [] || z.compress(BlockOf(data)) == None
    || var len, to := |z.compress(BlockOf(data)).value|, 2 * (k + Blocks(|data|));
       if Transferred(pos, 4, accepts(2 * k)) < 4 then NothingFrom(2 * k + 1, to, accepts)
       else if Transferred(pos + 4, len, accepts(2 * k + 1)) < len then NothingFrom(2 * k + 2, to, accepts)
       else FramesStayFull(z, data[|BlockOf(data)|..], k + 1, Wrap32(pos + 4 + len), accepts)
  }

  /** What follows the first `from` bytes unpacks to fewer than `n` bytes, or not at all. */
  ghost predicate UnpacksLess(z: Deflate, end: Bytes, done: Bytes, n: nat) {
    done <= end && (Unpack(z, end[|done|..]).Some? ==> |Unpack(z, end[|done|..]).value| < n)
  }

  /** A part of a header does not unpack, none at all unpacks to nothing. */
  lemma {:induction false} ShortHeaderLess(z: Deflate, done: Bytes, part: Bytes, n: nat)
    requires |part| < 4 && n > 0
    ensures UnpacksLess(z, done + part, done, n)
  {
    assert (done + part)[|done|..] == part;
  }

  /** The header that falls short, with nothing taken after it. */
  lemma {:induction false} HeaderCase(z: Deflate, data: Bytes, tei: Tei, k: nat, pos: int, done: Bytes,
                                      accepts: nat -> int, payload: Bytes, header: Tei)
    requires data != [] && z.compress(BlockOf(data)) == Some(payload) && header == Header(|payload|, tei)
    requires (pos == |done| || pos < 0) && Transferred(pos, 4, accepts(2 * k)) < 4
    requires NothingFrom(2 * k + 1, 2 * (k + Blocks(|data|)), accepts)
    ensures UnpacksLess(z, PlainFrom(z, data, tei, k, pos, done, accepts).content, done, |data|)
  {
    var now := FrameOver(done, pos, header, payload, k, accepts);
    var part := if pos < 0 then [] else header[..Max(Transferred(pos, 4, accepts(2 * k)), 0)];
    BlocksStep(|data|);
    if pos < 0 {
      assert done + part == done;
    } else {
      Appended(done, header, accepts(2 * k));
    }
    assert now == done + part;
    StopsAfter(z, data, tei, k, pos, done, accepts, payload, header, now);
    ShortHeaderLess(z, done, part, |data|);
  }

  /** A header whose payload is cut short does not unpack. */
  lemma {:induction false} ShortPayloadFails(z: Deflate, block: Bytes, payload: Bytes, g: nat, tei: Tei)
    requires Marked(z) && z.compress(block) == Some(payload) && g < |payload|
    ensures Unpack(z, Header(|payload|, tei) + payload[..g]) == None
  {
    var header, m := Header(|payload|, tei), Top(|payload|);
    var stored := header + payload[..g];
    HeaderExact(|payload|, tei);
    assert stored[..4] == header;
    if m <= g {
      FrameCut(header, m, payload[..g], []);
      assert header + payload[..g] + [] == stored && payload[..g][..m] == payload[..m];
      assert z.decompress(payload[..m]) == None;
    } else {
      assert FirstFrame(stored) == None;
    }
  }

  lemma {:induction false} ShortPayloadLess(z: Deflate, block: Bytes, payload: Bytes, g: nat, tei: Tei, done: Bytes,
                                            n: nat)
    requires Marked(z) && z.compress(block) == Some(payload) && g < |payload|
    ensures UnpacksLess(z, done + (Header(|payload|, tei) + payload[..g]), done, n)
  {
    var part := Header(|payload|, tei) + payload[..g];
    ShortPayloadFails(z, block, payload, g, tei);
    assert (done + part)[|done|..] == part;
  }

  lemma PayloadPart(done: Bytes, header: Tei, payload: Bytes, k: nat, accepts: nat -> int, g: nat)
    requires Transferred(|done|, 4, accepts(2 * k)) == 4
    requires g == Max(Transferred(|done| + 4, |payload|, accepts(2 * k + 1)), 0)
    ensures g <= |payload|
    ensures FrameOver(done, |done|, header, payload, k, accepts) == done + (header + payload[..g])
  {
    Appended(done, header, accepts(2 * k));
    assert header[..4] == header;
    Appended(done + header, payload, accepts(2 * k + 1));
    assert done + header + payload[..g] == done + (header + payload[..g]);
  }

  /** The payload that falls short, with nothing taken after it. */
  lemma {:induction false} PayloadCase(z: Deflate, data: Bytes, tei: Tei, k: nat, done: Bytes, accepts: nat -> int,
                                       payload: Bytes, header: Tei)
    requires Marked(z) && data != [] && z.compress(BlockOf(data)) == Some(payload) && header == Header(|payload|, tei)
    requires Transferred(|done|, 4, accepts(2 * k)) == 4
    requires Transferred(|done| + 4, |payload|, accepts(2 * k + 1)) < |payload|
    requires NothingFrom(2 * k + 2, 2 * (k + Blocks(|data|)), accepts)
    ensures UnpacksLess(z, PlainFrom(z, data, tei, k, |done|, done, accepts).content, done, |data|)
  {
    var g := Max(Transferred(|done| + 4, |payload|, accepts(2 * k + 1)), 0);
    PayloadPart(done, header, payload, k, accepts, g);
    StopsAfter(z, data, tei, k, |done|, done, accepts, payload, header, done + (header + payload[..g]));
    ShortPayloadLess(z, BlockOf(data), payload, g, tei, done, |data|);
  }

  /** A whole frame, with less than the rest after it. */
  lemma {:induction false} WholeFrameLess(z: Deflate, data: Bytes, tei: Tei, payload: Bytes, header: Tei, rest: Bytes,
                                          end: Bytes, done: Bytes, done': Bytes)
    requires Marked(z) && data != [] && z.compress(BlockOf(data)) == Some(payload) && header == Header(|payload|, tei)
    requires rest == data[|BlockOf(data)|..] && done' == done + header + payload && UnpacksLess(z, end, done', |rest|)
    ensures UnpacksLess(z, end, done, |data|)
  {
    var more := end[|done'|..];
    assert end == done' + more;
    assert end[|done|..] == header + payload + more;
    if |payload| > 999 {
      LongFrameFails(z, BlockOf(data), payload, more, tei);
    } else {
      FrameThen(z, BlockOf(data), payload, more, tei);
    }
  }

  lemma {:induction false} AppendedWhole(z: Deflate, data: Bytes, tei: Tei, k: nat, done: Bytes, accepts: nat -> int,
                                         payload: Bytes, header: Tei, rest: Bytes, done': Bytes)
    requires data != [] && z.compress(BlockOf(data)) == Some(payload) && header == Header(|payload|, tei)
    requires rest == data[|BlockOf(data)|..] && done' == done + header + payload
    requires Transferred(|done|, 4, accepts(2 * k)) == 4
    requires Transferred(|done| + 4, |payload|, accepts(2 * k + 1)) == |payload|
    ensures PlainFrom(z, data, tei, k, |done|, done, accepts)
         == PlainFrom(z, rest, header, k + 1, Wrap32(|done'|), done', accepts)
  {
    FrameGoesOn([], done, header, payload, k, accepts);
    OverwriteStart([], done);
    OverwriteStart([], done');
    assert done + [] == done && done' + [] == done';
    PlainStep(PlainFrom(z, data, tei, k, |done|, done, accepts), z, data, tei, k, |done|, done, accepts, payload,
              header, rest, Wrap32(|done'|), done');
  }

  /** Nothing is taken after this frame. */
  lemma {:induction false} StopsAfter(z: Deflate, data: Bytes, tei: Tei, k: nat, pos: int, done: Bytes,
                                      accepts: nat -> int, payload: Bytes, header: Tei, now: Bytes)
    requires data != [] && z.compress(BlockOf(data)) == Some(payload) && header == Header(|payload|, tei)
    requires now == FrameOver(done, pos, header, payload, k, accepts)
    requires NothingFrom(2 * k + 2, 2 * (k + Blocks(|data|)), accepts)
    ensures PlainFrom(z, data, tei, k, pos, done, accepts).content == now
  {
    var rest, pos' := data[|BlockOf(data)|..], NextFrame(pos, payload, k, accepts);
    BlocksStep(|data|);
    PlainStep(PlainFrom(z, data, tei, k, pos, done, accepts), z, data, tei, k, pos, done, accepts, payload, header,
              rest, pos', now);
    NothingPacked(z, rest, header, k + 1, pos', now, accepts);
  }

  lemma StaysFullNext(z: Deflate, data: Bytes, k: nat, pos: nat, accepts: nat -> int, payload: Bytes, rest: Bytes,
                      next: nat)
    requires FramesStayFull(z, data, k, pos, accepts) && !AllFramed(z, data, k, pos, accepts)
    requires z.compress(BlockOf(data)) == Some(payload) && rest == data[|BlockOf(data)|..]
    requires next == pos + 4 + |payload|
    requires Transferred(pos, 4, accepts(2 * k)) == 4
    requires Transferred(pos + 4, |payload|, accepts(2 * k + 1)) == |payload|
    ensures FramesStayFull(z, rest, k + 1, Wrap32(next), accepts) && !AllFramed(z, rest, k + 1, Wrap32(next), accepts)
    ensures pos < 0x8000_0000 ==> Wrap32(next) < 0 || Wrap32(next) == next < 0x8000_0000
  {
  }

  lemma {:induction false} WholeCase(z: Deflate, data: Bytes, tei: Tei, k: nat, done: Bytes, accepts: nat -> int,
                                     payload: Bytes, header: Tei, rest: Bytes, done': Bytes)
    requires Marked(z) && data != [] && z.compress(BlockOf(data)) == Some(payload) && header == Header(|payload|, tei)
    requires rest == data[|BlockOf(data)|..] && done' == done + header + payload
    requires Transferred(|done|, 4, accepts(2 * k)) == 4
    requires Transferred(|done| + 4, |payload|, accepts(2 * k + 1)) == |payload|
    requires var zip := PlainFrom(z, rest, header, k + 1, Wrap32(|done'|), done', accepts);
             UnpacksLess(z, zip.content, done', |rest|)
    ensures UnpacksLess(z, PlainFrom(z, data, tei, k, |done|, done, accepts).content, done, |data|)
  {
    AppendedWhole(z, data, tei, k, done, accepts, payload, header, rest, done');
    var zip := PlainFrom(z, rest, header, k + 1, Wrap32(|done'|), done', accepts);
    WholeFrameLess(z, data, tei, payload, header, rest, zip.content, done, done');
  }

  /** What was written by the time the device filled up unpacks to less than the file. */
  lemma {:induction false} FullUnpacksLess(z: Deflate, data: Bytes, tei: Tei, k: nat, pos: int, done: Bytes,
                                           accepts: nat -> int)
    requires Marked(z) && (pos == |done| < 0x8000_0000 || pos < 0)
    requires FramesStayFull(z, data, k, pos, accepts) && !AllFramed(z, data, k, pos, accepts)
    ensures UnpacksLess(z, PlainFrom(z, data, tei, k, pos, done, accepts).content, done, |data|)
    decreases |data|
  {
    var payload, rest := z.compress(BlockOf(data)).value, data[|BlockOf(data)|..];
    var header := Header(|payload|, tei);
    if Transferred(pos, 4, accepts(2 * k)) < 4 {
      HeaderCase(z, data, tei, k, pos, done, accepts, payload, header);
    } else if Transferred(pos + 4, |payload|, accepts(2 * k + 1)) < |payload| {
      PayloadCase(z, data, tei, k, done, accepts, payload, header);
    } else {
      var done' := done + header + payload;
      StaysFullNext(z, data, k, |done|, accepts, payload, rest, |done'|);
      FullUnpacksLess(z, rest, header, k + 1, Wrap32(|done'|), done', accepts);
      WholeCase(z, data, tei, k, done, accepts, payload, header, rest, done');
    }
  }

  /** The content can be had neither from the source nor from the trash file. */
  ghost predicate LostPacked(after: Files, content: Bytes, src: Path, trash: Path, z: Deflate) {
    && !(src in after && after[src] == content)
    && !(trash in after && Unpack(z, after[trash]) == Some(content))
  }

  /** Where nothing is taken any more once a write has fallen short, a call into a fresh trash
      file keeps the data if and only if the size of the source fits an `int`, every block fits
      its header, and no write falls short. */
  lemma {:induction false} PackedMoveLosesIff(files: Files, src: Path, trash: Path, z: Deflate, tei: Tei,
                                              dev: CompressDevice)
    requires CallReturns(files, src, z, dev) && src != trash && ContentOrEmpty(files, trash) == []
    requires Marked(z) && FramesStayFull(z, Seen(files[src]), 0, 0, dev.accepts)
    ensures var after, content := CompressOutcome(files, src, trash, z, tei, dev), files[src];
            && after.err == 0
            && (LostPacked(after.files, content, src, trash, z)
                <==> !(|content| < 0x8000_0000 && Fits(z, content) && AllFramed(z, content, 0, 0, dev.accepts)))
  {
    var content, seen := files[src], Seen(files[src]);
    var end := PlainFrom(z, seen, tei, 0, 0, [], dev.accepts).content;
    SeenOnly(z, content, tei, [], dev.accepts);
    FailsIffIncompressible(z, seen, tei, [], dev.accepts);
    SeenOrMore(content);
    if AllFramed(z, seen, 0, 0, dev.accepts) {
      FramedOver(z, seen, tei, [], dev.accepts);
      OverwriteStart([], Pack(z, seen, tei));
      assert Pack(z, seen, tei) + [] == Pack(z, seen, tei);
      RoundTripIffFits(z, seen, tei);
    } else {
      FullUnpacksLess(z, seen, tei, 0, 0, [], dev.accepts);
      assert end[0..] == end;
    }
  }
}
