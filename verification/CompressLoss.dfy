/** What the compression loop leaves behind, and when that is the packed file. */
module CompressLoss {
  import opened Bytes
  import opened Storage
  import opened FileSystem
  import opened Encryption  // CHUNK, Blocks and Seen
  import opened EncryptLoss  // BlocksFit and NothingFrom
  import opened Framing
  import opened CompressFiles

  /** Every write of a header and of a payload is complete, with `data` still to be read. */
  predicate AllFramed(z: Deflate, data: Bytes, k: nat, pos: int, accepts: nat -> int)
    decreases |data|
  {
    data == [] || z.compress(BlockOf(data)) == None
    || var len := |z.compress(BlockOf(data)).value|;
       && Transferred(pos, 4, accepts(2 * k)) == 4
       && Transferred(pos + 4, len, accepts(2 * k + 1)) == len
       && AllFramed(z, data[|BlockOf(data)|..], k + 1, Wrap32(pos + 4 + len), accepts)
  }

  /** The loop with source and target apart, in terms of the data still to be read. */
  function PlainFrom(z: Deflate, data: Bytes, tei: Tei, k: nat, pos: int, dst: Bytes, accepts: nat -> int): Zipped
    decreases |data|
  {
    if data == [] then Zipped(dst, false)
    else
      match z.compress(BlockOf(data))
      case None => Zipped(dst, true)
      case Some(payload) =>
        var header := Header(|payload|, tei);
        PlainFrom(z, data[|BlockOf(data)|..], header, k + 1, NextFrame(pos, payload, k, accepts),
                  FrameOver(dst, pos, header, payload, k, accepts), accepts)
  }

  lemma NextBlockOf(src: Bytes, i: nat, size: nat)
    requires i < size <= |src|
    ensures var n, data := Min(CHUNK, size - i), src[i..size];
            && ReadFrom(src, i, n) == BlockOf(data) && |BlockOf(data)| == n && data[n..] == src[i + n..size]
  {
  }

  lemma {:induction false} BothStep(z: Deflate, src: Bytes, i: nat, size: nat, tei: Tei, k: nat, pos: int, dst: Bytes,
                                    accepts: nat -> int, data: Bytes, payload: Bytes, header: Tei, i': nat, rest: Bytes,
                                    pos': int, dst': Bytes)
    requires i < size <= |src| && data == src[i..size] && z.compress(BlockOf(data)) == Some(payload)
    requires header == Header(|payload|, tei) && i' == i + Min(CHUNK, size - i) && rest == src[i'..size]
    requires pos' == NextFrame(pos, payload, k, accepts) && dst' == FrameOver(dst, pos, header, payload, k, accepts)
    ensures CompressFrom(z, src, false, i, size, tei, k, pos, dst, accepts)
         == CompressFrom(z, src, false, i', size, header, k + 1, pos', dst', accepts)
    ensures PlainFrom(z, data, tei, k, pos, dst, accepts) == PlainFrom(z, rest, header, k + 1, pos', dst', accepts)
  {
    NextBlockOf(src, i, size);
    NextBlock(CompressFrom(z, src, false, i, size, tei, k, pos, dst, accepts), z, src, false, i, size, tei, k, pos, dst,
              accepts, i' - i, payload, header, i', pos', dst');
    PlainStep(PlainFrom(z, data, tei, k, pos, dst, accepts), z, data, tei, k, pos, dst, accepts, payload, header, rest,
              pos', dst');
  }

  lemma {:induction false} BothEnd(z: Deflate, src: Bytes, i: nat, size: nat, tei: Tei, k: nat, pos: int, dst: Bytes,
                                   accepts: nat -> int)
    requires i <= size <= |src| && (i < size ==> z.compress(BlockOf(src[i..size])) == None)
    ensures CompressFrom(z, src, false, i, size, tei, k, pos, dst, accepts)
         == PlainFrom(z, src[i..size], tei, k, pos, dst, accepts)
  {
    if i < size {
      NextBlockOf(src, i, size);
    }
  }

  lemma {:induction false} PlainIsCompress(z: Deflate, src: Bytes, i: nat, size: nat, tei: Tei, k: nat, pos: int,
                                           dst: Bytes, accepts: nat -> int)
    requires i <= size <= |src|
    ensures CompressFrom(z, src, false, i, size, tei, k, pos, dst, accepts)
         == PlainFrom(z, src[i..size], tei, k, pos, dst, accepts)
    decreases size - i
  {
    var data := src[i..size];
    if i == size || z.compress(BlockOf(data)) == None {
      BothEnd(z, src, i, size, tei, k, pos, dst, accepts);
    } else {
      var i', payload := i + Min(CHUNK, size - i), z.compress(BlockOf(data)).value;
      var header, pos' := Header(|payload|, tei), NextFrame(pos, payload, k, accepts);
      var dst' := FrameOver(dst, pos, header, payload, k, accepts);
      BothStep(z, src, i, size, tei, k, pos, dst, accepts, data, payload, header, i', src[i'..size], pos', dst');
      PlainIsCompress(z, src, i', size, header, k + 1, pos', dst', accepts);
    }
  }

  /** The loop has come to `data`, and what is left to do ends in `all`. */
  ghost predicate PackingTo(all: Zipped, z: Deflate, data: Bytes, tei: Tei, k: nat, pos: int, now: Bytes,
                            accepts: nat -> int) {
    all == PlainFrom(z, data, tei, k, pos, now, accepts)
  }

  lemma {:induction false} PlainStep(all: Zipped, z: Deflate, data: Bytes, tei: Tei, k: nat, pos: int, now: Bytes,
                                     accepts: nat -> int, payload: Bytes, header: Tei, rest: Bytes, pos': int,
                                     now': Bytes)
    requires data != [] && z.compress(BlockOf(data)) == Some(payload)
    requires header == Header(|payload|, tei) && rest == data[|BlockOf(data)|..]
    requires pos' == NextFrame(pos, payload, k, accepts) && now' == FrameOver(now, pos, header, payload, k, accepts)
    requires PackingTo(all, z, data, tei, k, pos, now, accepts)
    ensures PackingTo(all, z, rest, header, k + 1, pos', now', accepts)
  {
  }

  /** Where the loop ends. */
  predicate Ended(z: Deflate, data: Bytes) {
    data == [] || z.compress(BlockOf(data)) == None
  }

  lemma {:induction false} EndedMeaning(z: Deflate, data: Bytes, tei: Tei, k: nat, pos: int, dst: Bytes,
                                        accepts: nat -> int)
    ensures Ended(z, data) <==> Pack(z, data, tei) == []
    ensures Ended(z, data) ==>
              && PlainFrom(z, data, tei, k, pos, dst, accepts) == Zipped(dst, !Compressible(z, data))
              && AllFramed(z, data, k, pos, accepts)
  {
  }

  // ----- sizes -----

  /** At most 1003 bytes are written for every block begun that fits its header. */
  lemma {:induction false} PackedSize(z: Deflate, data: Bytes, tei: Tei)
    requires FitsUntilFailure(z, data)
    ensures |Pack(z, data, tei)| * CHUNK <= 1003 * (|data| + CHUNK - 1)
  {
    if !Ended(z, data) {
      var block := BlockOf(data);
      var payload := z.compress(block).value;
      PackedSize(z, data[|block|..], Header(|payload|, tei));
    }
  }

  lemma PackedFits(z: Deflate, data: Bytes, tei: Tei)
    requires FitsUntilFailure(z, data) && |data| < 0x8000_0000
    ensures |Pack(z, data, tei)| < LARGEST && |Pack(z, data, tei)| < 0x8000_0000
  {
    PackedSize(z, data, tei);
  }

  // ----- complete writes -----

  lemma FrameGoesOn(was: Bytes, done: Bytes, header: Tei, payload: Bytes, k: nat, accepts: nat -> int)
    requires Transferred(|done|, 4, accepts(2 * k)) == 4
    requires Transferred(|done| + 4, |payload|, accepts(2 * k + 1)) == |payload|
    ensures FrameOver(Overwrite(was, 0, done), |done|, header, payload, k, accepts)
         == Overwrite(was, 0, done + header + payload)
    ensures NextFrame(|done|, payload, k, accepts) == Wrap32(|done| + 4 + |payload|)
  {
    WriteGoesOn(was, done, header, accepts(2 * k));
    if payload == [] {
      assert done + header + payload == done + header;
    } else {
      WriteGoesOn(was, done + header, payload, accepts(2 * k + 1));
    }
  }

  lemma {:induction false} PackNext(z: Deflate, done: Bytes, data: Bytes, tei: Tei)
    requires data != [] && z.compress(BlockOf(data)).Some?
    ensures var payload := z.compress(BlockOf(data)).value;
            var header, rest := Header(|payload|, tei), data[|BlockOf(data)|..];
            && done + Pack(z, data, tei) == done + header + payload + Pack(z, rest, header)
            && (Compressible(z, data) <==> Compressible(z, rest))
  {
  }

  lemma NextFramed(z: Deflate, data: Bytes, k: nat, pos: nat, accepts: nat -> int, len: nat, next: nat)
    requires !Ended(z, data) && len == |z.compress(BlockOf(data)).value| && next == pos + 4 + len
    requires pos < 0x8000_0000 && AllFramed(z, data, k, pos, accepts)
    ensures var rest := data[|BlockOf(data)|..];
            && Transferred(pos, 4, accepts(2 * k)) == 4 && Transferred(pos + 4, len, accepts(2 * k + 1)) == len
            && (!Ended(z, rest) ==> Wrap32(next) == next < 0x8000_0000 && AllFramed(z, rest, k + 1, next, accepts))
  {
  }

  /** One pass with complete writes. */
  lemma {:induction false} FramedStep(z: Deflate, data: Bytes, tei: Tei, k: nat, was: Bytes, done: Bytes,
                                      accepts: nat -> int, header: Tei, payload: Bytes, done': Bytes)
    requires !Ended(z, data) && |done| < 0x8000_0000 && AllFramed(z, data, k, |done|, accepts)
    requires z.compress(BlockOf(data)) == Some(payload) && header == Header(|payload|, tei)
    requires done' == done + header + payload
    ensures PlainFrom(z, data, tei, k, |done|, Overwrite(was, 0, done), accepts)
         == PlainFrom(z, data[|BlockOf(data)|..], header, k + 1, Wrap32(|done'|), Overwrite(was, 0, done'), accepts)
    ensures var rest := data[|BlockOf(data)|..];
            !Ended(z, rest) ==>
              Wrap32(|done'|) == |done'| < 0x8000_0000 && AllFramed(z, rest, k + 1, |done'|, accepts)
  {
    var now := Overwrite(was, 0, done);
    NextFramed(z, data, k, |done|, accepts, |payload|, |done'|);
    FrameGoesOn(was, done, header, payload, k, accepts);
    PlainStep(PlainFrom(z, data, tei, k, |done|, now, accepts), z, data, tei, k, |done|, now, accepts, payload, header,
              data[|BlockOf(data)|..], Wrap32(|done'|), Overwrite(was, 0, done'));
  }

  /** What the loop makes of an old file when every write is complete. */
  ghost predicate PacksOver(zip: Zipped, z: Deflate, data: Bytes, tei: Tei, was: Bytes, done: Bytes) {
    zip == Zipped(Overwrite(was, 0, done + Pack(z, data, tei)), !Compressible(z, data))
  }

  lemma {:induction false} PacksOverStep(zip: Zipped, z: Deflate, data: Bytes, tei: Tei, was: Bytes, done: Bytes,
                                         header: Tei, payload: Bytes, done': Bytes)
    requires !Ended(z, data) && z.compress(BlockOf(data)) == Some(payload) && header == Header(|payload|, tei)
    requires done' == done + header + payload && PacksOver(zip, z, data[|BlockOf(data)|..], header, was, done')
    ensures PacksOver(zip, z, data, tei, was, done)
  {
    PackNext(z, done, data, tei);
  }

  lemma {:induction false} PacksOverEnd(z: Deflate, data: Bytes, tei: Tei, k: nat, pos: int, was: Bytes, done: Bytes,
                                        accepts: nat -> int)
    requires Ended(z, data)
    ensures PacksOver(PlainFrom(z, data, tei, k, pos, Overwrite(was, 0, done), accepts), z, data, tei, was, done)
  {
    EndedMeaning(z, data, tei, k, pos, Overwrite(was, 0, done), accepts);
    assert done + Pack(z, data, tei) == done;
  }

  lemma {:induction false} FramedWhole(z: Deflate, data: Bytes, tei: Tei, k: nat, was: Bytes, done: Bytes,
                                       accepts: nat -> int)
    requires |done| < 0x8000_0000 && AllFramed(z, data, k, |done|, accepts)
    ensures PacksOver(PlainFrom(z, data, tei, k, |done|, Overwrite(was, 0, done), accepts), z, data, tei, was, done)
    decreases |data|
  {
    if Ended(z, data) {
      PacksOverEnd(z, data, tei, k, |done|, was, done, accepts);
    } else {
      var payload, rest := z.compress(BlockOf(data)).value, data[|BlockOf(data)|..];
      var header := Header(|payload|, tei);
      var done' := done + header + payload;
      var zip := PlainFrom(z, rest, header, k + 1, Wrap32(|done'|), Overwrite(was, 0, done'), accepts);
      FramedStep(z, data, tei, k, was, done, accepts, header, payload, done');
      if Ended(z, rest) {
        PacksOverEnd(z, rest, header, k + 1, Wrap32(|done'|), was, done', accepts);
      } else {
        FramedWhole(z, rest, header, k + 1, was, done', accepts);
      }
      PacksOverStep(zip, z, data, tei, was, done, header, payload, done');
    }
  }

  /** On a device that takes all, every frame is written that starts below 2^31. */
  lemma {:induction false} FitsIsFramed(z: Deflate, data: Bytes, tei: Tei, k: nat, pos: nat, accepts: nat -> int)
    requires TakesAll(accepts) && pos + |Pack(z, data, tei)| <= 0x8000_0000
    ensures AllFramed(z, data, k, Wrap32(pos), accepts)
    decreases |data|
  {
    if Ended(z, data) {
    } else {
      var payload := z.compress(BlockOf(data)).value;
      var header, rest := Header(|payload|, tei), data[|BlockOf(data)|..];
      PackNext(z, [], data, tei);
      assert |[] + Pack(z, data, tei)| == 4 + |payload| + |Pack(z, rest, header)|;
      WrapSmall(pos);
      FitsIsFramed(z, rest, header, k + 1, pos + 4 + |payload|, accepts);
    }
  }

  // ----- incomplete writes -----

  /** The headers, four bytes each, are always complete. */
  ghost predicate TakesHeaders(accepts: nat -> int) {
    forall k: nat {:trigger accepts(2 * k)} :: accepts(2 * k) >= 4
  }

  lemma FrameEnds(dst: Bytes, pos: int, header: Tei, payload: Bytes, k: nat, accepts: nat -> int, size: nat)
    requires pos <= size && |dst| <= size && accepts(2 * k) >= 4
    ensures var got := Transferred(PayloadPos(pos, k, accepts), |payload|, accepts(2 * k + 1));
            && |FrameOver(dst, pos, header, payload, k, accepts)| <= size + 4 + |payload|
            && (pos < size || got < |payload| ==>
                  |FrameOver(dst, pos, header, payload, k, accepts)| < size + 4 + |payload|)
  {
    var middle := AfterWrite(dst, pos, header, accepts(2 * k));
    WriteEnds(dst, pos, header, accepts(2 * k), size);
    WriteEnds(middle, PayloadPos(pos, k, accepts), payload, accepts(2 * k + 1), size + 4);
  }

  lemma FrameBehind(size: nat, k: nat, pos: int, payload: Bytes, accepts: nat -> int)
    requires Behind(size, k, pos) && k < PASSES && accepts(2 * k) >= 4 && |payload| <= PAGE_SIZE
    ensures Behind(size + 4 + |payload|, k + 1, NextFrame(pos, payload, k, accepts))
  {
    var got := Transferred(PayloadPos(pos, k, accepts), |payload|, accepts(2 * k + 1));
    StaysBehind(size, k, pos, 4 + |payload|, 4 + got);
    assert pos + (4 + got) == pos + 4 + got;
  }

  lemma AllFramedStep(z: Deflate, data: Bytes, k: nat, pos: int, accepts: nat -> int, got: int)
    requires data != [] && z.compress(BlockOf(data)).Some? && accepts(2 * k) >= 4
    requires got == Transferred(PayloadPos(pos, k, accepts), |z.compress(BlockOf(data)).value|, accepts(2 * k + 1))
    ensures AllFramed(z, data, k, pos, accepts)
       <==> && got == |z.compress(BlockOf(data)).value|
            && AllFramed(z, data[|BlockOf(data)|..], k + 1, Wrap32(pos + 4 + got), accepts)
  {
  }

  /** What a pass leaves to be said about the rest. */
  ghost predicate FramesShort(end: nat, size: nat, z: Deflate, data: Bytes, tei: Tei, k: nat, pos: int,
                              accepts: nat -> int) {
    && end <= size + |Pack(z, data, tei)|
    && (Pack(z, data, tei) != [] && (pos < size || !AllFramed(z, data, k, pos, accepts)) ==>
          end < size + |Pack(z, data, tei)|)
  }

  lemma {:induction false} FramesShortStep(end: nat, size: nat, z: Deflate, data: Bytes, tei: Tei, k: nat, pos: int,
                                           accepts: nat -> int, payload: Bytes, got: int, len: nat)
    requires data != [] && z.compress(BlockOf(data)) == Some(payload) && accepts(2 * k) >= 4
    requires got == Transferred(PayloadPos(pos, k, accepts), |payload|, accepts(2 * k + 1))
    requires Behind(size, k, pos) && k < PASSES
    requires FramesShort(end, size + 4 + |payload|, z, data[|BlockOf(data)|..], Header(|payload|, tei), k + 1,
                         Wrap32(pos + 4 + got), accepts)
    requires Pack(z, data[|BlockOf(data)|..], Header(|payload|, tei)) == [] ==> end == len
    requires pos < size || got < |payload| ==> len < size + 4 + |payload|
    ensures FramesShort(end, size, z, data, tei, k, pos, accepts)
  {
    var header, rest := Header(|payload|, tei), data[|BlockOf(data)|..];
    AllFramedStep(z, data, k, pos, accepts, got);
    PackNext(z, [], data, tei);
    assert |Pack(z, data, tei)| == 4 + |payload| + |Pack(z, rest, header)|;
    StaysBehind(size, k, pos, 4 + |payload|, 4 + got);
    if Pack(z, rest, header) == [] {
      assert rest == [] || z.compress(BlockOf(rest)) == None;
    }
  }

  lemma {:induction false} EndsHere(z: Deflate, data: Bytes, tei: Tei, k: nat, pos: int, dst: Bytes,
                                    accepts: nat -> int)
    ensures Pack(z, data, tei) == [] ==> PlainFrom(z, data, tei, k, pos, dst, accepts).content == dst
  {
    EndedMeaning(z, data, tei, k, pos, dst, accepts);
  }

  lemma {:induction false} FallShortStep(z: Deflate, data: Bytes, tei: Tei, k: nat, pos: int, dst: Bytes,
                                         accepts: nat -> int, size: nat, header: Tei, payload: Bytes, rest: Bytes,
                                         pos': int, dst': Bytes, end: nat, size': nat)
    requires !Ended(z, data) && z.compress(BlockOf(data)) == Some(payload) && header == Header(|payload|, tei)
    requires Behind(size, k, pos) && |dst| <= size && k < PASSES && accepts(2 * k) >= 4
    requires pos' == NextFrame(pos, payload, k, accepts) && dst' == FrameOver(dst, pos, header, payload, k, accepts)
    requires rest == data[|BlockOf(data)|..] && size' == size + 4 + |payload|
    requires end == |PlainFrom(z, rest, header, k + 1, pos', dst', accepts).content|
    requires FramesShort(end, size', z, rest, header, k + 1, pos', accepts)
    ensures FramesShort(|PlainFrom(z, data, tei, k, pos, dst, accepts).content|, size, z, data, tei, k, pos, accepts)
  {
    var got := Transferred(PayloadPos(pos, k, accepts), |payload|, accepts(2 * k + 1));
    PlainStep(PlainFrom(z, data, tei, k, pos, dst, accepts), z, data, tei, k, pos, dst, accepts, payload, header,
              data[|BlockOf(data)|..], pos', dst');
    FrameEnds(dst, pos, header, payload, k, accepts, size);
    EndsHere(z, data[|BlockOf(data)|..], header, k + 1, pos', dst', accepts);
    FramesShortStep(end, size, z, data, tei, k, pos, accepts, payload, got, |dst'|);
  }

  /** After a frame the same can be said with more bytes to be written. */
  lemma {:induction false} FrameReady(data: Bytes, k: nat, pos: int, dst: Bytes, accepts: nat -> int, size: nat,
                                      header: Tei, payload: Bytes, rest: Bytes, pos': int, dst': Bytes, size': nat)
    requires Behind(size, k, pos) && |dst| <= size && k + Blocks(|data|) <= PASSES && TakesHeaders(accepts)
    requires data != [] && rest == data[|BlockOf(data)|..] && |payload| <= PAGE_SIZE && size' == size + 4 + |payload|
    requires pos' == NextFrame(pos, payload, k, accepts) && dst' == FrameOver(dst, pos, header, payload, k, accepts)
    ensures Behind(size', k + 1, pos') && |dst'| <= size' && k + 1 + Blocks(|rest|) <= PASSES
    ensures k < PASSES && accepts(2 * k) >= 4
  {
    BlocksStep(|data|);
    assert |rest| == |data| - Min(CHUNK, |data|);
    FrameBehind(size, k, pos, payload, accepts);
    FrameEnds(dst, pos, header, payload, k, accepts, size);
  }

  /** A payload that falls short is never made up for. */
  lemma {:induction false} FramesFallShort(z: Deflate, data: Bytes, tei: Tei, k: nat, pos: int, dst: Bytes,
                                           accepts: nat -> int, size: nat)
    requires Behind(size, k, pos) && |dst| <= size && k + Blocks(|data|) <= PASSES && TakesHeaders(accepts)
    ensures FramesShort(|PlainFrom(z, data, tei, k, pos, dst, accepts).content|, size, z, data, tei, k, pos, accepts)
    decreases |data|
  {
    if Ended(z, data) {
      EndedMeaning(z, data, tei, k, pos, dst, accepts);
    } else {
      var payload, rest := z.compress(BlockOf(data)).value, data[|BlockOf(data)|..];
      var header, pos' := Header(|payload|, tei), NextFrame(pos, payload, k, accepts);
      var dst', size' := FrameOver(dst, pos, header, payload, k, accepts), size + 4 + |payload|;
      FrameReady(data, k, pos, dst, accepts, size, header, payload, rest, pos', dst', size');
      FramesFallShort(z, rest, header, k + 1, pos', dst', accepts, size');
      var end := PlainFrom(z, rest, header, k + 1, pos', dst', accepts).content;
      FallShortStep(z, data, tei, k, pos, dst, accepts, size, header, payload, rest, pos', dst', |end|, size');
    }
  }

  /** Complete writes leave the packed file over whatever there was. */
  lemma {:induction false} FramedOver(z: Deflate, data: Bytes, tei: Tei, was: Bytes, accepts: nat -> int)
    requires AllFramed(z, data, 0, 0, accepts)
    ensures CompressFrom(z, data, false, 0, |data|, tei, 0, 0, was, accepts)
         == Zipped(Overwrite(was, 0, Pack(z, data, tei)), !Compressible(z, data))
  {
    assert data[0..|data|] == data;
    PlainIsCompress(z, data, 0, |data|, tei, 0, 0, was, accepts);
    PlainOver(z, data, tei, was, accepts);
  }

  lemma {:induction false} PlainOver(z: Deflate, data: Bytes, tei: Tei, was: Bytes, accepts: nat -> int)
    requires AllFramed(z, data, 0, 0, accepts)
    ensures PlainFrom(z, data, tei, 0, 0, was, accepts)
         == Zipped(Overwrite(was, 0, Pack(z, data, tei)), !Compressible(z, data))
  {
    assert Overwrite(was, 0, []) == was && [] + Pack(z, data, tei) == Pack(z, data, tei);
    FramedWhole(z, data, tei, 0, was, [], accepts);
  }

  /** Into a fresh file, with complete headers, the loop writes the packed file if and only if
      every payload is complete too; otherwise what it leaves is shorter. */
  lemma {:induction false} FramesIntactIff(z: Deflate, data: Bytes, tei: Tei, accepts: nat -> int)
    requires |data| < 0x8000_0000 && TakesHeaders(accepts)
    ensures var end := CompressFrom(z, data, false, 0, |data|, tei, 0, 0, [], accepts).content;
            && (end == Pack(z, data, tei) <==> AllFramed(z, data, 0, 0, accepts))
            && (!AllFramed(z, data, 0, 0, accepts) ==> |end| < |Pack(z, data, tei)|)
  {
    if AllFramed(z, data, 0, 0, accepts) {
      FramedOver(z, data, tei, [], accepts);
      OverwriteStart([], Pack(z, data, tei));
      assert Pack(z, data, tei) + [] == Pack(z, data, tei);
    } else {
      BlocksFit(|data|);
      assert data[0..|data|] == data;
      PlainIsCompress(z, data, 0, |data|, tei, 0, 0, [], accepts);
      FramesFallShort(z, data, tei, 0, 0, [], accepts, 0);
      EndedMeaning(z, data, tei, 0, 0, [], accepts);
    }
  }

  // ----- a header cut short that goes unnoticed -----

  function Ones(): (r: Bytes)
    ensures |r| == CHUNK
  {
    seq(CHUNK, _ => 1)
  }

  function ZipRun(x: Bytes): Option<Bytes> {
    if x == Ones() then Some([0, 0]) else if |x| < PAGE_SIZE then Some([1] + x) else None
  }

  function UnzipRun(y: Bytes): Option<Bytes> {
    if y == [0, 0] then Some(Ones()) else if 0 < |y| <= PAGE_SIZE && y[0] == 1 then Some(y[1..]) else None
  }

  function RawRuns(): RawDeflate {
    RawDeflate(x => ZipRun(x), y => UnzipRun(y))
  }

  lemma ZipRunInverts(x: Bytes)
    ensures ZipRun(x).Some? ==> |ZipRun(x).value| <= PAGE_SIZE && UnzipRun(ZipRun(x).value) == Some(x)
  {
    if x != Ones() && |x| < PAGE_SIZE {
      assert ([1] + x)[0] == 1 && ([1] + x)[1..] == x;
    }
  }

  lemma RunsInvert()
    ensures RawRuns().Inverts()
  {
    forall x: Bytes
      ensures ZipRun(x).Some? ==> |ZipRun(x).value| <= PAGE_SIZE && UnzipRun(ZipRun(x).value) == Some(x)
    {
      ZipRunInverts(x);
    }
  }

  /** A compressor that makes two zeros of a full block of ones. */
  function Runs(): Deflate {
    RunsInvert();
    RawRuns()
  }

  /** The device takes two bytes of the first header, and everything else. */
  function LosesTwo(k: nat): int {
    if k == 0 then 2 else PAGE_SIZE
  }

  const HEADER: Tei := [50, 0, 0, 0]  // "2"

  lemma ShortHeader()
    ensures Header(2, [0, 0, 0, 0]) == Header(2, HEADER) == HEADER
  {
    assert Decimal(2) == [50];
  }

  /** The payload takes the place of the missing bytes. */
  lemma ShortFrame()
    ensures FrameOver([], 0, HEADER, [0, 0], 0, LosesTwo) == HEADER && NextFrame(0, [0, 0], 0, LosesTwo) == 6
  {
    assert HEADER[..2] == [50, 0];
    assert Overwrite([], 0, [50, 0]) == [50, 0];
    assert Overwrite([50, 0], 2, [0, 0]) == HEADER;
  }

  /** The gap behind it takes the place of the payload. */
  lemma FrameAfterGap()
    ensures FrameOver(HEADER, 6, HEADER, [1, 7], 1, LosesTwo) == HEADER + [0, 0] + HEADER + [1, 7]
  {
    FrameAtGap(HEADER + [0, 0] + HEADER);
    assert HEADER[..4] == HEADER && [1, 7][..2] == [1, 7];
    assert Overwrite(HEADER, 6, HEADER) == HEADER + [0, 0] + HEADER;
  }

  lemma FrameAtGap(once: Bytes)
    requires |once| == 10
    ensures Overwrite(once, 10, [1, 7]) == once + [1, 7]
  {
  }

  lemma {:induction false} RunsPacked(tei: Tei)
    requires tei == [0, 0, 0, 0]
    ensures var data := Ones() + [7];
            && data[|BlockOf(data)|..] == [7] && Runs().compress(BlockOf(data)) == Some([0, 0])
            && BlockOf([7]) == [7] && Runs().compress([7]) == Some([1, 7])
            && Pack(Runs(), data, tei) == HEADER + [0, 0] + (HEADER + [1, 7])
  {
    var data := Ones() + [7];
    ShortHeader();
    assert BlockOf(data) == Ones() && BlockOf([7]) == [7] && [7][1..] == [];
    assert |[7]| != |Ones()| && [1] + [7] == [1, 7];
    assert Pack(Runs(), [7], HEADER) == HEADER + [1, 7] + [] == HEADER + [1, 7];
  }

  lemma {:induction false} LastRun(k: nat, pos: int, dst: Bytes)
    ensures PlainFrom(Runs(), [7], HEADER, k, pos, dst, LosesTwo)
         == Zipped(FrameOver(dst, pos, HEADER, [1, 7], k, LosesTwo), false)
  {
    RunsPacked([0, 0, 0, 0]);
    ShortHeader();
    var dst' := FrameOver(dst, pos, HEADER, [1, 7], k, LosesTwo);
    PlainStep(PlainFrom(Runs(), [7], HEADER, k, pos, dst, LosesTwo), Runs(), [7], HEADER, k, pos, dst, LosesTwo, [1, 7],
              HEADER, [], NextFrame(pos, [1, 7], k, LosesTwo), dst');
  }

  /** So complete headers have to be supposed above: without them the packed file can be there
      although a write was not complete. */
  lemma {:induction false} ShortHeaderUnnoticed()
    ensures var data, tei := Ones() + [7], [0, 0, 0, 0];
            && PlainFrom(Runs(), data, tei, 0, 0, [], LosesTwo).content == Pack(Runs(), data, tei)
            && !AllFramed(Runs(), data, 0, 0, LosesTwo)
  {
    var data, tei := Ones() + [7], [0, 0, 0, 0];
    RunsPacked(tei);
    ShortHeader();
    ShortFrame();
    FrameAfterGap();
    PlainStep(PlainFrom(Runs(), data, tei, 0, 0, [], LosesTwo), Runs(), data, tei, 0, 0, [], LosesTwo, [0, 0], HEADER,
              [7], 6, HEADER);
    LastRun(1, 6, HEADER);
    assert HEADER + [0, 0] + HEADER + [1, 7] == HEADER + [0, 0] + (HEADER + [1, 7]);
  }

  // ----- what does not depend on the writes, and writes that do nothing -----

  /** Whether compressing fails depends on the data only. */
  lemma {:induction false} FailsIffIncompressible(z: Deflate, data: Bytes, tei: Tei, was: Bytes, accepts: nat -> int)
    ensures CompressFrom(z, data, false, 0, |data|, tei, 0, 0, was, accepts).failed <==> !Compressible(z, data)
  {
    assert data[0..|data|] == data;
    PlainIsCompress(z, data, 0, |data|, tei, 0, 0, was, accepts);
    PlainFails(z, data, tei, 0, 0, was, accepts);
  }

  lemma {:induction false} PlainFails(z: Deflate, data: Bytes, tei: Tei, k: nat, pos: int, dst: Bytes,
                                      accepts: nat -> int)
    ensures PlainFrom(z, data, tei, k, pos, dst, accepts).failed <==> !Compressible(z, data)
    decreases |data|
  {
    if Ended(z, data) {
      EndedMeaning(z, data, tei, k, pos, dst, accepts);
    } else {
      var payload := z.compress(BlockOf(data)).value;
      var header := Header(|payload|, tei);
      PlainFails(z, data[|BlockOf(data)|..], header, k + 1, NextFrame(pos, payload, k, accepts),
                 FrameOver(dst, pos, header, payload, k, accepts), accepts);
    }
  }

  /** A device that takes nothing leaves the target as it was. */
  lemma {:induction false} NothingPacked(z: Deflate, data: Bytes, tei: Tei, k: nat, pos: int, dst: Bytes,
                                         accepts: nat -> int)
    requires NothingFrom(2 * k, 2 * (k + Blocks(|data|)), accepts)
    ensures PlainFrom(z, data, tei, k, pos, dst, accepts).content == dst
    decreases |data|
  {
    if Ended(z, data) {
      EndedMeaning(z, data, tei, k, pos, dst, accepts);
    } else {
      var payload, rest := z.compress(BlockOf(data)).value, data[|BlockOf(data)|..];
      var header, pos' := Header(|payload|, tei), NextFrame(pos, payload, k, accepts);
      BlocksStep(|data|);
      PlainStep(PlainFrom(z, data, tei, k, pos, dst, accepts), z, data, tei, k, pos, dst, accepts, payload, header,
                rest, pos', dst);
      NothingPacked(z, rest, header, k + 1, pos', dst, accepts);
    }
  }

  // ----- decompressing -----

  lemma FrameLength(stored: Bytes)
    ensures FirstFrame(stored).Some? ==>
              |stored| == 4 + |FirstFrame(stored).value.0| + |FirstFrame(stored).value.1|
  {
  }

  lemma BlockGoesOn(was: Bytes, done: Bytes, block: Bytes, accepts: int)
    requires |block| <= accepts
    ensures AfterWrite(Overwrite(was, 0, done), |done|, block, accepts) == Overwrite(was, 0, done + block)
    ensures Transferred(|done|, |block|, accepts) == |block|
  {
    if block == [] {
      assert done + block == done;
    } else {
      WriteGoesOn(was, done, block, accepts);
    }
  }

  lemma {:induction false} UnpackOne(z: Deflate, stored: Bytes, payload: Bytes, rest: Bytes, block: Bytes)
    requires stored != [] && FirstFrame(stored) == Some((payload, rest)) && z.decompress(payload) == Some(block)
    ensures Unpack(z, stored) == After(block, Unpack(z, rest))
  {
  }

  lemma {:induction false} DecompressStep(z: Deflate, stored: Bytes, k: nat, pos: int, dst: Bytes, accepts: nat -> int,
                                          payload: Bytes, rest: Bytes, block: Bytes, pos': int, dst': Bytes)
    requires stored != [] && FirstFrame(stored) == Some((payload, rest)) && z.decompress(payload) == Some(block)
    requires pos' == Wrap32(pos + Transferred(pos, |block|, accepts(k)))
    requires dst' == AfterWrite(dst, pos, block, accepts(k))
    ensures DecompressFrom(z, stored, |stored|, k, pos, dst, accepts)
         == DecompressFrom(z, rest, |rest|, k + 1, pos', dst', accepts)
    ensures Unpack(z, stored) == After(block, Unpack(z, rest))
  {
    FrameLength(stored);
    DecompressOne(z, stored, |stored|, k, pos, dst, accepts, payload, rest, block, |rest|, pos', dst');
    UnpackOne(z, stored, payload, rest, block);
  }

  lemma {:induction false} BadUnpack(z: Deflate, stored: Bytes, k: nat, pos: int, dst: Bytes, accepts: nat -> int)
    requires stored != [] && (FirstFrame(stored).Some? ==> z.decompress(FirstFrame(stored).value.0) == None)
    ensures DecompressFrom(z, stored, |stored|, k, pos, dst, accepts).failed && Unpack(z, stored) == None
  {
  }

  /** Decompressing a stored file whose size fits an `int` fails exactly if it does not
      unpack, whatever the device does. */
  lemma {:induction false} UnpackFails(z: Deflate, stored: Bytes, k: nat, pos: int, dst: Bytes, accepts: nat -> int)
    ensures DecompressFrom(z, stored, |stored|, k, pos, dst, accepts).failed <==> Unpack(z, stored) == None
    decreases |stored|
  {
    if stored == [] {
    } else if FirstFrame(stored).Some? && z.decompress(FirstFrame(stored).value.0).Some? {
      var (payload, rest) := FirstFrame(stored).value;
      var block := z.decompress(payload).value;
      var pos' := Wrap32(pos + Transferred(pos, |block|, accepts(k)));
      var dst' := AfterWrite(dst, pos, block, accepts(k));
      DecompressStep(z, stored, k, pos, dst, accepts, payload, rest, block, pos', dst');
      UnpackFails(z, rest, k + 1, pos', dst', accepts);
    } else {
      BadUnpack(z, stored, k, pos, dst, accepts);
    }
  }

  lemma {:induction false} UnpackSome(z: Deflate, stored: Bytes)
    requires stored != [] && Unpack(z, stored).Some?
    ensures FirstFrame(stored).Some? && z.decompress(FirstFrame(stored).value.0).Some?
  {
  }

  ghost predicate UnpacksOver(end: Bytes, z: Deflate, stored: Bytes, was: Bytes, done: Bytes) {
    Unpack(z, stored).Some? && end == Overwrite(was, 0, done + Unpack(z, stored).value)
  }

  /** One pass with a complete write. */
  lemma {:induction false} UnpacksOverStep(end: Bytes, z: Deflate, stored: Bytes, was: Bytes, done: Bytes,
                                           payload: Bytes, rest: Bytes, block: Bytes)
    requires stored != [] && FirstFrame(stored) == Some((payload, rest)) && z.decompress(payload) == Some(block)
    requires UnpacksOver(end, z, rest, was, done + block)
    ensures UnpacksOver(end, z, stored, was, done)
  {
    UnpackOne(z, stored, payload, rest, block);
    var blocks := Unpack(z, rest).value;
    assert done + block + blocks == done + (block + blocks);
  }

  lemma {:induction false} BlockWritten(z: Deflate, stored: Bytes, k: nat, was: Bytes, done: Bytes, accepts: nat -> int,
                                        payload: Bytes, rest: Bytes, block: Bytes, done': Bytes)
    requires accepts(k) >= PAGE_SIZE && done' == done + block && |done'| < 0x8000_0000
    requires stored != [] && FirstFrame(stored) == Some((payload, rest)) && z.decompress(payload) == Some(block)
    ensures DecompressFrom(z, stored, |stored|, k, |done|, Overwrite(was, 0, done), accepts)
         == DecompressFrom(z, rest, |rest|, k + 1, |done'|, Overwrite(was, 0, done'), accepts)
  {
    BlockGoesOn(was, done, block, accepts(k));
    WrapSmall(|done'|);
    DecompressStep(z, stored, k, |done|, Overwrite(was, 0, done), accepts, payload, rest, block, |done'|,
                   Overwrite(was, 0, done'));
  }

  /** From pass `k` on the device takes whatever it is given. */
  ghost predicate TakesFrom(k: nat, accepts: nat -> int) {
    forall j: nat :: k <= j ==> accepts(j) >= PAGE_SIZE
  }

  /** On a device that takes all, the target then holds what the stored file unpacks to. */
  lemma {:induction false} UnpackedWhole(z: Deflate, stored: Bytes, k: nat, was: Bytes, done: Bytes,
                                         accepts: nat -> int)
    requires TakesFrom(k, accepts) && Unpack(z, stored).Some? && |done| + |Unpack(z, stored).value| < 0x8000_0000
    ensures UnpacksOver(DecompressFrom(z, stored, |stored|, k, |done|, Overwrite(was, 0, done), accepts).content,
                        z, stored, was, done)
    decreases |stored|
  {
    if stored == [] {
      assert done + [] == done;
    } else {
      UnpackSome(z, stored);
      var (payload, rest) := FirstFrame(stored).value;
      var block := z.decompress(payload).value;
      var done' := done + block;
      UnpackOne(z, stored, payload, rest, block);
      BlockWritten(z, stored, k, was, done, accepts, payload, rest, block, done');
      UnpackedWhole(z, rest, k + 1, was, done', accepts);
      UnpacksOverStep(DecompressFrom(z, rest, |rest|, k + 1, |done'|, Overwrite(was, 0, done'), accepts).content,
                      z, stored, was, done, payload, rest, block);
    }
  }
}
