/** Compressing a file block by block (compress_file, decompress_file): every block of 4080
    bytes becomes a 4-byte header, its compressed length as a decimal string, and the
    compressed bytes. */
module Framing {
  import opened Bytes
  import opened Storage
  import Numerals
  import opened Encryption  // CHUNK is common to both formats

  /** The compressor, with one page for its output in either direction. */
  datatype RawDeflate = RawDeflate(compress: Bytes -> Option<Bytes>, decompress: Bytes -> Option<Bytes>)
  {
    ghost predicate Inverts() {
      && (forall x: Bytes {:trigger compress(x)} :: compress(x).Some? ==>
            |compress(x).value| <= PAGE_SIZE && decompress(compress(x).value) == Some(x))
      && (forall y: Bytes {:trigger decompress(y)} :: decompress(y).Some? ==> |decompress(y).value| <= PAGE_SIZE)
    }
  }

  type Deflate = z: RawDeflate | z.Inverts() witness RawDeflate(x => None, y => None)

  // ----- the header -----

  function ByteDigit(d: nat): byte {
    if d <= 9 then 48 + d else 48  // '0'
  }

  function ByteValue(b: byte): Option<nat> {
    if 48 <= b <= 57 then Some(b - 48) else None
  }

  function Decimal(n: nat): (r: Bytes)
    ensures |r| >= 1
  {
    Numerals.Decimal(n, ByteDigit)
  }

  type Tei = b: Bytes | |b| == 4 witness [0, 0, 0, 0]

  /** snprintf(tei, 4, "%d", n): at most three digits and a NUL, the rest of `tei` stays. */
  function Header(n: nat, tei: Tei): (r: Tei) {
    var k := Min(3, |Decimal(n)|);
    Decimal(n)[..k] + [0] + tei[k + 1..]
  }

  /** kstrtoint on the four bytes read, for the strings that `Header` makes. */
  function ParseHeader(h: Tei): Option<nat> {
    var k := Numerals.FirstOf(h, 0);
    if 1 <= k <= 3 then Numerals.DecimalValue(h, k, ByteValue) else None
  }

  /** What three digits leave of a number. */
  function Top(n: nat): (r: nat)
    ensures r <= 999 && r <= n && (r == n <==> n <= 999)
  {
    if n <= 999 then n else Top(n / 10)
  }

  lemma DecimalLength(n: nat)
    ensures |Decimal(n)| <= 3 <==> n <= 999
    ensures n > 999 ==> |Decimal(n / 10)| >= 3
  {
    Numerals.DecimalLength(n, ByteDigit);
    Numerals.DecimalLength(n / 10, ByteDigit);
    Numerals.DecimalLength(n / 10 / 10, ByteDigit);
    Numerals.DecimalLength(n / 10 / 10 / 10, ByteDigit);
  }

  lemma {:induction false} DecimalTop(n: nat)
    ensures Decimal(n)[..Min(3, |Decimal(n)|)] == Decimal(Top(n))
  {
    DecimalLength(n);
    if n > 999 {
      DecimalTop(n / 10);
      assert Decimal(n)[..3] == Decimal(n / 10)[..3];
    }
  }

  /** The header byte by byte, for the lengths it can hold; `tei` shows behind the NUL. */
  lemma HeaderDigits(n: nat, tei: Tei)
    ensures n < 10 ==> Header(n, tei) == [48 + n, 0, tei[2], tei[3]]
    ensures 10 <= n < 100 ==> Header(n, tei) == [48 + n / 10, 48 + n % 10, 0, tei[3]]
    ensures 100 <= n < 1000 ==> Header(n, tei) == [48 + n / 100, 48 + n / 10 % 10, 48 + n % 10, 0]
  {
    if n < 10 {
      assert Decimal(n) == [48 + n];
    } else if n < 100 {
      assert Decimal(n) == Decimal(n / 10) + [48 + n % 10] == [48 + n / 10, 48 + n % 10];
    } else if n < 1000 {
      assert n / 10 / 10 == n / 100;
      assert Decimal(n / 10) == Decimal(n / 100) + [48 + n / 10 % 10] == [48 + n / 100, 48 + n / 10 % 10];
      assert Decimal(n) == Decimal(n / 10) + [48 + n % 10];
      assert Decimal(n) == [48 + n / 100, 48 + n / 10 % 10, 48 + n % 10];
    }
  }

  lemma HeaderCut(n: nat, tei: Tei)
    ensures var digits := Decimal(Top(n));
            && 1 <= |digits| <= 3 && 0 !in digits
            && Header(n, tei) == digits + [0] + tei[|digits| + 1..]
  {
    DecimalTop(n);
    DecimalLength(Top(n));
    Numerals.NotADigit<byte>(Top(n), ByteDigit, 0);
    assert |Decimal(Top(n))| == Min(3, |Decimal(n)|);
  }

  lemma ByteRoundTrip(n: nat, s: Bytes)
    requires Decimal(n) <= s
    ensures Numerals.DecimalValue(s, |Decimal(n)|, ByteValue) == Some(n)
  {
    forall d: nat | d <= 9 ensures ByteValue(ByteDigit(d)) == Some(d) {
    }
    Numerals.DecimalRoundTrip(n, ByteDigit, ByteValue, s);
  }

  /** A header reads back as the first three digits: as the length exactly up to 999. */
  lemma HeaderExact(n: nat, tei: Tei)
    ensures ParseHeader(Header(n, tei)) == Some(Top(n))
    ensures ParseHeader(Header(n, tei)) == Some(n) <==> n <= 999
  {
    var digits := Decimal(Top(n));
    HeaderCut(n, tei);
    Numerals.CutAtMark(digits, 0, tei[|digits| + 1..]);
    ByteRoundTrip(Top(n), Header(n, tei));
  }

  // ----- frames -----

  /** The payload of the first frame and what follows it. */
  function FirstFrame(stored: Bytes): (r: Option<(Bytes, Bytes)>)
    ensures r.Some? ==> |r.value.1| < |stored| && |r.value.0| <= PAGE_SIZE
  {
    if |stored| < 4 then None
    else
      match ParseHeader(stored[..4])
      case None => None
      case Some(m) =>
        if m <= PAGE_SIZE && 4 + m <= |stored| then Some((stored[4..4 + m], stored[4 + m..])) else None
  }

  lemma FrameCut(header: Tei, m: nat, payload: Bytes, rest: Bytes)
    requires ParseHeader(header) == Some(m) && m <= PAGE_SIZE && m <= |payload|
    ensures FirstFrame(header + payload + rest) == Some((payload[..m], payload[m..] + rest))
  {
    var stored := header + payload + rest;
    assert stored[..4] == header;
    assert stored[4..4 + m] == payload[..m];
    assert stored[4 + m..] == payload[m..] + rest;
  }

  /** A frame reads back exactly if its payload has at most 999 bytes; of a longer one the
      reader takes a proper prefix. */
  lemma {:induction false} FrameExact(payload: Bytes, rest: Bytes, tei: Tei)
    ensures var frame := FirstFrame(Header(|payload|, tei) + payload + rest);
            && frame.Some? && frame.value.0 == payload[..Top(|payload|)]
            && (frame.value.0 == payload <==> |payload| <= 999)
            && (|payload| <= 999 ==> frame.value.1 == rest)
  {
    var m := Top(|payload|);
    HeaderExact(|payload|, tei);
    FrameCut(Header(|payload|, tei), m, payload, rest);
    assert |payload[..m]| == m;
    if m == |payload| {
      assert payload[..m] == payload && payload[m..] + rest == rest;
    }
  }

  // ----- files -----

  function BlockOf(data: Bytes): (r: Bytes)
    requires data != []
    ensures 1 <= |r| <= CHUNK && |r| <= |data|
  {
    data[..Min(CHUNK, |data|)]
  }

  /** What compress_file writes: it stops at a block that cannot be compressed.  `tei` is
      what the header buffer holds beforehand. */
  function Pack(z: Deflate, data: Bytes, tei: Tei): Bytes {
    if data == [] then []
    else
      var block := BlockOf(data);
      match z.compress(block)
      case None => []
      case Some(payload) =>
        var header := Header(|payload|, tei);
        header + payload + Pack(z, data[|block|..], header)
  }

  ghost predicate Compressible(z: Deflate, data: Bytes) {
    data != [] ==> z.compress(BlockOf(data)).Some? && Compressible(z, data[|BlockOf(data)|..])
  }

  /** Every block compresses to at most 999 bytes. */
  ghost predicate Fits(z: Deflate, data: Bytes) {
    data != [] ==>
      && z.compress(BlockOf(data)).Some? && |z.compress(BlockOf(data)).value| <= 999
      && Fits(z, data[|BlockOf(data)|..])
  }

  /** Every block up to the first that cannot be compressed has at most 999 bytes. */
  ghost predicate FitsUntilFailure(z: Deflate, data: Bytes) {
    data != [] && z.compress(BlockOf(data)).Some? ==>
      |z.compress(BlockOf(data)).value| <= 999 && FitsUntilFailure(z, data[|BlockOf(data)|..])
  }

  /** The data before the first block that cannot be compressed. */
  function Front(z: Deflate, data: Bytes): (r: Bytes)
    ensures r <= data && (r == data <==> Compressible(z, data))
  {
    if data == [] || z.compress(BlockOf(data)) == None then []
    else
      var block := BlockOf(data);
      var more := Front(z, data[|block|..]);
      assert block + data[|block|..] == data;
      AfterBlock(block, more, data[|block|..]);
      block + more
  }

  lemma {:induction false} FitsIff(z: Deflate, data: Bytes)
    ensures Fits(z, data) <==> FitsUntilFailure(z, data) && Compressible(z, data)
  {
    if data != [] && z.compress(BlockOf(data)).Some? {
      FitsIff(z, data[|BlockOf(data)|..]);
    }
  }

  function Unpack(z: Deflate, stored: Bytes): Option<Bytes>
    decreases |stored|
  {
    if stored == [] then Some([])
    else
      match FirstFrame(stored)
      case None => None
      case Some((payload, rest)) =>
        match (z.decompress(payload), Unpack(z, rest))
        case (Some(block), Some(blocks)) => Some(block + blocks)
        case _ => None
  }

  lemma {:induction false} FrameThen(z: Deflate, block: Bytes, payload: Bytes, following: Bytes, tei: Tei)
    requires z.compress(block) == Some(payload) && |payload| <= 999
    ensures Unpack(z, Header(|payload|, tei) + payload + following) == After(block, Unpack(z, following))
  {
    FrameExact(payload, following, tei);
  }

  lemma PackFirst(z: Deflate, data: Bytes, tei: Tei, tail: Bytes)
    requires data != [] && z.compress(BlockOf(data)).Some?
    ensures var block, payload := BlockOf(data), z.compress(BlockOf(data)).value;
            && Pack(z, data, tei) + tail
               == Header(|payload|, tei) + payload + (Pack(z, data[|block|..], Header(|payload|, tei)) + tail)
            && block + data[|block|..] == data
  {
  }

  /** Whatever follows what was packed is unpacked after it: if a block could not be
      compressed, after the data before that. */
  lemma {:induction false} FrontThenTail(z: Deflate, data: Bytes, tei: Tei, tail: Bytes)
    requires FitsUntilFailure(z, data)
    ensures Unpack(z, Pack(z, data, tei) + tail) == After(Front(z, data), Unpack(z, tail))
  {
    if data == [] || z.compress(BlockOf(data)) == None {
      assert Pack(z, data, tei) + tail == tail;
      assert Unpack(z, tail).Some? ==> [] + Unpack(z, tail).value == Unpack(z, tail).value;
    } else {
      var block := BlockOf(data);
      var payload, rest := z.compress(block).value, data[|block|..];
      var header := Header(|payload|, tei);
      FrontThenTail(z, rest, header, tail);
      FrameThen(z, block, payload, Pack(z, rest, header) + tail, tei);
      PackFirst(z, data, tei, tail);
      AfterAfter(block, Front(z, rest), Unpack(z, tail));
    }
  }

  /** Whatever follows a packed file is unpacked after it. */
  lemma PackThenTail(z: Deflate, data: Bytes, tei: Tei, tail: Bytes)
    requires Fits(z, data)
    ensures Compressible(z, data)
    ensures Unpack(z, Pack(z, data, tei) + tail) == After(data, Unpack(z, tail))
  {
    FitsIff(z, data);
    FrontThenTail(z, data, tei, tail);
  }

  /** The decompressor inverts the compressor, for any number of blocks. */
  lemma PackRoundTrip(z: Deflate, data: Bytes, tei: Tei)
    requires Fits(z, data)
    ensures Compressible(z, data)
    ensures Unpack(z, Pack(z, data, tei)) == Some(data)
  {
    PackThenTail(z, data, tei, []);
    assert Pack(z, data, tei) + [] == Pack(z, data, tei) && data + [] == data;
  }

  /** The part of a compressed block that the header of a long one counts, a tenth or less,
      does not decompress: a deflate stream ends with a marked block (section 3.2.3 of RFC
      1951). */
  ghost predicate Marked(z: Deflate) {
    forall x: Bytes {:trigger z.compress(x)} ::
      z.compress(x).Some? && |z.compress(x).value| > 999 ==>
        z.decompress(z.compress(x).value[..Top(|z.compress(x).value|)]) == None
  }

  lemma LongFrameFails(z: Deflate, block: Bytes, payload: Bytes, following: Bytes, tei: Tei)
    requires Marked(z) && z.compress(block) == Some(payload) && |payload| > 999
    ensures Unpack(z, Header(|payload|, tei) + payload + following) == None
  {
    FrameExact(payload, following, tei);
    assert z.decompress(z.compress(block).value[..Top(|payload|)]) == None;
  }

  /** A file that could be compressed comes back if and only if every block fits; otherwise
      nothing does. */
  lemma {:induction false} RoundTripIffFits(z: Deflate, data: Bytes, tei: Tei)
    requires Marked(z) && Compressible(z, data)
    ensures Unpack(z, Pack(z, data, tei)) == if Fits(z, data) then Some(data) else None
  {
    if data == [] {
    } else {
      var block := BlockOf(data);
      var payload, rest := z.compress(block).value, data[|block|..];
      var header := Header(|payload|, tei);
      var following := Pack(z, rest, header);
      PackFirst(z, data, tei, []);
      assert Pack(z, data, tei) + [] == Pack(z, data, tei) && following + [] == following;
      if |payload| > 999 {
        LongFrameFails(z, block, payload, following, tei);
      } else {
        FrameThen(z, block, payload, following, tei);
        RoundTripIffFits(z, rest, header);
        AfterCancels(block, rest, Unpack(z, following));
      }
    }
  }

  /** Compressed over an older file, a file comes back exactly if what is left of the old
      one unpacks to nothing. */
  lemma StalePackExact(z: Deflate, data: Bytes, tei: Tei, was: Bytes)
    requires Fits(z, data)
    ensures Unpack(z, Overwrite(was, 0, Pack(z, data, tei))) == Some(data)
            <==> Unpack(z, Stale(was, |Pack(z, data, tei)|)) == Some([])
  {
    var tail := Stale(was, |Pack(z, data, tei)|);
    OverwriteStart(was, Pack(z, data, tei));
    PackThenTail(z, data, tei, tail);
    assert data + [] == data;
    if Unpack(z, tail).Some? && Unpack(z, tail).value != [] {
      assert |data + Unpack(z, tail).value| > |data|;
    }
  }

  lemma AfterBlock(block: Bytes, blocks: Bytes, rest: Bytes)
    requires blocks <= rest
    ensures block + blocks <= block + rest && (block + blocks == block + rest <==> blocks == rest)
  {
    assert (block + blocks)[|block|..] == blocks && (block + rest)[|block|..] == rest;
  }

  /** What compress_file leaves after a failure unpacks to a proper part of the file: so to
      unlink the source all the same, as the unrepaired code does, loses data exactly then. */
  lemma FailureLosesIff(z: Deflate, data: Bytes, tei: Tei)
    requires FitsUntilFailure(z, data)
    ensures Unpack(z, Pack(z, data, tei)) == Some(Front(z, data)) && Front(z, data) <= data
    ensures Front(z, data) == data <==> Compressible(z, data)
  {
    FrontThenTail(z, data, tei, []);
    assert Pack(z, data, tei) + [] == Pack(z, data, tei) && Front(z, data) + [] == Front(z, data);
  }

  /** A compressor that stores: with it a block of 1000 bytes does not come back. */
  const STORING: Deflate := RawDeflate(x => if |x| <= PAGE_SIZE then Some(x) else None,
                                       y => if |y| <= PAGE_SIZE then Some(y) else None)

  lemma NoNul(h: Tei)
    requires 0 !in h
    ensures ParseHeader(h) == None
  {
    Numerals.NotFound<byte>(h, 0);
  }

  lemma LongBlockBreaks(tei: Tei)
    ensures var data := seq(1000, _ => 65 as byte);
            Compressible(STORING, data) && Unpack(STORING, Pack(STORING, data, tei)) == None
  {
    var data := seq(1000, _ => 65 as byte);
    var header := Header(1000, tei);
    assert BlockOf(data) == data && STORING.compress(data) == Some(data);
    var rest := Pack(STORING, data[1000..], header);
    assert data[1000..] == [] && rest == [];
    HeaderExact(1000, tei);
    assert Top(1000) == 100;
    FrameCut(header, 100, data, rest);
    var left := data[100..] + rest;
    assert left[..4] == [65, 65, 65, 65];
    NoNul([65, 65, 65, 65]);
    assert FirstFrame(left) == None;
  }

  /** An older, longer file leaves a tail: with it a file of one byte does not come back. */
  lemma StaleTailBreaks(tei: Tei)
    ensures var data, was := [65 as byte], seq(100, _ => 0 as byte);
            Fits(STORING, data) && Unpack(STORING, Overwrite(was, 0, Pack(STORING, data, tei))) == None
  {
    var data, was := [65 as byte], seq(100, _ => 0 as byte);
    assert BlockOf(data) == data && STORING.compress(data) == Some(data) && data[1..] == [];
    var packed := Pack(STORING, data, tei);
    assert packed == Header(1, tei) + data + Pack(STORING, [], Header(1, tei));
    var tail := Stale(was, |packed|);
    assert |packed| == 5 && tail[..4] == [0, 0, 0, 0] && Numerals.FirstOf(tail[..4], 0) == 0;
    assert Unpack(STORING, tail) == None;
    OverwriteStart(was, packed);
    PackThenTail(STORING, data, tei, tail);
  }
}
