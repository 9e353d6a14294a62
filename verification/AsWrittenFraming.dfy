/** The framing as the unrepaired code has it.  The writer writes `sizeof(buff4)` = 8 bytes
    per block whatever the compressed length, and advances by 8 although it wrote 12; the
    reader advances by the payload only and counts 4080 bytes of its input per pass. */
module AsWrittenFraming {
  import opened Bytes
  import opened Storage
  import opened Encryption
  import opened Framing

  type Page = b: Bytes | |b| == PAGE_SIZE witness seq(PAGE_SIZE, _ => 0)

  const SIZEOF_BUFF4: nat := 8  // sizeof(char *)

  /** Data at the start of a buffer that held `junk`. */
  function InBuffer(data: Bytes, junk: Page): (r: Bytes)
    requires |data| <= PAGE_SIZE
    ensures |r| == PAGE_SIZE && r[..|data|] == data
  {
    data + junk[|data|..]
  }

  lemma InBufferCut(data: Bytes, junk: Page, n: nat)
    requires |data| <= n <= PAGE_SIZE
    ensures InBuffer(data, junk)[..n] == data + junk[|data|..n]
  {
  }

  /** Block `k` and those after it, onto a file that holds `now`; `junk(k)` is what the
      buffer of pass `k` holds when it is allocated. */
  function Pack8(z: Deflate, data: Bytes, tei: Tei, now: Bytes, k: nat, junk: nat -> Page): Bytes {
    if data == [] then now
    else
      var block := BlockOf(data);
      match z.compress(block)
      case None => now
      case Some(payload) =>
        var header := Header(|payload|, tei);
        var eight := InBuffer(payload, junk(k))[..SIZEOF_BUFF4];
        Pack8(z, data[|block|..], header, Overwrite(Overwrite(now, 8 * k, header), 8 * k + 4, eight), k + 1, junk)
  }

  /** Where block `k` starts to be written, and the file ends. */
  function EndOf(k: nat): nat {
    if k == 0 then 0 else 8 * k + 4
  }

  lemma BlockEnds(now: Bytes, k: nat, header: Tei, eight: Bytes)
    requires |now| == EndOf(k) && |eight| == 8
    ensures |Overwrite(Overwrite(now, 8 * k, header), 8 * k + 4, eight)| == EndOf(k + 1)
  {
  }

  /** k blocks make 8k + 4 bytes in a fresh file. */
  lemma {:induction false} Pack8Size(z: Deflate, data: Bytes, tei: Tei, now: Bytes, k: nat, junk: nat -> Page)
    requires Compressible(z, data) && |now| == EndOf(k)
    ensures |Pack8(z, data, tei, now, k, junk)| == EndOf(k + Blocks(|data|))
  {
    if data == [] {
    } else {
      var block := BlockOf(data);
      var payload := z.compress(block).value;
      var header := Header(|payload|, tei);
      var eight := InBuffer(payload, junk(k))[..SIZEOF_BUFF4];
      var now' := Overwrite(Overwrite(now, 8 * k, header), 8 * k + 4, eight);
      BlocksStep(|data|);
      BlockEnds(now, k, header, eight);
      Pack8Size(z, data[|block|..], header, now', k + 1, junk);
    }
  }

  /** What the reader finds in its buffers, and what `psize` is when it is not a number. */
  datatype Leftover = Leftover(junk: nat -> Page, psize: nat -> nat)

  function PayloadSize(stored: Bytes, pos: nat, k: nat, left: Leftover): (r: nat)
    ensures r <= PAGE_SIZE
  {
    var h := ReadFrom(stored, pos, 4);
    var parsed := if |h| == 4 then ParseHeader(h) else None;
    if parsed.Some? && parsed.value <= PAGE_SIZE then parsed.value else Min(left.psize(k), PAGE_SIZE)
  }

  /** What the reader hands to the decompressor in pass `k`. */
  function Handed(stored: Bytes, pos: nat, k: nat, left: Leftover): Bytes {
    var psize := PayloadSize(stored, pos, k, left);
    InBuffer(ReadFrom(stored, pos + 4, psize), left.junk(k))[..psize]
  }

  function Unpack8(z: Deflate, stored: Bytes, pos: nat, fsize: nat, k: nat, left: Leftover): Option<Bytes>
    decreases fsize
  {
    if fsize == 0 then Some([])
    else
      match z.decompress(Handed(stored, pos, k, left))
      case None => None
      case Some(block) =>
        var next := pos + |ReadFrom(stored, pos + 4, PayloadSize(stored, pos, k, left))|;
        After(block, Unpack8(z, stored, next, fsize - Min(CHUNK, fsize), k + 1, left))
  }

  lemma {:induction false} Unpack8Size(z: Deflate, stored: Bytes, pos: nat, fsize: nat, k: nat, left: Leftover)
    ensures Unpack8(z, stored, pos, fsize, k, left).Some? ==>
              |Unpack8(z, stored, pos, fsize, k, left).value| <= PAGE_SIZE * Blocks(fsize)
    decreases fsize
  {
    if fsize > 0 && z.decompress(Handed(stored, pos, k, left)).Some? {
      var next := pos + |ReadFrom(stored, pos + 4, PayloadSize(stored, pos, k, left))|;
      Unpack8Size(z, stored, next, fsize - Min(CHUNK, fsize), k + 1, left);
      BlocksStep(fsize);
    }
  }

  /** The unrepaired pair of programs gives back no file that is longer than a page,
      whatever is in the buffers. */
  lemma {:induction false} NoLongFileComesBack(z: Deflate, data: Bytes, tei: Tei, junk: nat -> Page, left: Leftover)
    requires |data| > PAGE_SIZE && Compressible(z, data)
    ensures var stored := Pack8(z, data, tei, [], 0, junk);
            Unpack8(z, stored, 0, |stored|, 0, left) != Some(data)
  {
    var stored := Pack8(z, data, tei, [], 0, junk);
    Pack8Size(z, data, tei, [], 0, junk);
    Unpack8Size(z, stored, 0, |stored|, 0, left);
    TooFewPasses(|data|);
  }

  lemma TooFewPasses(n: nat)
    requires n > PAGE_SIZE
    ensures PAGE_SIZE * Blocks(8 * Blocks(n) + 4) < n
  {
  }

  /** A file of one block is handed to the decompressor intact exactly if it compresses to at
      most 8 bytes, or to at most 999 and the buffer happens to hold the bytes that were never
      written. */
  lemma {:induction false} OneBlockExact(z: Deflate, data: Bytes, tei: Tei, junk: nat -> Page, left: Leftover)
    requires 0 < |data| <= CHUNK && z.compress(data).Some?
    ensures var stored, payload := Pack8(z, data, tei, [], 0, junk), z.compress(data).value;
            && |stored| == 12
            && (Handed(stored, 0, 0, left) == payload
                <==> || |payload| <= 8
                     || (|payload| <= 999 && left.junk(0)[8..|payload|] == payload[8..]))
            && (|payload| <= 8 ==> Unpack8(z, stored, 0, |stored|, 0, left) == Some(data))
  {
    var payload := z.compress(data).value;
    var n, m, header := |payload|, Top(|payload|), Header(|payload|, tei);
    var eight := InBuffer(payload, junk(0))[..SIZEOF_BUFF4];
    var stored := Pack8(z, data, tei, [], 0, junk);
    assert BlockOf(data) == data && data[|data|..] == [];
    var now := Overwrite(Overwrite([], 0, header), 4, eight);
    assert now == header + eight;
    assert stored == Pack8(z, [], header, now, 1, junk);
    assert ReadFrom(stored, 0, 4) == header;
    HeaderExact(n, tei);
    assert PayloadSize(stored, 0, 0, left) == m;
    var handed := Handed(stored, 0, 0, left);
    assert |handed| == m;
    if n <= 999 {
      assert ReadFrom(stored, 4, n) == eight[..Min(n, 8)] == payload[..Min(n, 8)];
    }
    if n <= 8 {
      assert payload[..n] == payload && handed == payload;
      assert Unpack8(z, stored, |ReadFrom(stored, 4, n)|, 0, 1, left) == Some([]);
      assert data + [] == data;
    } else if n <= 999 {
      InBufferCut(payload[..8], left.junk(0), n);
      assert payload == payload[..8] + payload[8..];
      assert handed[8..] == left.junk(0)[8..n];
    }
  }
}
