/** Bytes, exclusive or, and the 32-bit `int` arithmetic of the C sources. */
module Bytes {
  type byte = x: int | 0 <= x < 256
  type Bytes = seq<byte>

  datatype Option<+T> = None | Some(value: T)

  function Min(a: int, b: int): int {
    if a <= b then a else b
  }

  function Max(a: int, b: int): int {
    if a <= b then b else a
  }

  /** A value stored into a C `int`: two's complement, 32 bits. */
  function Wrap32(x: int): (r: int)
    ensures -0x8000_0000 <= r < 0x8000_0000 && (r - x) % 0x1_0000_0000 == 0
  {
    (x + 0x8000_0000) % 0x1_0000_0000 - 0x8000_0000
  }

  lemma WrapSmall(x: int)
    requires 0 <= x < 0x8000_0000
    ensures Wrap32(x) == x
  {
  }

  lemma WrapSum(x: int, y: int)
    ensures Wrap32(Wrap32(x) + y) == Wrap32(x + y)
  {
  }

  /** `more` after `data`, if there is such. */
  function After(data: Bytes, more: Option<Bytes>): Option<Bytes> {
    match more
    case Some(bytes) => Some(data + bytes)
    case None => None
  }

  lemma AfterAfter(a: Bytes, b: Bytes, more: Option<Bytes>)
    ensures After(a, After(b, more)) == After(a + b, more)
  {
    if more.Some? {
      assert a + (b + more.value) == a + b + more.value;
    }
  }

  lemma AfterCancels(a: Bytes, b: Bytes, more: Option<Bytes>)
    ensures After(a, more) == Some(a + b) <==> more == Some(b)
  {
    if more.Some? {
      assert (a + more.value)[|a|..] == more.value && (a + b)[|a|..] == b;
    }
  }

  function Pow2(k: nat): (r: nat)
    ensures r > 0
  {
    if k == 0 then 1 else 2 * Pow2(k - 1)
  }

  /** Exclusive or of the low `k` bits. */
  function XorBits(a: nat, b: nat, k: nat): (r: nat)
    ensures r < Pow2(k)
  {
    if k == 0 then 0 else (a + b) % 2 + 2 * XorBits(a / 2, b / 2, k - 1)
  }

  lemma XorBitsStep(low: nat, high: nat, b: nat, k: nat)
    requires low < 2 && k > 0
    ensures XorBits(low + 2 * high, b, k) == (low + b) % 2 + 2 * XorBits(high, b / 2, k - 1)
  {
    assert (low + 2 * high) / 2 == high;
  }

  lemma TwiceIsNothing(a: nat, b: nat)
    ensures ((a + b) % 2 + b) % 2 == a % 2
  {
  }

  lemma {:induction false} XorBitsCancels(a: nat, b: nat, k: nat)
    requires a < Pow2(k)
    ensures XorBits(XorBits(a, b, k), b, k) == a
  {
    if k == 0 {
    } else {
      XorBitsStep((a + b) % 2, XorBits(a / 2, b / 2, k - 1), b, k);
      TwiceIsNothing(a, b);
      XorBitsCancels(a / 2, b / 2, k - 1);
    }
  }

  function Xor(a: byte, b: byte): byte {
    assert Pow2(8) == 256;
    XorBits(a, b, 8)
  }

  /** Bit `i` of a number. */
  function Bit(x: nat, i: nat): (r: nat)
    ensures r < 2
  {
    x / Pow2(i) % 2
  }

  lemma Powers()
    ensures Pow2(0) == 1 && Pow2(1) == 2 && Pow2(2) == 4 && Pow2(3) == 8 && Pow2(4) == 16
    ensures Pow2(5) == 32 && Pow2(6) == 64 && Pow2(7) == 128 && Pow2(8) == 256
  {
    assert Pow2(4) == 16;
    assert Pow2(6) == 64;
  }

  lemma Halves(x: nat)
    ensures x / 2 / 2 == x / 4 && x / 2 / 4 == x / 8 && x / 2 / 8 == x / 16 && x / 2 / 16 == x / 32
    ensures x / 2 / 32 == x / 64 && x / 2 / 64 == x / 128
  {
  }

  /** Above the lowest, the bits of a number are those of its half. */
  lemma BitStep(x: nat, i: nat)
    requires i < 7
    ensures Bit(x, 0) == x % 2 && Bit(x, i + 1) == Bit(x / 2, i)
  {
    Powers();
    Halves(x);
  }

  lemma {:induction false} XorBit(a: nat, b: nat, k: nat, i: nat)
    requires i < k <= 8
    ensures Bit(XorBits(a, b, k), i) == 1 <==> Bit(a, i) != Bit(b, i)
  {
    var rest := XorBits(a / 2, b / 2, k - 1);
    var all := (a + b) % 2 + 2 * rest;
    assert XorBits(a, b, k) == all && all / 2 == rest && all % 2 == (a + b) % 2;
    if i == 0 {
      BitStep(all, 0);
      BitStep(a, 0);
      BitStep(b, 0);
    } else {
      BitStep(all, i - 1);
      BitStep(a, i - 1);
      BitStep(b, i - 1);
      XorBit(a / 2, b / 2, k - 1, i - 1);
    }
  }

  /** Numbers are told apart by their bits. */
  lemma {:induction false} BitsTell(a: nat, b: nat, k: nat)
    requires k <= 8 && a < Pow2(k) && b < Pow2(k) && forall i: nat :: i < k ==> Bit(a, i) == Bit(b, i)
    ensures a == b
  {
    if k == 0 {
    } else {
      BitStep(a, 0);
      BitStep(b, 0);
      forall i: nat | i < k - 1 ensures Bit(a / 2, i) == Bit(b / 2, i) {
        BitStep(a, i);
        BitStep(b, i);
        assert Bit(a, i + 1) == Bit(b, i + 1);
      }
      BitsTell(a / 2, b / 2, k - 1);
    }
  }

  /** The exclusive or of two bytes has a 1 exactly where they differ. */
  lemma XorExact(a: byte, b: byte, i: nat)
    requires i < 8
    ensures Bit(Xor(a, b), i) == 1 <==> Bit(a, i) != Bit(b, i)
  {
    XorBit(a, b, 8, i);
  }

  /** Bytewise exclusive or of two blocks. */
  function XorBlock(a: Bytes, b: Bytes): (r: Bytes)
    requires |a| == |b|
    ensures |r| == |a|
  {
    seq(|a|, i requires 0 <= i < |a| => Xor(a[i], b[i]))
  }

  lemma XorBlockCancels(a: Bytes, b: Bytes)
    requires |a| == |b|
    ensures XorBlock(XorBlock(a, b), b) == a
  {
    assert Pow2(8) == 256;
    forall i | 0 <= i < |a| ensures XorBlock(XorBlock(a, b), b)[i] == a[i] {
      XorBitsCancels(a[i], b[i], 8);
    }
  }

  /** `x` has a 1 exactly where the bits of the blocks `a` and `b` differ. */
  ghost predicate DiffersIn(x: Bytes, a: Bytes, b: Bytes) {
    && |x| == |a| == |b|
    && forall k, i: nat :: 0 <= k < |a| && i < 8 ==> (Bit(x[k], i) == 1 <==> Bit(a[k], i) != Bit(b[k], i))
  }

  /** That is so of one block only, their exclusive or. */
  lemma XorBlockExact(x: Bytes, a: Bytes, b: Bytes)
    requires |a| == |b|
    ensures DiffersIn(x, a, b) <==> x == XorBlock(a, b)
  {
    var y := XorBlock(a, b);
    forall k, i: nat | 0 <= k < |a| && i < 8 ensures Bit(y[k], i) == 1 <==> Bit(a[k], i) != Bit(b[k], i) {
      XorExact(a[k], b[k], i);
    }
    assert DiffersIn(y, a, b);
    if DiffersIn(x, a, b) {
      assert Pow2(8) == 256;
      forall k | 0 <= k < |a| ensures x[k] == y[k] {
        forall i: nat | i < 8 ensures Bit(x[k], i) == Bit(y[k], i) {
          assert Bit(x[k], i) == 1 <==> Bit(y[k], i) == 1;
        }
        BitsTell(x[k], y[k], 8);
      }
    }
  }
}
