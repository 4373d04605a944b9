/**
 * The flag bitmap packed into bytes and unpacked again. Bit i lives in byte
 * i / 8; its mask within the byte depends on the bit order. Python's `bitarray`
 * (big-endian by default) uses `0x80 >> (i % 8)`; C#'s `ConvertToByteArray`
 * and `BitArray(byte[])` use `1 << (i % 8)`.
 */
module BitPacking {
  import opened Bounds

  datatype BitOrder = MsbFirst | LsbFirst

  function Mask(order: BitOrder, k: nat): bv8
    requires k < 8
  {
    match order
    case MsbFirst => 0x80 >> k
    case LsbFirst => 1 << k
  }

  /** Whether bit k (in the given order) of byte b is set. */
  predicate Bit(order: BitOrder, b: bv8, k: nat)
    requires k < 8
  {
    b & Mask(order, k) != 0
  }

  /** The byte holding the bits of `chunk` at positions 0, 1, ...; the rest of it is zero. */
  function PackByte(order: BitOrder, chunk: seq<bool>): bv8
    requires |chunk| <= 8
  {
    if |chunk| == 0 then 0
    else PackByte(order, chunk[..|chunk| - 1]) | (if chunk[|chunk| - 1] then Mask(order, |chunk| - 1) else 0)
  }

  /** Packing one more bit of a run ORs in that bit's mask. */
  lemma PackByteExtend(order: BitOrder, bits: seq<bool>, lo: nat, i: nat)
    requires lo <= i < |bits| && i - lo < 8
    ensures PackByte(order, bits[lo .. i + 1]) ==
      if bits[i] then PackByte(order, bits[lo .. i]) | Mask(order, i - lo) else PackByte(order, bits[lo .. i])
  {
    assert bits[lo .. i + 1][.. i - lo] == bits[lo .. i];
  }

  /** A run of clear bits packs to a zero byte. */
  lemma {:induction false} PackByteClear(order: BitOrder, chunk: seq<bool>)
    requires |chunk| <= 8 && forall i :: 0 <= i < |chunk| ==> !chunk[i]
    ensures PackByte(order, chunk) == 0
    decreases |chunk|
  {
    if |chunk| > 0 {
      PackByteClear(order, chunk[..|chunk| - 1]);
    }
  }

  /** The at most eight bits that go into byte j. */
  function Chunk(bits: seq<bool>, j: nat): seq<bool>
    requires 8 * j <= |bits|
  {
    bits[8 * j .. Min(8 * j + 8, |bits|)]
  }

  /** The bitmap packed into `ceil(|bits| / 8)` bytes, the padding bits zero. */
  function Pack(order: BitOrder, bits: seq<bool>): (bytes: seq<bv8>)
    ensures |bytes| == (|bits| + 7) / 8
  {
    seq((|bits| + 7) / 8, j requires 0 <= j < (|bits| + 7) / 8 => PackByte(order, Chunk(bits, j)))
  }

  /** Every bit of every byte, byte by byte: `8 * |bytes|` flags. */
  function Unpack(order: BitOrder, bytes: seq<bv8>): (bits: seq<bool>)
    ensures |bits| == 8 * |bytes|
  {
    seq(8 * |bytes|, i requires 0 <= i < 8 * |bytes| => Bit(order, bytes[i / 8], i % 8))
  }

  /** A buffer of `n` bytes once the first `i` bits have been ORed in: the packed prefix, then zeros. */
  function PackPrefix(order: BitOrder, bits: seq<bool>, i: nat, n: nat): (buffer: seq<bv8>)
    requires i <= |bits| && (i + 7) / 8 <= n
    ensures |buffer| == n
  {
    Pack(order, bits[..i]) + seq(n - (i + 7) / 8, _ => 0)
  }

  /** Bit i goes into byte i / 8 under mask `Mask(order, i % 8)`, and no other byte changes. */
  lemma PackPrefixStep(order: BitOrder, bits: seq<bool>, i: nat, n: nat)
    requires i < |bits| && n == (|bits| + 7) / 8
    ensures var buffer := PackPrefix(order, bits, i, n);
      PackPrefix(order, bits, i + 1, n) ==
        if bits[i] then buffer[i / 8 := buffer[i / 8] | Mask(order, i % 8)] else buffer
  {
    var buffer, next := PackPrefix(order, bits, i, n), PackPrefix(order, bits, i + 1, n);
    var b := i / 8;
    assert i == 8 * b + i % 8;
    assert (i + 8) / 8 == b + 1 && (i + 7) / 8 <= b + 1;
    forall j | 0 <= j < n
      ensures next[j] == if j == b && bits[i] then buffer[j] | Mask(order, i % 8) else buffer[j]
    {
      if j < b {
        PackPrefixBelow(order, bits, i, n, j);
      } else if j == b {
        PackPrefixStepAt(order, bits, i, n);
      }
    }
  }

  /** Bytes already complete are left alone. */
  lemma PackPrefixBelow(order: BitOrder, bits: seq<bool>, i: nat, n: nat, j: nat)
    requires i < |bits| && n == (|bits| + 7) / 8 && 8 * j + 8 <= i
    ensures PackPrefix(order, bits, i + 1, n)[j] == PackPrefix(order, bits, i, n)[j]
  {
    assert Chunk(bits[..i + 1], j) == bits[8 * j .. 8 * j + 8] == Chunk(bits[..i], j);
  }

  /** The byte that bit i lands in. */
  lemma PackPrefixStepAt(order: BitOrder, bits: seq<bool>, i: nat, n: nat)
    requires i < |bits| && n == (|bits| + 7) / 8
    ensures var b := i / 8;
      PackPrefix(order, bits, i + 1, n)[b] ==
        if bits[i] then PackPrefix(order, bits, i, n)[b] | Mask(order, i % 8) else PackPrefix(order, bits, i, n)[b]
  {
    var b := i / 8;
    PackByteExtend(order, bits, 8 * b, i);
    assert Chunk(bits[..i + 1], b) == bits[8 * b .. i + 1];
    if 8 * b < i {
      assert Chunk(bits[..i], b) == bits[8 * b .. i];
    } else {
      assert bits[8 * b .. i] == [];
    }
  }

  /**
   * A zeroed buffer of `n` bytes into which the first `i` bits have been ORed,
   * one at a time: bit k sets mask `Mask(order, k % 8)` of byte `k / 8`.
   */
  function OrIn(order: BitOrder, bits: seq<bool>, i: nat, n: nat): (buffer: seq<bv8>)
    requires i <= |bits| && n == (|bits| + 7) / 8
    ensures |buffer| == n
    decreases i
  {
    if i == 0 then seq(n, _ => 0)
    else
      var buffer, k := OrIn(order, bits, i - 1, n), i - 1;
      if bits[k] then buffer[k / 8 := buffer[k / 8] | Mask(order, k % 8)] else buffer
  }

  /** After i bits the buffer holds the packed prefix, the bytes not yet reached still zero. */
  lemma {:induction false} OrInPacksPrefix(order: BitOrder, bits: seq<bool>, i: nat, n: nat)
    requires i <= |bits| && n == (|bits| + 7) / 8
    ensures OrIn(order, bits, i, n) == PackPrefix(order, bits, i, n)
    decreases i
  {
    if i == 0 {
      NothingOredIn(order, bits, n);
    } else {
      OrInPacksPrefix(order, bits, i - 1, n);
      OrInStep(order, bits, i - 1, n);
    }
  }

  /** Before any bit is ORed in, the buffer is all zeros, as is the packed prefix of no bits. */
  lemma NothingOredIn(order: BitOrder, bits: seq<bool>, n: nat)
    requires n == (|bits| + 7) / 8
    ensures OrIn(order, bits, 0, n) == PackPrefix(order, bits, 0, n)
  {
    assert Pack(order, bits[..0]) == [];
    assert forall j :: 0 <= j < n ==> PackPrefix(order, bits, 0, n)[j] == 0 == OrIn(order, bits, 0, n)[j];
  }

  /** ORing in bit k moves the buffer from the packed prefix of k bits to that of k + 1. */
  lemma OrInStep(order: BitOrder, bits: seq<bool>, k: nat, n: nat)
    requires k < |bits| && n == (|bits| + 7) / 8
    requires OrIn(order, bits, k, n) == PackPrefix(order, bits, k, n)
    ensures OrIn(order, bits, k + 1, n) == PackPrefix(order, bits, k + 1, n)
  {
    PackPrefixStep(order, bits, k, n);
  }

  /** ORing in every bit, one at a time, packs the bitmap. */
  lemma OrInPacks(order: BitOrder, bits: seq<bool>)
    ensures OrIn(order, bits, |bits|, (|bits| + 7) / 8) == Pack(order, bits)
  {
    OrInPacksPrefix(order, bits, |bits|, (|bits| + 7) / 8);
    assert bits[..|bits|] == bits;
  }

  lemma OrBit(x: bv8, y: bv8, m: bv8)
    ensures (x | y) & m != 0 <==> x & m != 0 || y & m != 0
  {
  }

  lemma MaskBit(order: BitOrder, j: nat, k: nat)
    requires j < 8 && k < 8
    ensures Bit(order, Mask(order, j), k) <==> j == k
  {
  }

  /** Bit k of a packed byte is the k-th bit of its chunk, and zero past the chunk's end. */
  lemma {:induction false} PackByteBit(order: BitOrder, chunk: seq<bool>, k: nat)
    requires |chunk| <= 8 && k < 8
    ensures Bit(order, PackByte(order, chunk), k) <==> k < |chunk| && chunk[k]
    decreases |chunk|
  {
    if |chunk| > 0 {
      var n := |chunk| - 1;
      PackByteBit(order, chunk[..n], k);
      MaskBit(order, n, k);
      OrBit(PackByte(order, chunk[..n]), if chunk[n] then Mask(order, n) else 0, Mask(order, k));
    }
  }

  /**
   * Unpacking what was packed, in the same order, gives the bits back followed
   * by fewer than eight clear padding bits.
   */
  lemma UnpackPack(order: BitOrder, bits: seq<bool>)
    ensures var flags := Unpack(order, Pack(order, bits));
      && |bits| <= |flags| < |bits| + 8
      && flags[..|bits|] == bits
      && forall i :: |bits| <= i < |flags| ==> !flags[i]
  {
    var bytes := Pack(order, bits);
    var flags := Unpack(order, bytes);
    forall i | 0 <= i < |flags|
      ensures flags[i] <==> i < |bits| && bits[i]
    {
      PackByteBit(order, Chunk(bits, i / 8), i % 8);
    }
  }

  /** The flags of "aaaabbbb", hits at positions 3 and 7: 0b10001000 least significant bit first, 0b00010001 most significant bit first. */
  lemma PackAaaabbbbFlags()
    ensures Pack(LsbFirst, [false, false, false, true, false, false, false, true]) == [0x88]
    ensures Pack(MsbFirst, [false, false, false, true, false, false, false, true]) == [0x11]
  {
    var b := [false, false, false, true, false, false, false, true];
    assert Chunk(b, 0) == b;
    PackByteClear(LsbFirst, b[..3]);
    PackByteClear(MsbFirst, b[..3]);
    PackByteExtend(LsbFirst, b, 0, 3);
    PackByteExtend(MsbFirst, b, 0, 3);
    PackByteExtend(LsbFirst, b, 0, 4);
    PackByteExtend(MsbFirst, b, 0, 4);
    PackByteExtend(LsbFirst, b, 0, 5);
    PackByteExtend(MsbFirst, b, 0, 5);
    PackByteExtend(LsbFirst, b, 0, 6);
    PackByteExtend(MsbFirst, b, 0, 6);
    PackByteExtend(LsbFirst, b, 0, 7);
    PackByteExtend(MsbFirst, b, 0, 7);
    assert b[0..8] == b;
  }
}
