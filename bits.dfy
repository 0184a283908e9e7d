/** Bytes and bit streams as the XVC server handles them.  Every buffer of
    the server (TMS, TDI, TDO and the MPSSE payloads) is walked least
    significant bit first: bit `i` of a stream lives in byte `i / 8`, at bit
    position `i % 8`. */
module Bits {

  type byte = bv8

  /** The mask selecting bit `j` of a byte, bit 0 being the least significant.
      The cursors of the server (`iBit`, `cmdBit`, `rxBit`, `tdoBit`) always
      hold one of these. */
  function Mask(j: nat): byte
    requires j < 8
  {
    if j == 0 then 0x01 else if j == 1 then 0x02 else if j == 2 then 0x04 else if j == 3 then 0x08
    else if j == 4 then 0x10 else if j == 5 then 0x20 else if j == 6 then 0x40 else 0x80
  }

  /** A number below 256 stored in a byte reads back unchanged. */
  lemma ByteOf(x: nat)
    requires x < 256
    ensures (x as byte) as int == x
  {
    ByteMod(x);
    ModSmall(x);
  }

  lemma ByteMod(x: nat)
    requires x < 256
    ensures (x as byte) as int == x % 256
  {
  }

  lemma ModSmall(x: nat)
    requires x < 256
    ensures x % 256 == x
  {
  }

  /** A sequence is its two halves around any cut. */
  lemma Halves<T>(s: seq<T>, i: nat)
    requires i <= |s|
    ensures s[..i] + s[i..] == s
  {
  }

  /** Dropping the first part of a concatenation leaves the second. */
  lemma DropFront<T>(p: seq<T>, q: seq<T>)
    ensures (p + q)[|p|..] == q
  {
  }

  lemma DropDrop<T>(s: seq<T>, i: nat, j: nat)
    requires i + j <= |s|
    ensures s[i..][j..] == s[i + j ..]
  {
  }

  /** Taking the first part of a concatenation leaves the first part. */
  lemma TakeFront<T>(p: seq<T>, q: seq<T>)
    ensures (p + q)[..|p|] == p
  {
  }

  lemma TakeTake<T>(s: seq<T>, i: nat, j: nat)
    requires i <= j <= |s|
    ensures s[..j][..i] == s[..i]
  {
  }

  lemma TakeDrop<T>(s: seq<T>, i: nat, j: nat)
    requires i + j <= |s|
    ensures s[..i + j][i..] == s[i..][..j]
  {
  }

  predicate BitOf(b: byte, j: nat)
    requires j < 8
  {
    b & Mask(j) != 0
  }

  /** How a cursor mask steps: `bit == 0x80` tests for the last position,
      `bit <<= 1` moves to the next one. */
  lemma MaskStep(j: nat)
    requires j < 8
    ensures Mask(j) == 0x80 <==> j == 7
    ensures j < 7 ==> Mask(j) << 1 == Mask(j + 1)
    ensures (1 as byte) == Mask(0)
  {
  }

  /** Setting bit `k` leaves every other bit alone. */
  lemma OrMask(x: byte, j: nat, k: nat)
    requires j < 8 && k < 8
    ensures BitOf(x | Mask(k), j) == (BitOf(x, j) || j == k)
  {
  }

  /** A byte is determined by its eight bits. */
  lemma BitsDetermineByte(a: byte, b: byte)
    requires forall j :: 0 <= j < 8 ==> BitOf(a, j) == BitOf(b, j)
    ensures a == b
  {
    assert a & 1 == b & 1 by { assert BitOf(a, 0) == BitOf(b, 0); }
    assert a & 2 == b & 2 by { assert BitOf(a, 1) == BitOf(b, 1); }
    assert a & 4 == b & 4 by { assert BitOf(a, 2) == BitOf(b, 2); }
    assert a & 8 == b & 8 by { assert BitOf(a, 3) == BitOf(b, 3); }
    assert a & 16 == b & 16 by { assert BitOf(a, 4) == BitOf(b, 4); }
    assert a & 32 == b & 32 by { assert BitOf(a, 5) == BitOf(b, 5); }
    assert a & 64 == b & 64 by { assert BitOf(a, 6) == BitOf(b, 6); }
    assert a & 128 == b & 128 by { assert BitOf(a, 7) == BitOf(b, 7); }
  }

  /** Packs at most eight bits into one byte, `bits[i]` going to bit `i`
      and the unused high bits staying clear.  It is built one bit at a time,
      the way the server ORs a cursor mask into a byte it zeroed first. */
  function PackByte(bits: seq<bool>): byte
    requires |bits| <= 8
  {
    if bits == [] then 0
    else PackByte(bits[..|bits| - 1]) | (if bits[|bits| - 1] then Mask(|bits| - 1) else 0)
  }

  /** Bit `j` of a packed byte is `bits[j]`, or clear beyond the bits given. */
  lemma {:induction false} PackByteBit(bits: seq<bool>, j: nat)
    requires |bits| <= 8 && j < 8
    ensures BitOf(PackByte(bits), j) == (j < |bits| && bits[j])
  {
    if bits != [] {
      var n := |bits| - 1;
      PackByteBit(bits[..n], j);
      OrMask(PackByte(bits[..n]), j, n);
    }
  }

  /** The eight bits of one byte, least significant first. */
  function ByteBits(b: byte): (bits: seq<bool>)
    ensures |bits| == 8
  {
    seq(8, j requires 0 <= j < 8 => BitOf(b, j))
  }

  /** The bit stream carried by a byte buffer, least significant bit first. */
  function Unpacked(bytes: seq<byte>): (bits: seq<bool>)
    ensures |bits| == 8 * |bytes|
  {
    seq(8 * |bytes|, i requires 0 <= i < 8 * |bytes| => BitOf(bytes[i / 8], i % 8))
  }

  /** The first `n` bits of a buffer: the stream a client sends as
      ceil(n/8) bytes. */
  function StreamBits(bytes: seq<byte>, n: nat): (bits: seq<bool>)
    requires n <= 8 * |bytes|
    ensures |bits| == n
  {
    Unpacked(bytes)[..n]
  }

  /** Bit i of the stream is bit i % 8 of byte i / 8. */
  lemma StreamBitAt(bytes: seq<byte>, n: nat, i: nat)
    requires n <= 8 * |bytes| && i < n
    ensures StreamBits(bytes, n)[i] == BitOf(bytes[i / 8], i % 8)
  {
  }

  function Min(a: nat, b: nat): nat {
    if a < b then a else b
  }

  /** The inverse direction: a bit stream packed into ceil(n/8) bytes, the
      last one padded with clear bits. */
  function Pack(bits: seq<bool>): (bytes: seq<byte>)
    decreases |bits|
  {
    if bits == [] then []
    else if |bits| <= 8 then [PackByte(bits)]
    else [PackByte(bits[..8])] + Pack(bits[8..])
  }

  /** A stream of n bits packs into ceil(n/8) bytes. */
  lemma {:induction false} PackLength(bits: seq<bool>)
    ensures |Pack(bits)| == (|bits| + 7) / 8
    decreases |bits|
  {
    if |bits| > 8 {
      PackLength(bits[8..]);
    }
  }

  /** The bits of byte `i` of a packed stream. */
  function Chunk(bits: seq<bool>, i: nat): (c: seq<bool>)
    requires 8 * i < |bits|
    ensures 0 < |c| <= 8
  {
    bits[8 * i .. Min(|bits|, 8 * i + 8)]
  }

  /** Byte `i` of a packed stream holds bits `8i ..` of it. */
  lemma {:induction false} PackAt(bits: seq<bool>, i: nat)
    requires 8 * i < |bits|
    ensures i < |Pack(bits)| && Pack(bits)[i] == PackByte(Chunk(bits, i))
    decreases i
  {
    if i == 0 {
      assert Chunk(bits, 0) == if |bits| <= 8 then bits else bits[..8];
    } else {
      assert |bits| > 8;
      var rest := bits[8..];
      PackAt(rest, i - 1);
      assert Chunk(rest, i - 1) == Chunk(bits, i) by { ChunkDrop(bits, i); }
      assert Pack(bits) == [PackByte(bits[..8])] + Pack(rest) by { PackTail(bits); }
      IndexAppend([PackByte(bits[..8])], Pack(rest), i);
    }
  }

  lemma PackTail(bits: seq<bool>)
    requires |bits| > 8
    ensures Pack(bits) == [PackByte(bits[..8])] + Pack(bits[8..])
  {
  }

  lemma IndexAppend<T>(p: seq<T>, q: seq<T>, i: nat)
    requires |p| <= i < |p| + |q|
    ensures (p + q)[i] == q[i - |p|]
  {
  }

  lemma ChunkDrop(bits: seq<bool>, i: nat)
    requires 8 < |bits| && 1 <= i && 8 * i < |bits|
    ensures Chunk(bits[8..], i - 1) == Chunk(bits, i)
  {
    var e := Min(|bits|, 8 * i + 8);
    assert Min(|bits[8..]|, 8 * (i - 1) + 8) == e - 8;
    SliceOfDrop(bits, 8, 8 * (i - 1), e - 8);
  }

  lemma SliceOfDrop<T>(s: seq<T>, k: nat, a: nat, b: nat)
    requires k <= |s| && a <= b <= |s| - k
    ensures s[k..][a..b] == s[k + a .. k + b]
  {
  }

  /** Bit i of a packed stream is bit i of the stream, or clear padding. */
  lemma PackedBit(bits: seq<bool>, i: nat)
    requires i < 8 * |Pack(bits)|
    ensures BitOf(Pack(bits)[i / 8], i % 8) == (i < |bits| && bits[i])
  {
    var k, j := i / 8, i % 8;
    PackLength(bits);
    assert i == 8 * k + j && j < 8 && 8 * k < |bits|;
    PackAt(bits, k);
    PackByteBit(Chunk(bits, k), j);
    ChunkBit(bits, k, j);
  }

  lemma ChunkBit(bits: seq<bool>, k: nat, j: nat)
    requires 8 * k < |bits| && j < 8
    ensures j < |Chunk(bits, k)| <==> 8 * k + j < |bits|
    ensures j < |Chunk(bits, k)| ==> Chunk(bits, k)[j] == bits[8 * k + j]
  {
  }

  /** Packing loses no bit: the first n bits of the packed stream are the
      stream again, and the padding bits are clear. */
  lemma UnpackPack(bits: seq<bool>)
    ensures |Unpacked(Pack(bits))| >= |bits|
    ensures StreamBits(Pack(bits), |bits|) == bits
    ensures forall i :: |bits| <= i < |Unpacked(Pack(bits))| ==> !Unpacked(Pack(bits))[i]
  {
    PackLength(bits);
    var u := Unpacked(Pack(bits));
    forall i | 0 <= i < |u|
      ensures u[i] == (i < |bits| && bits[i])
    {
      PackedBit(bits, i);
    }
    assert u[..|bits|] == bits;
  }

  /** Unpacking loses no bit either: packing the bits of a buffer gives the
      buffer back. */
  lemma PackUnpacked(bytes: seq<byte>)
    ensures Pack(Unpacked(bytes)) == bytes
  {
    var u := Unpacked(bytes);
    PackLength(u);
    forall i | 0 <= i < |bytes|
      ensures Pack(u)[i] == bytes[i]
    {
      PackAt(u, i);
      assert Chunk(u, i) == u[8 * i .. 8 * i + 8];
      UnpackedByte(bytes, i);
    }
  }

  lemma UnpackedByte(bytes: seq<byte>, i: nat)
    requires i < |bytes|
    ensures PackByte(Unpacked(bytes)[8 * i .. 8 * i + 8]) == bytes[i]
  {
    var s := Unpacked(bytes)[8 * i .. 8 * i + 8];
    forall j | 0 <= j < 8
      ensures BitOf(PackByte(s), j) == BitOf(bytes[i], j)
    {
      PackByteBit(s, j);
      assert s[j] == Unpacked(bytes)[8 * i + j];
      DivMod8(i, j);
    }
    BitsDetermineByte(PackByte(s), bytes[i]);
  }

  /** Bit j of byte i sits at position 8i + j of a stream. */
  lemma DivMod8(i: nat, j: nat)
    requires j < 8
    ensures (8 * i + j) / 8 == i && (8 * i + j) % 8 == j
  {
    var x := 8 * i + j;
    var q, r := x / 8, x % 8;
    assert x == 8 * q + r && 0 <= r < 8;
    assert 8 * (q - i) == j - r;
  }

  /** Packing commutes with concatenation at a byte boundary, which is why
      chunks of whole bytes can be shifted one after another. */
  lemma {:induction false} PackAppend(a: seq<bool>, b: seq<bool>, k: nat)
    requires |a| == 8 * k
    ensures Pack(a + b) == Pack(a) + Pack(b)
    decreases k
  {
    if k == 0 {
      assert a + b == b;
    } else if b == [] {
      assert a + b == a;
    } else {
      var ab := a + b;
      assert ab[..8] == a[..8] && ab[8..] == a[8..] + b;
      assert Pack(ab) == [PackByte(a[..8])] + Pack(a[8..] + b);
      PackAppend(a[8..], b, k - 1);
      if k == 1 {
        assert a[8..] == [] && a[..8] == a;
        assert Pack(a) == [PackByte(a)];
      } else {
        assert Pack(a) == [PackByte(a[..8])] + Pack(a[8..]);
      }
    }
  }

  /** Up to eight bits pack into a single byte. */
  lemma PackShort(bits: seq<bool>)
    requires 0 < |bits| <= 8
    ensures Pack(bits) == [PackByte(bits)]
  {
  }

  /** A packed stream is its whole bytes followed by the byte holding the
      r < 8 leftover bits, if any. */
  lemma PackSplit(bits: seq<bool>, q: nat, r: nat)
    requires |bits| == 8 * q + r && r < 8
    ensures Pack(bits) == Pack(bits[..8 * q]) + (if r == 0 then [] else [PackByte(bits[8 * q ..])])
  {
    var full, tail := bits[..8 * q], bits[8 * q ..];
    assert bits == full + tail;
    PackAppend(full, tail, q);
    if r != 0 {
      PackShort(tail);
    }
  }

  /** Adding one bit to a packed stream changes only its last byte, which
      becomes the leftover bits plus the new one (a fresh byte when there
      were no leftover bits). */
  lemma PackSnoc(bits: seq<bool>, x: bool, q: nat, r: nat)
    requires |bits| == 8 * q + r && r < 8
    ensures Pack(bits + [x]) == Pack(bits[..8 * q]) + [PackByte(bits[8 * q ..] + [x])]
  {
    var s := bits + [x];
    assert s[..8 * q] == bits[..8 * q] && s[8 * q ..] == bits[8 * q ..] + [x];
    assert s == s[..8 * q] + s[8 * q ..];
    PackAppend(s[..8 * q], s[8 * q ..], q);
    PackShort(s[8 * q ..]);
  }
}
