/** `shiftChunk` (ftdiJTAG.c:524-675): one piece of a shift, at most
    USB_SHIFT_LIMIT bytes of TMS and TDI, is turned into MPSSE commands in
    `ioBuf`, sent, and the answer decoded into `tdoBuf`.  Each method here
    is proved against the pure encoder and decoder of module Mpsse.

    The cursor masks of the source (`iBit`, `cmdBit`, `rxBit`, `tdoBit`)
    are kept as the number of the bit they select; the source's mask is
    `Mask` of that number. */
module Chunk {
  import opened Bits
  import opened Wrappers
  import opened Mpsse
  import opened UsbRead
  import opened Usb
  import Clock

  /** The first n bits of a buffer from byte `base` on: the piece a
      `shiftChunk` call is given through its buffer pointers. */
  function Piece(buf: seq<byte>, base: nat, n: nat): (bits: seq<bool>)
    requires base <= |buf| && n <= 8 * (|buf| - base)
    ensures |bits| == n
  {
    StreamBits(buf[base..], n)
  }

  /** Bit i of a piece, named so that the solver only looks a bit up when
      asked to. */
  function BitAt(buf: seq<byte>, base: nat, i: nat): bool
    requires base + i / 8 < |buf|
  {
    BitOf(buf[base + i / 8], i % 8)
  }

  /** `bits` is the piece of `buf` that starts at byte `base`. */
  predicate Holds(buf: seq<byte>, base: nat, bits: seq<bool>) {
    base <= |buf| && |bits| <= 8 * (|buf| - base) &&
    forall i {:trigger BitAt(buf, base, i)} :: 0 <= i < |bits| ==> base + i / 8 < |buf| && bits[i] == BitAt(buf, base, i)
  }

  /** A piece holds the first bits of the buffer from byte `base` on. */
  lemma HoldsPiece(buf: seq<byte>, base: nat, n: nat)
    requires base <= |buf| && n <= 8 * (|buf| - base)
    ensures Holds(buf, base, Piece(buf, base, n))
  {
    var bits := Piece(buf, base, n);
    forall i | 0 <= i < n
      ensures base + i / 8 < |buf| && bits[i] == BitAt(buf, base, i)
    {
      StreamBitAt(buf[base..], n, i);
    }
  }

  /** A cursor at byte `index`, bit `pos` of a buffer stands at bit p of
      the piece that starts at byte `base`. */
  predicate At(base: nat, index: nat, pos: nat, p: nat) {
    base <= index && pos < 8 && 8 * (index - base) + pos == p
  }

  /** Testing the cursor's bit reads bit p of the piece. */
  lemma ReadBit(buf: seq<byte>, base: nat, bits: seq<bool>, index: nat, pos: nat, p: nat)
    requires Holds(buf, base, bits) && At(base, index, pos, p) && p < |bits|
    ensures index < |buf| && BitOf(buf[index], pos) == bits[p]
  {
    DivMod8(index - base, pos);
    assert bits[p] == BitAt(buf, base, p);
  }

  /** ORing the mask of bit k into a byte holding k bits appends a bit. */
  lemma PackByteExtend(bits: seq<bool>, lo: nat, k: nat)
    requires lo + k < |bits| && k < 8
    ensures PackByte(bits[lo .. lo + k + 1]) == PackByte(bits[lo .. lo + k]) | (if bits[lo + k] then Mask(k) else 0)
  {
    assert bits[lo .. lo + k + 1][..k] == bits[lo .. lo + k];
  }

  /** Appending a bit to a byte under construction ORs in its mask. */
  lemma PackByteSnoc(bits: seq<bool>, b: bool)
    requires |bits| < 8
    ensures PackByte(bits + [b]) == PackByte(bits) | (if b then Mask(|bits|) else 0)
  {
    assert (bits + [b])[..|bits|] == bits;
  }

  /** Clear bits at the top of a byte change nothing. */
  lemma {:induction false} PackByteZeros(bits: seq<bool>, k: nat)
    requires |bits| + k <= 8
    ensures PackByte(bits + Zeros(k)) == PackByte(bits)
  {
    if k > 0 {
      var s := bits + Zeros(k - 1);
      assert bits + Zeros(k) == s + [false];
      PackByteSnoc(s, false);
      OrZero(PackByte(s));
      PackByteZeros(bits, k - 1);
    } else {
      assert bits + Zeros(k) == bits;
    }
  }

  lemma OrZero(a: byte)
    ensures a | 0 == a
  {
  }

  /** The data byte `shiftChunk` builds for a TMS command
      (ftdiJTAG.c:551-553, 570, 578): the stashed TMS bits, the last one
      shifted up once more, and the TDI level in bit 7. */
  lemma TmsByte(g: Group, tmsBits: byte, tmsBit: byte)
    requires WellFormed(g)
    requires tmsBits == PackByte(g.tms)
    requires tmsBit == if LastTms(g) then Mask(|g.tms| - 1) else 0
    ensures (if g.tdiLevel then 0x80 else 0) | (tmsBits | (tmsBit << 1)) == TmsData(g)
  {
    TmsDataOf(g);
    ShiftLast(g, tmsBit);
    OrParts(tmsBits, tmsBit, if LastTms(g) then Mask(|g.tms|) else 0, g.tdiLevel, TmsData(g));
  }

  /** `tmsBit << 1` is the mask of the bit after the last TMS bit, when
      that bit is set. */
  lemma ShiftLast(g: Group, tmsBit: byte)
    requires WellFormed(g) && tmsBit == if LastTms(g) then Mask(|g.tms| - 1) else 0
    ensures tmsBit << 1 == if LastTms(g) then Mask(|g.tms|) else 0
  {
    MaskStep(|g.tms| - 1);
  }

  /** The ORs of ftdiJTAG.c:570 and :578 in the order the TMS data byte is
      defined. */
  lemma OrParts(tmsBits: byte, tmsBit: byte, up: byte, t: bool, x: byte)
    requires tmsBit << 1 == up && x == (tmsBits | up) | (if t then Mask(7) else 0)
    ensures (if t then 0x80 else 0) | (tmsBits | (tmsBit << 1)) == x
  {
  }

  /** The TMS data byte as three masks ORed together. */
  lemma TmsDataOf(g: Group)
    requires WellFormed(g)
    ensures TmsData(g) == (PackByte(g.tms) | (if LastTms(g) then Mask(|g.tms|) else 0)) | (if g.tdiLevel then Mask(7) else 0)
  {
    var n := |g.tms|;
    var s := g.tms + [LastTms(g)];
    var z := s + Zeros(TMS_LIMIT - n);
    PackByteSnoc(g.tms, LastTms(g));
    PackByteZeros(s, TMS_LIMIT - n);
    PackByteSnoc(z, g.tdiLevel);
  }

  /** The do-while loop of ftdiJTAG.c:546-563: stashes TMS bits from bit p
      on while TDI keeps the value of bit p, at most six of them and no
      further than the end of the piece (`nBits` bits are left).  `cmdPos`
      is the position of `cmdBit`. */
  method StashTms(tmsBuf: seq<byte>, tdiBuf: seq<byte>, base: nat, nBits: nat,
                  iIndex0: nat, iPos0: nat, ghost tms: seq<bool>, ghost tdi: seq<bool>, ghost p: nat)
    returns (tdiFirstState: bool, tmsBits: byte, tmsBit: byte, cmdBitcount: nat, iIndex: nat, iPos: nat)
    requires Holds(tmsBuf, base, tms) && Holds(tdiBuf, base, tdi) && |tms| == |tdi|
    requires p < |tms| && nBits == |tms| - p && At(base, iIndex0, iPos0, p)
    ensures cmdBitcount == TmsSpan(tdi, p, 1) && tdiFirstState == tdi[p]
    ensures Stashed(tms, p, cmdBitcount, tmsBits, tmsBit)
    ensures At(base, iIndex, iPos, p + cmdBitcount)
  {
    iIndex, iPos := iIndex0, iPos0;
    ReadBit(tdiBuf, base, tdi, iIndex, iPos, p);
    tdiFirstState := BitOf(tdiBuf[iIndex], iPos);
    cmdBitcount := 0;
    tmsBits := 0;
    tmsBit := 0;
    var more := true;
    ghost var span := TmsSpan(tdi, p, 1);
    while more
      invariant cmdBitcount <= TMS_LIMIT && p + cmdBitcount <= |tms|
      invariant At(base, iIndex, iPos, p + cmdBitcount)
      invariant cmdBitcount == 0 ==> tmsBits == 0
      invariant cmdBitcount > 0 ==> Stashed(tms, p, cmdBitcount, tmsBits, tmsBit)
      invariant more ==> cmdBitcount < span
      invariant !more ==> cmdBitcount == span
      decreases more, TMS_LIMIT - cmdBitcount
    {
      var same;
      tmsBit, tmsBits, iIndex, iPos, same :=
        StashNext(tmsBuf, tdiBuf, base, nBits, iIndex, iPos, cmdBitcount, tmsBits, tdiFirstState, tmsBit, tms, tdi, p);
      SpanStep(tdi, p, cmdBitcount + 1, same);
      cmdBitcount := cmdBitcount + 1;
      more := same;
    }
  }

  /** One turn of the do-while loop of ftdiJTAG.c:546-563: the TMS bit
      under the cursor is ORed into `tmsBits` at position `cmdPos`, the
      cursor moves on, and the loop goes on while fewer than six bits are
      stashed, bits are left and the next TDI bit equals the first. */
  method StashNext(tmsBuf: seq<byte>, tdiBuf: seq<byte>, base: nat, nBits: nat,
                   iIndex0: nat, iPos0: nat, cmdPos: nat, tmsBits0: byte, tdiFirstState: bool, ghost lastBit: byte,
                   ghost tms: seq<bool>, ghost tdi: seq<bool>, ghost p: nat)
    returns (tmsBit: byte, tmsBits: byte, iIndex: nat, iPos: nat, same: bool)
    requires Holds(tmsBuf, base, tms) && Holds(tdiBuf, base, tdi) && |tms| == |tdi|
    requires nBits == |tms| - p && cmdPos < TMS_LIMIT && p + cmdPos < |tms|
    requires At(base, iIndex0, iPos0, p + cmdPos) && tdiFirstState == tdi[p]
    requires cmdPos > 0 ==> Stashed(tms, p, cmdPos, tmsBits0, lastBit)
    requires cmdPos == 0 ==> tmsBits0 == 0
    ensures Stashed(tms, p, cmdPos + 1, tmsBits, tmsBit)
    ensures At(base, iIndex, iPos, p + cmdPos + 1)
    ensures same <==> cmdPos + 1 < TMS_LIMIT && p + cmdPos + 1 < |tdi| && tdi[p + cmdPos + 1] == tdi[p]
  {
    ReadBit(tmsBuf, base, tms, iIndex0, iPos0, p + cmdPos);
    assert tmsBits0 == PackByte(tms[p .. p + cmdPos]);
    var bit := BitOf(tmsBuf[iIndex0], iPos0);
    tmsBit := if bit then Mask(cmdPos) else 0;
    StashBit(tms, p, cmdPos, tmsBits0, bit);
    tmsBits := tmsBits0 | tmsBit;
    iIndex, iPos := NextBit(iIndex0, iPos0);
    same := false;
    if cmdPos + 1 < TMS_LIMIT && cmdPos + 1 < nBits {
      ReadBit(tdiBuf, base, tdi, iIndex, iPos, p + cmdPos + 1);
      same := BitOf(tdiBuf[iIndex], iPos) == tdiFirstState;
    }
  }

  /** Moving a cursor on by one bit (`iBit <<= 1`, or back to 0x01 at the
      next byte after 0x80), as at ftdiJTAG.c:553-559. */
  method NextBit(index0: nat, pos0: nat) returns (index: nat, pos: nat)
    requires pos0 < 8
    ensures pos < 8 && 8 * index + pos == 8 * index0 + pos0 + 1
  {
    if pos0 == 7 {
      index, pos := index0 + 1, 0;
    } else {
      index, pos := index0, pos0 + 1;
    }
  }

  /** `tmsBits` holds the k TMS bits from bit p on, and `tmsBit` is the
      mask of the last of them when it is set. */
  predicate Stashed(tms: seq<bool>, p: nat, k: nat, tmsBits: byte, tmsBit: byte) {
    0 < k <= TMS_LIMIT && p + k <= |tms| &&
    tmsBits == PackByte(tms[p .. p + k]) &&
    tmsBit == (if tms[p + k - 1] then Mask(k - 1) else 0)
  }

  /** One more stashed TMS bit: its mask ORed in. */
  lemma StashBit(tms: seq<bool>, p: nat, k: nat, tmsBits: byte, bit: bool)
    requires p + k < |tms| && k < TMS_LIMIT && tmsBits == PackByte(tms[p .. p + k]) && bit == tms[p + k]
    ensures tmsBits | (if bit then Mask(k) else 0) == PackByte(tms[p .. p + k + 1])
  {
    PackByteExtend(tms, p, k);
  }

  /** Whether the TMS command goes on after k bits of one TDI value. */
  lemma SpanStep(tdi: seq<bool>, p: nat, k: nat, same: bool)
    requires p < |tdi| && 1 <= k <= TmsSpan(tdi, p, 1)
    requires same <==> k < TMS_LIMIT && p + k < |tdi| && tdi[p + k] == tdi[p]
    ensures same ==> k < TmsSpan(tdi, p, 1)
    ensures !same ==> k == TmsSpan(tdi, p, 1)
  {
    SpanFrom(tdi, p, k);
  }

  /** Counting on from any k bits within the span reaches the same span. */
  lemma {:induction false} SpanFrom(tdi: seq<bool>, p: nat, k: nat)
    requires p < |tdi| && 1 <= k <= TmsSpan(tdi, p, 1)
    ensures TmsSpan(tdi, p, k) == TmsSpan(tdi, p, 1)
  {
    if k > 1 {
      SpanFrom(tdi, p, k - 1);
    }
  }

  /** Lines 565-581 of ftdiJTAG.c: the last TMS bit is repeated once
      more, the held TMS level is taken from it, the TMS command goes out
      with the TDI level in bit 7 of its data byte, and its count is
      recorded.  `cmdByte` stops the program when the buffer is full, which
      is `ok == false`. */
  method SendTms(usb: UsbInfo, rxBitcounts: array<nat>, e0: nat, rxWanted0: nat, nBits0: nat,
                 tdiFirstState: bool, tmsBits0: byte, tmsBit: byte, cmdBitcount: nat, ghost g: Group)
    returns (ok: bool, tmsState: bool, e: nat, rxWanted: nat, nBits: nat)
    requires usb.Valid() && rxBitcounts.Length == RX_COUNTS && 3 * e0 <= usb.txCount
    requires WellFormed(g) && cmdBitcount == |g.tms| <= nBits0 && tdiFirstState == g.tdiLevel
    requires tmsBits0 == PackByte(g.tms) && tmsBit == (if LastTms(g) then Mask(|g.tms| - 1) else 0)
    modifies usb`txCount, usb.ioBuf, rxBitcounts
    ensures usb.Valid()
    ensures ok <==> old(usb.txCount) + 3 <= USB_BUFSIZE
    ensures ok ==> && 3 * e <= usb.txCount && usb.Queued() == old(usb.Queued()) + TmsCommand(g)
                   && rxBitcounts[..e] == old(rxBitcounts[..e0]) + [|g.tms|]
                   && rxWanted == rxWanted0 + 1 && tmsState == LastTms(g) && nBits == nBits0 - |g.tms|
  {
    var tmsBits := tmsBits0 | (tmsBit << 1);
    MaskNonZero(cmdBitcount - 1);
    tmsState := tmsBit != 0;
    var data := (if tdiFirstState then 0x80 else 0) | tmsBits;
    TmsByte(g, tmsBits0, tmsBit);
    ok := CmdBytes3(usb, XFER_TMS_BITS, (cmdBitcount - 1) as byte, data);
    e, rxWanted, nBits := e0, rxWanted0, nBits0;
    if ok {
      e := Record(rxBitcounts, e0, cmdBitcount);
      rxWanted := rxWanted + 1;
      nBits := nBits - cmdBitcount;
    }
  }

  /** Three `cmdByte` calls in a row: all three bytes are queued, or the
      buffer fills up on the way. */
  method CmdBytes3(usb: UsbInfo, b0: byte, b1: byte, b2: byte) returns (ok: bool)
    requires usb.Valid()
    modifies usb`txCount, usb.ioBuf
    ensures usb.Valid()
    ensures ok <==> old(usb.txCount) + 3 <= USB_BUFSIZE
    ensures ok ==> usb.Queued() == old(usb.Queued()) + [b0, b1, b2]
  {
    ghost var q0 := usb.Queued();
    ok := CmdByte(usb, b0);
    if !ok {
      return;
    }
    ok := CmdByte(usb, b1);
    if !ok {
      return;
    }
    ok := CmdByte(usb, b2);
    if ok {
      assert usb.Queued() == q0 + [b0, b1, b2];
    }
  }

  /** The TMS level held during the TDI run, read off `tmsBit`
      (ftdiJTAG.c:571): a cursor mask is never zero. */
  lemma MaskNonZero(j: nat)
    requires j < 8
    ensures Mask(j) != 0
  {
  }

  /** `(buf[index] & mask) != 0` for the cursor standing at bit p of a
      piece: reads that bit. */
  method ReadCursor(buf: seq<byte>, base: nat, index: nat, pos: nat, ghost bits: seq<bool>, ghost p: nat)
    returns (b: bool)
    requires Holds(buf, base, bits) && At(base, index, pos, p) && p < |bits|
    ensures b == bits[p]
  {
    ReadBit(buf, base, bits, index, pos, p);
    b := BitOf(buf[index], pos);
  }

  /** Bytes `at .. at + n` of `buf` hold `bits` packed least significant
      bit first, the bits after them clear: how `cmdBuf` holds the TDI bits
      stashed so far (with n one more than their whole bytes) and how
      `tdoBuf` holds the TDO bits decoded so far. */
  predicate Written(buf: seq<byte>, at: nat, bits: seq<bool>, n: nat) {
    at + n <= |buf| && |bits| <= 8 * n &&
    forall i {:trigger BitAt(buf, at, i)} :: 0 <= i < 8 * n ==> at + i / 8 < |buf| && BitAt(buf, at, i) == (i < |bits| && bits[i])
  }

  /** ORing the cursor mask into the byte under the cursor (byte q,
      position r) when the bit is set appends the bit. */
  lemma SetBit(buf: seq<byte>, at: nat, bits: seq<bool>, n: nat, q: nat, r: nat, b: bool, after: seq<byte>)
    requires Written(buf, at, bits, n) && |bits| == 8 * q + r && r < 8 && q < n
    requires after == if b then buf[at + q := buf[at + q] | Mask(r)] else buf
    ensures Written(after, at, bits + [b], n)
  {
    var s := bits + [b];
    forall i | 0 <= i < 8 * n
      ensures at + i / 8 < |after| && BitAt(after, at, i) == (i < |s| && s[i])
    {
      assert BitAt(buf, at, i) == (i < |bits| && bits[i]);
      var k, j := i / 8, i % 8;
      DivMod8(k, j);
      if k == q {
        DivMod8(q, r);
        if b {
          OrMask(buf[at + q], j, r);
        }
      }
    }
  }

  /** Clearing the byte after the written ones makes room for eight more
      bits. */
  lemma NewByte(buf: seq<byte>, at: nat, bits: seq<bool>, n: nat, after: seq<byte>)
    requires Written(buf, at, bits, n) && at + n < |buf| && after == buf[at + n := 0]
    ensures Written(after, at, bits, n + 1)
  {
    forall i | 0 <= i < 8 * (n + 1)
      ensures at + i / 8 < |after| && BitAt(after, at, i) == (i < |bits| && bits[i])
    {
      var k, j := i / 8, i % 8;
      DivMod8(k, j);
      if k < n {
        assert BitAt(buf, at, i) == (i < |bits| && bits[i]);
      } else {
        ClearBit(j);
      }
    }
  }

  lemma ClearBit(j: nat)
    requires j < 8
    ensures !BitOf(0, j)
  {
  }

  /** Written bits read back as the packed stream. */
  lemma WrittenPack(buf: seq<byte>, at: nat, bits: seq<bool>, n: nat)
    requires Written(buf, at, bits, n) && (|bits| + 7) / 8 <= n
    ensures buf[at .. at + (|bits| + 7) / 8] == Pack(bits)
  {
    var m := (|bits| + 7) / 8;
    PackLength(bits);
    forall k | 0 <= k < m
      ensures buf[at + k] == Pack(bits)[k]
    {
      WrittenByte(buf, at, bits, n, k);
    }
  }

  lemma WrittenByte(buf: seq<byte>, at: nat, bits: seq<bool>, n: nat, k: nat)
    requires Written(buf, at, bits, n) && k < (|bits| + 7) / 8 <= n
    ensures k < |Pack(bits)| && buf[at + k] == Pack(bits)[k]
  {
    PackLength(bits);
    assert 8 * k < |bits|;
    PackAt(bits, k);
    var c := Chunk(bits, k);
    forall j | 0 <= j < 8
      ensures BitOf(buf[at + k], j) == BitOf(PackByte(c), j)
    {
      DivMod8(k, j);
      assert BitAt(buf, at, 8 * k + j) == (8 * k + j < |bits| && bits[8 * k + j]);
      PackByteBit(c, j);
      ChunkBit(bits, k, j);
    }
    BitsDetermineByte(buf[at + k], PackByte(c));
  }

  /** One more bit moves a bit count's cursor one position on, into the
      next byte after the eighth position. */
  lemma NextCount(n: nat)
    ensures n == 8 * (n / 8) + n % 8 && n % 8 < 8
    ensures n % 8 < 7 ==> (n + 1) / 8 == n / 8 && (n + 1) % 8 == n % 8 + 1
    ensures n % 8 == 7 ==> (n + 1) / 8 == n / 8 + 1 && (n + 1) % 8 == 0
  {
    var q, r := n / 8, n % 8;
    DivMod8(q, r);
    if r < 7 {
      DivMod8(q, r + 1);
    } else {
      DivMod8(q + 1, 0);
    }
  }

  /** Lines 588-599 of ftdiJTAG.c: the TDI bit is ORed into `cmdBuf` at
      the `cmdBit` cursor, which then moves on, clearing each new byte. */
  method StashTdiBit(cmdBuf: array<byte>, cmdIndex0: nat, cmdPos0: nat, b: bool, ghost bits: seq<bool>)
    returns (cmdIndex: nat, cmdPos: nat)
    requires Written(cmdBuf[..], 0, bits, cmdIndex0 + 1) && |bits| == 8 * cmdIndex0 + cmdPos0 && cmdPos0 < 8
    requires cmdIndex0 + 1 < cmdBuf.Length
    modifies cmdBuf
    ensures Written(cmdBuf[..], 0, bits + [b], cmdIndex + 1) && |bits| + 1 == 8 * cmdIndex + cmdPos && cmdPos < 8
    ensures cmdIndex <= cmdIndex0 + 1
  {
    ghost var buf := cmdBuf[..];
    if b {
      cmdBuf[cmdIndex0] := cmdBuf[cmdIndex0] | Mask(cmdPos0);
    }
    SetBit(buf, 0, bits, cmdIndex0 + 1, cmdIndex0, cmdPos0, b, cmdBuf[..]);
    if cmdPos0 == 7 {
      cmdIndex, cmdPos := cmdIndex0 + 1, 0;
      ghost var mid := cmdBuf[..];
      cmdBuf[cmdIndex] := 0;
      NewByte(mid, 0, bits + [b], cmdIndex, cmdBuf[..]);
    } else {
      cmdIndex, cmdPos := cmdIndex0, cmdPos0 + 1;
    }
  }

  /** The test of the `while` at ftdiJTAG.c:587: bits are left and the TMS
      bit under the cursor still has the held level. */
  method HoldsOn(tmsBuf: seq<byte>, base: nat, nBits: nat, iIndex: nat, iPos: nat, tmsState: bool,
                 ghost tms: seq<bool>, ghost q: nat)
    returns (more: bool)
    requires Holds(tmsBuf, base, tms) && q <= |tms| && nBits == |tms| - q && At(base, iIndex, iPos, q)
    ensures more <==> q < |tms| && tms[q] == tmsState
  {
    more := false;
    if nBits != 0 {
      var t := ReadCursor(tmsBuf, base, iIndex, iPos, tms, q);
      more := t == tmsState;
    }
  }

  /** The loop of ftdiJTAG.c:583-605: while TMS keeps the level `tmsState`,
      the TDI bits are stashed into `cmdBuf` at the `cmdBit` cursor (byte
      `cmdIndex`, position `cmdPos`).  It stashes the run of the group. */
  method StashTdi(tmsBuf: seq<byte>, tdiBuf: seq<byte>, base: nat, cmdBuf: array<byte>, nBits0: nat,
                  iIndex0: nat, iPos0: nat, tmsState: bool, ghost tms: seq<bool>, ghost tdi: seq<bool>, ghost p: nat)
    returns (cmdBitcount: nat, cmdIndex: nat, cmdPos: nat, nBits: nat, iIndex: nat, iPos: nat)
    requires Holds(tmsBuf, base, tms) && Holds(tdiBuf, base, tdi) && |tms| == |tdi|
    requires p <= |tms| <= 8 * USB_SHIFT_LIMIT && nBits0 == |tms| - p && At(base, iIndex0, iPos0, p)
    requires cmdBuf.Length == USB_BUFSIZE
    modifies cmdBuf
    ensures HeldRun(tms, p, tmsState, cmdBitcount) && nBits == nBits0 - cmdBitcount
    ensures Written(cmdBuf[..], 0, tdi[p .. p + cmdBitcount], cmdIndex + 1)
    ensures cmdBitcount == 8 * cmdIndex + cmdPos && cmdPos < 8
    ensures At(base, iIndex, iPos, p + cmdBitcount)
  {
    cmdBitcount, cmdIndex, cmdPos, nBits, iIndex, iPos := 0, 0, 0, nBits0, iIndex0, iPos0;
    ghost var buf := cmdBuf[..];
    ghost var run: seq<bool> := [];
    cmdBuf[0] := 0;
    EmptyWritten(buf, cmdBuf[..], run);
    var more := HoldsOn(tmsBuf, base, nBits, iIndex, iPos, tmsState, tms, p);
    while more
      invariant RunState(tms, tdi, p, tmsState, cmdBitcount, nBits, run, cmdIndex, cmdPos)
      invariant At(base, iIndex, iPos, p + cmdBitcount)
      invariant Written(cmdBuf[..], 0, run, cmdIndex + 1)
      invariant more <==> p + cmdBitcount < |tms| && tms[p + cmdBitcount] == tmsState
      decreases nBits
    {
      cmdBitcount, cmdIndex, cmdPos, nBits, iIndex, iPos, more, run :=
        StashTdiNext(tmsBuf, tdiBuf, base, cmdBuf, cmdBitcount, cmdIndex, cmdPos, nBits, iIndex, iPos, tmsState, tms, tdi, p, run);
    }
  }

  /** The state of the loop of ftdiJTAG.c:587-605 after k bits: `run` is
      what has been stashed, `nBits` what is left, and the run of the held
      TMS level goes on for as long as the bits from p + k on keep it. */
  ghost predicate RunState(tms: seq<bool>, tdi: seq<bool>, p: nat, level: bool, k: nat, nBits: nat,
                           run: seq<bool>, cmdIndex: nat, cmdPos: nat) {
    |tms| == |tdi| && p + k <= |tms| && nBits == |tms| - p - k && run == tdi[p .. p + k] &&
    k == 8 * cmdIndex + cmdPos && cmdPos < 8 &&
    forall i :: p <= i < p + k ==> tms[i] == level
  }

  /** The m bits from q on have TMS `level` and the bit after them, if
      there is one, does not: m is the length of the TDI run at q. */
  ghost predicate HeldRun(tms: seq<bool>, q: nat, level: bool, m: nat) {
    && q + m <= |tms|
    && (forall i :: q <= i < q + m ==> tms[i] == level)
    && (q + m == |tms| || tms[q + m] != level)
  }

  /** `HeldRun` pins the run: it holds for exactly one length, the one
      `HoldSpan` counts. */
  lemma {:induction false} HeldRunSpan(tms: seq<bool>, q: nat, level: bool, m: nat)
    requires q <= |tms|
    ensures HeldRun(tms, q, level, m) <==> m == HoldSpan(tms, q, level)
    decreases |tms| - q
  {
    if q < |tms| && tms[q] == level && m > 0 {
      HeldRunSpan(tms, q + 1, level, m - 1);
      if HeldRun(tms, q + 1, level, m - 1) {
        assert HeldRun(tms, q, level, m);
      }
    } else if m > 0 {
      assert !HeldRun(tms, q, level, m) by { assert q + m > |tms| || tms[q] != level; }
    }
  }

  /** One turn of the loop of ftdiJTAG.c:587-605: the TDI bit under the
      `iBit` cursor is stashed at the `cmdBit` cursor, both cursors move
      on, and the loop test is evaluated again. */
  method StashTdiNext(tmsBuf: seq<byte>, tdiBuf: seq<byte>, base: nat, cmdBuf: array<byte>,
                      k: nat, cmdIndex0: nat, cmdPos0: nat, nBits0: nat, iIndex0: nat, iPos0: nat, tmsState: bool,
                      ghost tms: seq<bool>, ghost tdi: seq<bool>, ghost p: nat, ghost run0: seq<bool>)
    returns (cmdBitcount: nat, cmdIndex: nat, cmdPos: nat, nBits: nat, iIndex: nat, iPos: nat, more: bool, ghost run: seq<bool>)
    requires Holds(tmsBuf, base, tms) && Holds(tdiBuf, base, tdi)
    requires |tms| <= 8 * USB_SHIFT_LIMIT && cmdBuf.Length == USB_BUFSIZE
    requires RunState(tms, tdi, p, tmsState, k, nBits0, run0, cmdIndex0, cmdPos0)
    requires At(base, iIndex0, iPos0, p + k) && Written(cmdBuf[..], 0, run0, cmdIndex0 + 1)
    requires p + k < |tms| && tms[p + k] == tmsState
    modifies cmdBuf
    ensures RunState(tms, tdi, p, tmsState, cmdBitcount, nBits, run, cmdIndex, cmdPos)
    ensures At(base, iIndex, iPos, p + cmdBitcount)
    ensures Written(cmdBuf[..], 0, run, cmdIndex + 1)
    ensures more <==> p + cmdBitcount < |tms| && tms[p + cmdBitcount] == tmsState
    ensures nBits < nBits0
  {
    var b := ReadCursor(tdiBuf, base, iIndex0, iPos0, tdi, p + k);
    cmdIndex, cmdPos := StashTdiBit(cmdBuf, cmdIndex0, cmdPos0, b, run0);
    iIndex, iPos := NextBit(iIndex0, iPos0);
    SliceSnoc(tdi, p, p + k);
    run := run0 + [b];
    cmdBitcount, nBits := k + 1, nBits0 - 1;
    more := HoldsOn(tmsBuf, base, nBits, iIndex, iPos, tmsState, tms, p + cmdBitcount);
  }

  /** A cleared first byte holds no bits. */
  lemma EmptyWritten(buf: seq<byte>, after: seq<byte>, none: seq<bool>)
    requires |buf| > 0 && after == buf[0 := 0] && none == []
    ensures Written(after, 0, none, 1)
  {
    forall i | 0 <= i < 8
      ensures 0 + i / 8 < |after| && BitAt(after, 0, i) == (i < |none| && none[i])
    {
      DivMod8(0, i);
      ClearBit(i);
    }
  }

  lemma SliceSnoc<T>(s: seq<T>, p: nat, q: nat)
    requires p <= q < |s|
    ensures s[p .. q] + [s[q]] == s[p .. q + 1]
  {
  }

  /** The `for` loop of ftdiJTAG.c:626-628: the first n bytes of `cmdBuf`
      are queued one by one. */
  method QueueBytes(usb: UsbInfo, cmdBuf: array<byte>, n: nat) returns (ok: bool)
    requires usb.Valid() && n <= cmdBuf.Length && cmdBuf != usb.ioBuf
    modifies usb`txCount, usb.ioBuf
    ensures usb.Valid()
    ensures ok <==> old(usb.txCount) + n <= USB_BUFSIZE
    ensures ok ==> usb.Queued() == old(usb.Queued()) + cmdBuf[..n]
  {
    ghost var q0 := usb.Queued();
    ok := true;
    for i := 0 to n
      invariant usb.Valid() && usb.txCount == old(usb.txCount) + i
      invariant usb.Queued() == q0 + cmdBuf[..i]
    {
      ok := CmdByte(usb, cmdBuf[i]);
      if !ok {
        return;
      }
      assert cmdBuf[..i + 1] == cmdBuf[..i] + [cmdBuf[i]];
    }
  }

  /** Lines 612-636 of ftdiJTAG.c after the count is recorded: the whole
      bytes of the stashed run go out in one byte-mode command, the leftover
      bits in one bit-mode command, and `rxWanted` grows by one response
      byte for each whole byte and one for the leftover bits. */
  method SendTdi(usb: UsbInfo, cmdBuf: array<byte>, cmdBitcount0: nat, rxWanted0: nat,
                 ghost run: seq<bool>, ghost q: nat, ghost r: nat)
    returns (ok: bool, rxWanted: nat)
    requires usb.Valid() && cmdBuf != usb.ioBuf && q < cmdBuf.Length
    requires Written(cmdBuf[..], 0, run, q + 1) && |run| == 8 * q + r && r < 8
    requires cmdBitcount0 == |run| > 0
    modifies usb`txCount, usb.ioBuf
    ensures usb.Valid()
    ensures ok <==> old(usb.txCount) + |TdiCommands(run)| <= USB_BUFSIZE
    ensures ok ==> usb.Queued() == old(usb.Queued()) + TdiCommands(run)
    ensures ok ==> rxWanted == rxWanted0 + EntryBytes(|run|)
  {
    ghost var q0 := usb.Queued();
    ghost var whole, tail := run[..8 * q], run[8 * q ..];
    var cmdBytes := cmdBitcount0 / 8;
    var cmdBitcount := cmdBitcount0;
    DivMod8(q, r);
    TdiParts(cmdBuf[..], run, q, r);
    TdiCommandsLength(run);
    rxWanted := rxWanted0;
    ok := true;
    if cmdBitcount >= 8 {
      rxWanted := rxWanted + cmdBytes;
      cmdBitcount := cmdBitcount - cmdBytes * 8;
      ok := SendTdiBytes(usb, cmdBuf, cmdBytes, whole);
      if !ok {
        return;
      }
    }
    ghost var q1 := usb.Queued();
    if cmdBitcount != 0 {
      rxWanted := rxWanted + 1;
      ok := SendTdiBits(usb, cmdBitcount, cmdBuf[cmdBytes], tail);
    }
    if ok {
      QueueJoin(q0, ByteCommand(whole, q), BitCommand(tail), q1, usb.Queued());
    }
  }

  /** Lines 619-628 of ftdiJTAG.c: the byte-mode command for the whole
      bytes stashed in `cmdBuf`; its count, minus one, is stored low byte
      first, each part cut to a byte as `cmdByte` stores it. */
  method SendTdiBytes(usb: UsbInfo, cmdBuf: array<byte>, cmdBytes: nat, ghost whole: seq<bool>) returns (ok: bool)
    requires usb.Valid() && cmdBuf != usb.ioBuf && 0 < cmdBytes <= cmdBuf.Length
    requires |whole| == 8 * cmdBytes && cmdBuf[..cmdBytes] == Pack(whole)
    modifies usb`txCount, usb.ioBuf
    ensures usb.Valid()
    ensures ok <==> old(usb.txCount) + 3 + cmdBytes <= USB_BUFSIZE
    ensures ok ==> usb.Queued() == old(usb.Queued()) + ByteCommand(whole, cmdBytes)
  {
    ghost var q0 := usb.Queued();
    var i := cmdBytes - 1;
    ghost var head := [XFER_TDI_BYTES, (i % 256) as byte, (i / 256 % 256) as byte];
    ok := CmdBytes3(usb, XFER_TDI_BYTES, (i % 256) as byte, (i / 256 % 256) as byte);
    if ok {
      ok := QueueBytes(usb, cmdBuf, cmdBytes);
      if ok {
        ByteCommandOf(whole, cmdBytes, cmdBuf[..cmdBytes], head);
        Assoc(q0, head, cmdBuf[..cmdBytes]);
      }
    }
  }

  lemma ByteCommandOf(whole: seq<bool>, k: nat, bytes: seq<byte>, head: seq<byte>)
    requires |whole| == 8 * k && k > 0 && bytes == Pack(whole)
    requires head == [XFER_TDI_BYTES, ((k - 1) % 256) as byte, ((k - 1) / 256 % 256) as byte]
    ensures ByteCommand(whole, k) == head + bytes
  {
  }

  /** Lines 630-635 of ftdiJTAG.c: the bit-mode command for the leftover
      bits, held in byte `cmdBytes` of `cmdBuf`. */
  method SendTdiBits(usb: UsbInfo, cmdBitcount: nat, b: byte, ghost tail: seq<bool>) returns (ok: bool)
    requires usb.Valid() && 0 < cmdBitcount == |tail| < 8 && b == PackByte(tail)
    modifies usb`txCount, usb.ioBuf
    ensures usb.Valid()
    ensures ok <==> old(usb.txCount) + 3 <= USB_BUFSIZE
    ensures ok ==> usb.Queued() == old(usb.Queued()) + BitCommand(tail)
  {
    ok := CmdBytes3(usb, XFER_TDI_BITS, (cmdBitcount - 1) as byte, b);
  }

  /** Queuing two parts in a row, either possibly empty, queues them
      joined. */
  lemma QueueJoin(q0: seq<byte>, a: seq<byte>, b: seq<byte>, q1: seq<byte>, q2: seq<byte>)
    requires (a == [] ==> q1 == q0) && (a != [] ==> q1 == q0 + a)
    requires (b == [] ==> q2 == q1) && (b != [] ==> q2 == q1 + b)
    ensures q2 == q0 + (a + b)
  {
  }

  /** The TDI commands of a run, in terms of the stashed bytes: the
      byte-mode command carries the first q bytes of `cmdBuf`, the bit-mode
      command byte q. */
  lemma TdiParts(buf: seq<byte>, run: seq<bool>, q: nat, r: nat)
    requires Written(buf, 0, run, q + 1) && |run| == 8 * q + r && r < 8
    ensures WholeBytes(|run|) == q
    ensures q > 0 ==> Pack(run[..8 * q]) == buf[..q]
    ensures r > 0 ==> PackByte(run[8 * q ..]) == buf[q]
    ensures EntryBytes(|run|) == q + (if r == 0 then 0 else 1)
  {
    DivMod8(q, r);
    var m := EntryBytes(|run|);
    if r == 0 {
      DivMod8(q, 7);
    } else {
      DivMod8(q + 1, r - 1);
    }
    WrittenPack(buf, 0, run, q + 1);
    PackSplit(run, q, r);
    PackLength(run[..8 * q]);
    assert buf[..q] == buf[0 .. m][..q];
    if r > 0 {
      assert buf[q] == buf[0 .. m][q];
    }
  }

  /** `rxBitcounts[rxBitcountIndex++] = count` (ftdiJTAG.c:579, :618). */
  method Record(rxBitcounts: array<nat>, e0: nat, count: nat) returns (e: nat)
    requires e0 < rxBitcounts.Length
    modifies rxBitcounts
    ensures e == e0 + 1 && rxBitcounts[..e] == old(rxBitcounts[..e0]) + [count]
  {
    rxBitcounts[e0] := count;
    e := e0 + 1;
  }

  /** Lines 545-581 of ftdiJTAG.c: the TMS command of the group at bit p
      is stashed and queued, its bit count recorded and one response byte
      more awaited. */
  method ShiftTms(usb: UsbInfo, tmsBuf: seq<byte>, tdiBuf: seq<byte>, base: nat, rxBitcounts: array<nat>,
                  e0: nat, rxWanted0: nat, nBits0: nat, iIndex0: nat, iPos0: nat,
                  ghost tms: seq<bool>, ghost tdi: seq<bool>, ghost p: nat)
    returns (ok: bool, tmsState: bool, e: nat, rxWanted: nat, nBits: nat, iIndex: nat, iPos: nat)
    requires Holds(tmsBuf, base, tms) && Holds(tdiBuf, base, tdi) && |tms| == |tdi|
    requires p < |tms| && nBits0 == |tms| - p && At(base, iIndex0, iPos0, p)
    requires usb.Valid() && rxBitcounts.Length == RX_COUNTS && 3 * e0 <= usb.txCount
    modifies usb`txCount, usb.ioBuf, rxBitcounts
    ensures usb.Valid()
    ensures ok <==> old(usb.txCount) + 3 <= USB_BUFSIZE
    ensures var g := GroupAt(tms, tdi, p);
            ok ==> && 3 * e <= usb.txCount && usb.Queued() == old(usb.Queued()) + TmsCommand(g)
                   && rxBitcounts[..e] == old(rxBitcounts[..e0]) + [|g.tms|]
                   && rxWanted == rxWanted0 + 1
                   && tmsState == LastTms(g) && nBits == nBits0 - |g.tms|
                   && At(base, iIndex, iPos, p + |g.tms|)
  {
    ghost var g := GroupAt(tms, tdi, p);
    var tdiFirstState, tmsBits, tmsBit, cmdBitcount;
    tdiFirstState, tmsBits, tmsBit, cmdBitcount, iIndex, iPos := StashTms(tmsBuf, tdiBuf, base, nBits0, iIndex0, iPos0, tms, tdi, p);
    assert g.tms == tms[p .. p + cmdBitcount] && LastTms(g) == tms[p + cmdBitcount - 1];
    ok, tmsState, e, rxWanted, nBits := SendTms(usb, rxBitcounts, e0, rxWanted0, nBits0, tdiFirstState, tmsBits, tmsBit, cmdBitcount, g);
  }

  /** Lines 583-637 of ftdiJTAG.c: the TDI bits from bit q on, for as long
      as TMS keeps `tmsState`, are stashed in `cmdBuf`; when there are any,
      their count is recorded and their commands queued. */
  method ShiftRun(usb: UsbInfo, tmsBuf: seq<byte>, tdiBuf: seq<byte>, base: nat, cmdBuf: array<byte>,
                  rxBitcounts: array<nat>, e0: nat, rxWanted0: nat, nBits0: nat, iIndex0: nat, iPos0: nat,
                  tmsState: bool, ghost tms: seq<bool>, ghost tdi: seq<bool>, ghost q: nat, ghost m: nat, ghost run: seq<bool>)
    returns (ok: bool, e: nat, rxWanted: nat, nBits: nat, iIndex: nat, iPos: nat)
    requires Holds(tmsBuf, base, tms) && Holds(tdiBuf, base, tdi) && |tms| == |tdi|
    requires q <= |tms| <= 8 * USB_SHIFT_LIMIT && nBits0 == |tms| - q && At(base, iIndex0, iPos0, q)
    requires HeldRun(tms, q, tmsState, m) && run == tdi[q .. q + m]
    requires usb.Valid() && cmdBuf.Length == USB_BUFSIZE && cmdBuf != usb.ioBuf
    requires rxBitcounts.Length == RX_COUNTS && 3 * e0 <= usb.txCount
    modifies usb`txCount, usb.ioBuf, cmdBuf, rxBitcounts
    ensures usb.Valid()
    ensures ok <==> old(usb.txCount) + |TdiCommands(run)| <= USB_BUFSIZE
    ensures ok ==> && 3 * e <= usb.txCount && usb.Queued() == old(usb.Queued()) + TdiCommands(run)
                   && rxBitcounts[..e] == old(rxBitcounts[..e0]) + RunCounts(m)
                   && rxWanted == rxWanted0 + RunWanted(m)
                   && nBits == nBits0 - m && At(base, iIndex, iPos, q + m)
  {
    var cmdBitcount, cmdIndex, cmdPos;
    cmdBitcount, cmdIndex, cmdPos, nBits, iIndex, iPos := StashTdi(tmsBuf, tdiBuf, base, cmdBuf, nBits0, iIndex0, iPos0, tmsState, tms, tdi, q);
    HeldRunSpan(tms, q, tmsState, m);
    HeldRunSpan(tms, q, tmsState, cmdBitcount);
    assert tdi[q .. q + cmdBitcount] == run;
    ok, e, rxWanted := SendRun(usb, cmdBuf, rxBitcounts, e0, rxWanted0, cmdBitcount, run, cmdIndex, cmdPos);
  }

  /** Lines 612-637 of ftdiJTAG.c: a non-empty stashed run has its count
      recorded and its commands queued. */
  method SendRun(usb: UsbInfo, cmdBuf: array<byte>, rxBitcounts: array<nat>, e0: nat, rxWanted0: nat, cmdBitcount: nat,
                 ghost run: seq<bool>, ghost cmdIndex: nat, ghost cmdPos: nat)
    returns (ok: bool, e: nat, rxWanted: nat)
    requires usb.Valid() && cmdBuf.Length == USB_BUFSIZE && cmdBuf != usb.ioBuf
    requires rxBitcounts.Length == RX_COUNTS && 3 * e0 <= usb.txCount
    requires Written(cmdBuf[..], 0, run, cmdIndex + 1) && cmdBitcount == |run| == 8 * cmdIndex + cmdPos && cmdPos < 8
    modifies usb`txCount, usb.ioBuf, rxBitcounts
    ensures usb.Valid()
    ensures ok <==> old(usb.txCount) + |TdiCommands(run)| <= USB_BUFSIZE
    ensures ok ==> && 3 * e <= usb.txCount && usb.Queued() == old(usb.Queued()) + TdiCommands(run)
                   && rxBitcounts[..e] == old(rxBitcounts[..e0]) + RunCounts(|run|)
                   && rxWanted == rxWanted0 + RunWanted(|run|)
  {
    e, rxWanted := e0, rxWanted0;
    ok := true;
    if cmdBitcount > 0 {
      e := Record(rxBitcounts, e0, cmdBitcount);
      TdiCommandsLength(run);
      ok, rxWanted := SendTdi(usb, cmdBuf, cmdBitcount, rxWanted0, run, cmdIndex, cmdPos);
    } else {
      EmptyRun(run);
    }
  }

  /** The count recorded for a TDI run of m bits: none for an empty run. */
  function RunCounts(m: nat): (counts: seq<nat>)
    ensures m == 0 ==> counts == []
    ensures m > 0 ==> counts == [m]
  {
    if m > 0 then [m] else []
  }

  /** The response bytes awaited for a TDI run of m bits. */
  function RunWanted(m: nat): (n: nat)
    ensures m == 0 ==> n == 0
    ensures m > 0 ==> n == EntryBytes(m)
  {
    if m > 0 then EntryBytes(m) else 0
  }

  /** An empty run queues nothing. */
  lemma EmptyRun(run: seq<bool>)
    requires run == []
    ensures TdiCommands(run) == []
  {
  }

  /** One pass of the outer loop of `shiftChunk` (ftdiJTAG.c:541-638): the
      group at bit p is queued, its counts recorded and its response bytes
      awaited; or `cmdByte` finds the buffer full on the way. */
  method ShiftGroup(usb: UsbInfo, tmsBuf: seq<byte>, tdiBuf: seq<byte>, base: nat, cmdBuf: array<byte>,
                    rxBitcounts: array<nat>, e0: nat, rxWanted0: nat, nBits0: nat, iIndex0: nat, iPos0: nat,
                    ghost tms: seq<bool>, ghost tdi: seq<bool>, ghost p: nat, ghost g: Group)
    returns (ok: bool, e: nat, rxWanted: nat, nBits: nat, iIndex: nat, iPos: nat)
    requires Holds(tmsBuf, base, tms) && Holds(tdiBuf, base, tdi) && |tms| == |tdi|
    requires p < |tms| <= 8 * USB_SHIFT_LIMIT && nBits0 == |tms| - p && At(base, iIndex0, iPos0, p)
    requires g == GroupAt(tms, tdi, p)
    requires usb.Valid() && cmdBuf.Length == USB_BUFSIZE && cmdBuf != usb.ioBuf
    requires rxBitcounts.Length == RX_COUNTS && 3 * e0 <= usb.txCount
    modifies usb`txCount, usb.ioBuf, cmdBuf, rxBitcounts
    ensures usb.Valid()
    ensures ok <==> old(usb.txCount) + 3 + |TdiCommands(g.run)| <= USB_BUFSIZE
    ensures ok ==> && 3 * e <= usb.txCount && usb.Queued() == old(usb.Queued()) + (TmsCommand(g) + TdiCommands(g.run))
                   && rxBitcounts[..e] == old(rxBitcounts[..e0]) + ([|g.tms|] + RunCounts(|g.run|))
                   && rxWanted == rxWanted0 + 1 + RunWanted(|g.run|)
                   && nBits == nBits0 - |g.tms| - |g.run| && At(base, iIndex, iPos, p + |g.tms| + |g.run|)
  {
    ghost var q0, c0 := usb.Queued(), rxBitcounts[..e0];
    var tmsState;
    ok, tmsState, e, rxWanted, nBits, iIndex, iPos := ShiftTms(usb, tmsBuf, tdiBuf, base, rxBitcounts, e0, rxWanted0, nBits0, iIndex0, iPos0, tms, tdi, p);
    if !ok {
      return;
    }
    ghost var q := GroupRunAt(tms, tdi, p, g, tmsState);
    ok, e, rxWanted, nBits, iIndex, iPos := ShiftRun(usb, tmsBuf, tdiBuf, base, cmdBuf, rxBitcounts, e, rxWanted, nBits, iIndex, iPos,
                                                     tmsState, tms, tdi, q, |g.run|, g.run);
    if ok {
      Assoc(q0, TmsCommand(g), TdiCommands(g.run));
      Assoc(c0, [|g.tms|], RunCounts(|g.run|));
    }
  }

  /** The commands, counts and response bytes of a group are those of its
      TMS command followed by those of its TDI run. */
  lemma GroupParts(g: Group)
    requires WellFormed(g)
    ensures GroupCommands(g) == TmsCommand(g) + TdiCommands(g.run)
    ensures |GroupCommands(g)| == 3 + |TdiCommands(g.run)|
    ensures GroupCounts(g) == [|g.tms|] + RunCounts(|g.run|)
    ensures RxBytes(GroupCounts(g)) == 1 + RunWanted(|g.run|)
  {
    GroupRxBytes(g, GroupCounts(g));
  }

  lemma GroupRxBytes(g: Group, c: seq<nat>)
    requires WellFormed(g) && c == GroupCounts(g)
    ensures RxBytes(c) == 1 + RunWanted(|g.run|)
  {
    var n, m := |g.tms|, |g.run|;
    DivMod8(1, n - 1);
    assert EntryBytes(n) == 1;
    assert c[0] == n && c[1..] == RunCounts(m);
    if m > 0 {
      assert c[1..][1..] == [];
      assert RxBytes(c[1..]) == EntryBytes(m) + RxBytes([]);
    } else {
      assert RxBytes(c[1..]) == 0;
    }
  }

  /** Where the TDI run of the group at p starts, and that it is the run
      of the last TMS level from there. */
  lemma GroupRunAt(tms: seq<bool>, tdi: seq<bool>, p: nat, g: Group, level: bool) returns (q: nat)
    requires |tms| == |tdi| && p < |tms| && g == GroupAt(tms, tdi, p) && level == LastTms(g)
    ensures q == p + |g.tms| && q + |g.run| == p + Size(g) <= |tms|
    ensures HeldRun(tms, q, level, |g.run|) && g.run == tdi[q .. q + |g.run|]
  {
    q := p + |g.tms|;
    GroupRunFacts(tms, tdi, p);
  }
}
