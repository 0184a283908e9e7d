/** The whole of `shiftChunk` (ftdiJTAG.c:524-675): every group of the
    piece is queued (the outer loop, lines 541-638), the queue is sent and
    the answer read (lines 639-643), and the answer is decoded into
    `tdoBuf` (lines 644-673).  The parts of one pass of the outer loop are
    in module Chunk. */
module Transfer {
  import opened Bits
  import opened Wrappers
  import opened Mpsse
  import opened UsbRead
  import opened Usb
  import opened Chunk
  import Clock

  // ---------------------------------------------------------------------
  // Queueing the groups
  // ---------------------------------------------------------------------

  /** The response bytes of two lists of counts add up. */
  lemma {:induction false} RxBytesAppend(a: seq<nat>, b: seq<nat>)
    ensures RxBytes(a + b) == RxBytes(a) + RxBytes(b)
    decreases |a|
  {
    if a == [] {
      assert a + b == b;
    } else {
      assert (a + b)[1..] == a[1..] + b;
      RxBytesAppend(a[1..], b);
    }
  }

  /** A TDI run is answered with at most as many bytes as are queued for it. */
  lemma RunWantedBound(run: seq<bool>)
    ensures RunWanted(|run|) <= |TdiCommands(run)|
  {
    TdiCommandsLength(run);
    var k := WholeBytes(|run|);
    if |run| > 0 {
      if |run| == 8 * k {
        DivMod8(k, 7);
      } else {
        DivMod8(k + 1, |run| - 8 * k - 1);
      }
    }
  }

  /** The groups from bit p on are the group at p and the groups after
      it, so their commands, counts and response bytes are those of the
      group followed by those of the rest. */
  /** The groups still to be queued once the bits before p are. */
  function ToDo(tms: seq<bool>, tdi: seq<bool>, p: nat): seq<Group>
    requires |tms| == |tdi| && p <= |tms|
  {
    GroupsFrom(tms, tdi, p)
  }

  lemma GroupsFromStep(tms: seq<bool>, tdi: seq<bool>, p: nat, q: nat, g: Group, gs: seq<Group>, rest: seq<Group>)
    requires |tms| == |tdi| && p < |tms| && g == GroupAt(tms, tdi, p) && q == p + |g.tms| + |g.run| <= |tms|
    requires gs == ToDo(tms, tdi, p) && rest == ToDo(tms, tdi, q)
    ensures Commands(gs) == (TmsCommand(g) + TdiCommands(g.run)) + Commands(rest)
    ensures Counts(gs) == ([|g.tms|] + RunCounts(|g.run|)) + Counts(rest)
    ensures RxBytes(Counts(gs)) == 1 + RunWanted(|g.run|) + RxBytes(Counts(rest))
    ensures 1 + RunWanted(|g.run|) <= 3 + |TdiCommands(g.run)|
  {
    assert q == p + Size(g);
    assert gs == [g] + rest;
    ConsParts(gs, g, rest);
    RunWantedBound(g.run);
  }

  lemma ConsParts(gs: seq<Group>, g: Group, rest: seq<Group>)
    requires gs == [g] + rest && WellFormed(g)
    requires forall i :: 0 <= i < |rest| ==> WellFormed(rest[i])
    ensures forall i :: 0 <= i < |gs| ==> WellFormed(gs[i])
    ensures Commands(gs) == (TmsCommand(g) + TdiCommands(g.run)) + Commands(rest)
    ensures Counts(gs) == ([|g.tms|] + RunCounts(|g.run|)) + Counts(rest)
    ensures RxBytes(Counts(gs)) == 1 + RunWanted(|g.run|) + RxBytes(Counts(rest))
  {
    assert gs[0] == g && gs[1..] == rest;
    GroupParts(g);
    RxBytesAppend(GroupCounts(g), Counts(rest));
  }

  /** The outer loop of `shiftChunk` (ftdiJTAG.c:541-638): group after
      group of the piece is queued behind what `ioBuf` already holds, its
      counts recorded in `rxBitcounts` and its response bytes added to
      `rxWanted`.  It fails, as `cmdByte` does, exactly when the commands of
      the piece do not fit into what is left of `ioBuf`. */
  method QueueGroups(usb: UsbInfo, tmsBuf: seq<byte>, tdiBuf: seq<byte>, base: nat, cmdBuf: array<byte>,
                     rxBitcounts: array<nat>, nBits0: nat, ghost tms: seq<bool>, ghost tdi: seq<bool>)
    returns (ok: bool, e: nat, rxWanted: nat)
    requires Holds(tmsBuf, base, tms) && Holds(tdiBuf, base, tdi) && |tms| == |tdi| == nBits0 <= 8 * USB_SHIFT_LIMIT
    requires usb.Valid() && cmdBuf.Length == USB_BUFSIZE && cmdBuf != usb.ioBuf && rxBitcounts.Length == RX_COUNTS
    modifies usb`txCount, usb.ioBuf, cmdBuf, rxBitcounts
    ensures usb.Valid()
    ensures ok <==> old(usb.txCount) + |Commands(Groups(tms, tdi))| <= USB_BUFSIZE
    ensures ok ==> && usb.Queued() == old(usb.Queued()) + Commands(Groups(tms, tdi))
                   && e <= rxBitcounts.Length && rxBitcounts[..e] == Counts(Groups(tms, tdi))
                   && rxWanted == RxBytes(Counts(Groups(tms, tdi))) <= usb.txCount
  {
    ghost var head := usb.Queued();
    ghost var p: nat := 0;
    ghost var gs := Groups(tms, tdi);
    var nBits, iIndex, iPos := nBits0, base, 0;
    e, rxWanted := 0, 0;
    while nBits != 0
      invariant usb.Valid() && p <= |tms| && nBits == |tms| - p && At(base, iIndex, iPos, p)
      invariant gs == ToDo(tms, tdi, p)
      invariant usb.Queued() + Commands(gs) == head + Commands(Groups(tms, tdi))
      invariant 3 * e <= usb.txCount && rxBitcounts[..e] + Counts(gs) == Counts(Groups(tms, tdi))
      invariant rxWanted + RxBytes(Counts(gs)) == RxBytes(Counts(Groups(tms, tdi)))
      invariant rxWanted <= usb.txCount
      decreases nBits
    {
      ghost var g := GroupAt(tms, tdi, p);
      ghost var q0, c0 := usb.Queued(), rxBitcounts[..e];
      ghost var p' := p + |g.tms| + |g.run|;
      ghost var rest := ToDo(tms, tdi, p');
      GroupsFromStep(tms, tdi, p, p', g, gs, rest);
      ok, e, rxWanted, nBits, iIndex, iPos :=
        ShiftGroup(usb, tmsBuf, tdiBuf, base, cmdBuf, rxBitcounts, e, rxWanted, nBits, iIndex, iPos, tms, tdi, p, g);
      if !ok {
        return;
      }
      Assoc(q0, TmsCommand(g) + TdiCommands(g.run), Commands(rest));
      Assoc(c0, [|g.tms|] + RunCounts(|g.run|), Counts(rest));
      p, gs := p', rest;
    }
    ok := true;
    assert gs == [];
    AppendEmpty(usb.Queued());
    AppendEmpty(rxBitcounts[..e]);
  }

  // ---------------------------------------------------------------------
  // Decoding the answer
  // ---------------------------------------------------------------------

  /** The byte, counted from the entry's first, that holds bit t of an
      entry of c bits; after the last bit, the byte after the entry. */
  function CursorByte(c: nat, t: nat): nat
    requires t <= c
  {
    if t == c then EntryBytes(c) else t / 8
  }

  /** The position in its byte of bit t of an entry of c bits; after the
      last bit, 8 (the source's mask has then moved past bit 7). */
  function CursorBit(c: nat, t: nat): nat
    requires t <= c
  {
    if t == c then 8 else SrcPos(c, t)
  }

  /** The `rxBit` cursor of ftdiJTAG.c:647-663 follows `SrcPos`: it starts
      at bit 8 - c of the first byte for an entry of fewer than 8 bits and
      at bit 0 otherwise; after bit 7 it moves to the next byte, at bit 0
      while 8 or more bits are left and at bit 8 - left otherwise. */
  lemma CursorStart(c: nat)
    ensures CursorByte(c, 0) == 0 && CursorBit(c, 0) == if c < 8 then 8 - c else 0
  {
    if c >= 8 {
      DivMod8(c / 8, c % 8);
    }
  }

  lemma CursorStep(c: nat, t: nat)
    requires t < c
    ensures CursorByte(c, t) < EntryBytes(c) && CursorBit(c, t) < 8
    ensures var left := c - t - 1;
            if CursorBit(c, t) == 7
            then CursorByte(c, t + 1) == CursorByte(c, t) + 1 && CursorBit(c, t + 1) == (if left < 8 then 8 - left else 0)
            else CursorByte(c, t + 1) == CursorByte(c, t) && CursorBit(c, t + 1) == CursorBit(c, t) + 1
  {
    var k, r := c / 8, c % 8;
    var w, j := t / 8, t % 8;
    DivMod8(k, r);
    DivMod8(w, j);
    if r == 0 {
      DivMod8(k, 7);
    } else {
      DivMod8(k + 1, r - 1);
    }
    if j < 7 {
      DivMod8(w, j + 1);
    } else {
      DivMod8(w + 1, 0);
    }
  }

  /** Bytes `base + Begun(idx, pos)` on are not yet touched by a TDO cursor
      at byte `idx`, bit `pos`. */
  function Begun(idx: nat, pos: nat): nat {
    if pos == 0 then idx else idx + 1
  }

  /** The TDO cursor (byte `idx` from `base`, bit `pos`) stands after the
      bits `out`, which `buf` holds from byte `base` on, and every byte
      outside the ones begun is as it was (`before`). */
  ghost predicate TdoState(buf: seq<byte>, before: seq<byte>, base: nat, out: seq<bool>, idx: nat, pos: nat) {
    && |out| == 8 * idx + pos && pos < 8
    && Written(buf, base, out, Begun(idx, pos))
    && |buf| == |before|
    && buf[..base] == before[..base]
    && buf[base + Begun(idx, pos)..] == before[base + Begun(idx, pos)..]
  }

  /** Lines 664-671 of ftdiJTAG.c: bit b is stored under the TDO cursor,
      which moves on.  A byte is cleared when its first bit is stored; the
      source clears it ahead of time instead (see `TdoClearsAsWritten`). */
  method PutTdoBit(tdoBuf: array<byte>, base: nat, tdoIndex0: nat, tdoPos0: nat, b: bool,
                   ghost before: seq<byte>, ghost out0: seq<bool>, ghost cap: nat)
    returns (tdoIndex: nat, tdoPos: nat)
    requires TdoState(tdoBuf[..], before, base, out0, tdoIndex0, tdoPos0)
    requires |out0| < 8 * cap && base + cap <= tdoBuf.Length
    modifies tdoBuf
    ensures TdoState(tdoBuf[..], before, base, out0 + [b], tdoIndex, tdoPos)
  {
    ghost var start := tdoBuf[..];
    ghost var n := Begun(tdoIndex0, tdoPos0);
    if tdoPos0 == 0 {
      tdoBuf[base + tdoIndex0] := 0;
      NewByte(start, base, out0, n, tdoBuf[..]);
      KeptAround(start, tdoBuf[..], before, base, n, tdoIndex0, n + 1, 0);
      n := n + 1;
    }
    ghost var mid := tdoBuf[..];
    if b {
      var x := tdoBuf[base + tdoIndex0] | Mask(tdoPos0);
      tdoBuf[base + tdoIndex0] := x;
      KeptAround(mid, tdoBuf[..], before, base, n, tdoIndex0, n, x);
    }
    SetBit(mid, base, out0, n, tdoIndex0, tdoPos0, b, tdoBuf[..]);
    tdoIndex, tdoPos := NextBit(tdoIndex0, tdoPos0);
    TdoStateOf(tdoBuf[..], before, base, out0 + [b], tdoIndex, tdoPos, n);
  }

  lemma TdoStateOf(buf: seq<byte>, before: seq<byte>, base: nat, out: seq<bool>, idx: nat, pos: nat, n: nat)
    requires |out| == 8 * idx + pos && pos < 8 && n == Begun(idx, pos)
    requires Written(buf, base, out, n) && |buf| == |before|
    requires buf[..base] == before[..base] && buf[base + n..] == before[base + n..]
    ensures TdoState(buf, before, base, out, idx, pos)
  {
  }

  /** Storing into byte `base + k`, below `base + n`, keeps the bytes
      outside `base .. base + n`. */
  lemma KeptAround(start: seq<byte>, now: seq<byte>, before: seq<byte>, base: nat, n0: nat, k: nat, n: nat, v: byte)
    requires |start| == |before| && n0 <= n && k < n && base + n <= |start|
    requires start[..base] == before[..base] && start[base + n0..] == before[base + n0..]
    requires now == start[base + k := v]
    ensures |now| == |before| && now[..base] == before[..base] && now[base + n..] == before[base + n..]
  {
    forall j | 0 <= j < base ensures now[j] == before[j] {
      assert start[..base][j] == before[..base][j];
    }
    forall j | base + n <= j < |now| ensures now[j] == before[j] {
      assert start[base + n0..][j - base - n0] == before[base + n0..][j - base - n0];
    }
  }

  /** One more bit of an entry: the bits decoded so far grow by it. */
  lemma Extend(out0: seq<bool>, e: seq<bool>, t: nat, out: seq<bool>, b: bool)
    requires t < |e| && out == out0 + e[..t] && b == e[t]
    ensures out + [b] == out0 + e[..t + 1]
  {
    assert e[..t + 1] == e[..t] + [e[t]];
  }

  /** The inner loop of ftdiJTAG.c:645-672 for an entry of c bits, whose
      response bytes `bytes` start at `rxIndex0` in `rxBuf`: the entry's
      bits, read as `EntryBits` says, are stored at the TDO cursor. */
  method DecodeEntry(rxBuf: array<byte>, rxIndex0: nat, c: nat, tdoBuf: array<byte>, base: nat,
                     tdoIndex0: nat, tdoPos0: nat, ghost bytes: seq<byte>, ghost before: seq<byte>,
                     ghost out0: seq<bool>, ghost cap: nat)
    returns (rxIndex: nat, tdoIndex: nat, tdoPos: nat, ghost out: seq<bool>)
    requires rxBuf != tdoBuf
    requires |bytes| == EntryBytes(c) && rxIndex0 + |bytes| <= rxBuf.Length
    requires rxBuf[rxIndex0 .. rxIndex0 + |bytes|] == bytes
    requires TdoState(tdoBuf[..], before, base, out0, tdoIndex0, tdoPos0)
    requires |out0| + c <= 8 * cap && base + cap <= tdoBuf.Length
    modifies tdoBuf
    ensures rxIndex == rxIndex0 + |bytes| && out == out0 + EntryBits(c, bytes)
    ensures TdoState(tdoBuf[..], before, base, out, tdoIndex, tdoPos)
  {
    ghost var entry := EntryBits(c, bytes);
    var rxPos: nat := if c < 8 then 8 - c else 0;
    var left := c;
    rxIndex, tdoIndex, tdoPos, out := rxIndex0, tdoIndex0, tdoPos0, out0;
    ghost var t: nat := 0;
    CursorStart(c);
    while left > 0
      invariant t + left == c && rxIndex == rxIndex0 + CursorByte(c, t) && rxPos == CursorBit(c, t)
      invariant out == out0 + entry[..t]
      invariant TdoState(tdoBuf[..], before, base, out, tdoIndex, tdoPos)
      decreases left
    {
      left := left - 1;
      CursorStep(c, t);
      assert rxBuf[rxIndex] == bytes[t / 8];
      var b := BitOf(rxBuf[rxIndex], rxPos);
      Extend(out0, entry, t, out, b);
      tdoIndex, tdoPos := PutTdoBit(tdoBuf, base, tdoIndex, tdoPos, b, before, out, cap);
      out, t := out + [b], t + 1;
      if rxPos == 7 {
        rxPos := if left < 8 then 8 - left else 0;
        rxIndex := rxIndex + 1;
      } else {
        rxPos := rxPos + 1;
      }
    }
    assert entry[..c] == entry;
  }

  /** A stream of `total` bits fits in ceil(total/8) bytes, and those fit
      in the buffer from byte `base` on. */
  lemma CapFits(base: nat, total: nat, len: nat)
    requires 8 * base + total <= 8 * len
    ensures total <= 8 * ((total + 7) / 8) && base + (total + 7) / 8 <= len
  {
    var q, r := (total + 7) / 8, (total + 7) % 8;
    assert total + 7 == 8 * q + r;
  }

  /** A cursor at byte idx, bit pos has begun ceil(n/8) bytes after n bits. */
  lemma BegunBytes(idx: nat, pos: nat)
    requires pos < 8
    ensures Begun(idx, pos) == (8 * idx + pos + 7) / 8
  {
    if pos == 0 {
      DivMod8(idx, 7);
    } else {
      DivMod8(idx + 1, pos - 1);
    }
  }

  /** The answer to the entries still to decode starts with the bytes of
      the first of them. */
  lemma EntrySplit(rest: seq<nat>, later: seq<byte>) returns (first: seq<byte>, next: seq<byte>)
    requires rest != [] && |later| == RxBytes(rest)
    ensures later == first + next && |first| == EntryBytes(rest[0]) && |next| == RxBytes(rest[1..])
    ensures Unpack(rest, later) == EntryBits(rest[0], first) + Unpack(rest[1..], next)
    ensures Sum(rest) == rest[0] + Sum(rest[1..])
  {
    var eb := EntryBytes(rest[0]);
    first, next := later[..eb], later[eb..];
    Halves(later, eb);
    UnpackCons(rest, later, first, next);
  }

  /** The bytes of the next entry lie in the receive buffer where the
      entries before it ended. */
  lemma EntryAt(buf: seq<byte>, rx: seq<byte>, k: nat, later: seq<byte>, first: seq<byte>, next: seq<byte>)
    requires |rx| <= |buf| && buf[..|rx|] == rx && k <= |rx| && later == rx[k..] && later == first + next
    ensures k + |first| <= |rx| && buf[k .. k + |first|] == first && next == rx[k + |first| ..]
  {
    forall j | 0 <= j < |first| ensures buf[k .. k + |first|][j] == first[j] {
      assert buf[..|rx|][k + j] == rx[k + j];
      assert later[j] == first[j];
    }
    DropFront(first, next);
    DropDrop(rx, k, |first|);
  }

  /** The entries from i on (`rest`) are still to decode, from byte
      `rxIndex` of the answer on (`later`), and `out` is the TDO stream the
      entries before i decode to. */
  ghost predicate Pending(counts: seq<nat>, rx: seq<byte>, i: nat, rxIndex: nat,
                          rest: seq<nat>, later: seq<byte>, out: seq<bool>) {
    && |rx| == RxBytes(counts) && i <= |counts| && rest == counts[i..]
    && rxIndex <= |rx| && later == rx[rxIndex..] && |later| == RxBytes(rest)
    && |out| + Sum(rest) == Sum(counts)
    && Unpack(counts, rx) == out + Unpack(rest, later)
  }

  /** One pass of the loop of ftdiJTAG.c:645-673: entry i, of c bits, is
      decoded from the receive buffer into the TDO buffer. */
  method DecodeNext(rxBuf: array<byte>, rxIndex0: nat, c: nat, tdoBuf: array<byte>, base: nat,
                    tdoIndex0: nat, tdoPos0: nat, ghost counts: seq<nat>, ghost rx: seq<byte>, ghost i: nat,
                    ghost rest0: seq<nat>, ghost later0: seq<byte>, ghost out0: seq<bool>,
                    ghost before: seq<byte>, ghost cap: nat)
    returns (rxIndex: nat, tdoIndex: nat, tdoPos: nat, ghost out: seq<bool>, ghost rest: seq<nat>, ghost later: seq<byte>)
    requires rxBuf != tdoBuf && |rx| <= rxBuf.Length && rxBuf[..|rx|] == rx
    requires Pending(counts, rx, i, rxIndex0, rest0, later0, out0) && i < |counts| && c == counts[i]
    requires TdoState(tdoBuf[..], before, base, out0, tdoIndex0, tdoPos0)
    requires Sum(counts) <= 8 * cap && base + cap <= tdoBuf.Length
    modifies tdoBuf
    ensures Pending(counts, rx, i + 1, rxIndex, rest, later, out)
    ensures TdoState(tdoBuf[..], before, base, out, tdoIndex, tdoPos)
  {
    assert c == rest0[0];
    var first, next := EntrySplit(rest0, later0);
    EntryAt(rxBuf[..], rx, rxIndex0, later0, first, next);
    rxIndex, tdoIndex, tdoPos, out :=
      DecodeEntry(rxBuf, rxIndex0, c, tdoBuf, base, tdoIndex0, tdoPos0, first, before, out0, cap);
    rest, later := rest0[1..], next;
    PendingStep(counts, rx, i, rxIndex0, rest0, later0, out0, first, rxIndex, rest, later, out);
  }

  /** Decoding entry i moves the decoding on to entry i + 1. */
  lemma PendingStep(counts: seq<nat>, rx: seq<byte>, i: nat, rxIndex0: nat, rest0: seq<nat>, later0: seq<byte>,
                    out0: seq<bool>, first: seq<byte>, rxIndex: nat, rest: seq<nat>, later: seq<byte>, out: seq<bool>)
    requires Pending(counts, rx, i, rxIndex0, rest0, later0, out0) && i < |counts|
    requires later0 == first + later && |first| == EntryBytes(counts[i]) && |later| == RxBytes(rest)
    requires Unpack(rest0, later0) == EntryBits(counts[i], first) + Unpack(rest, later)
    requires Sum(rest0) == counts[i] + Sum(rest)
    requires rest == rest0[1..] && rxIndex == rxIndex0 + |first| && later == rx[rxIndex..]
    requires out == out0 + EntryBits(counts[i], first)
    ensures Pending(counts, rx, i + 1, rxIndex, rest, later, out)
  {
    Assoc(out0, EntryBits(counts[i], first), Unpack(rest, later));
    DropDrop(counts, i, 1);
  }

  /** `tdo` is `tdo0` with the stream `bits`, packed, stored from byte
      `base` on: the ceil(|bits|/8) bytes there hold the packed stream and
      every other byte is as it was. */
  ghost predicate Stored(tdo0: seq<byte>, tdo: seq<byte>, base: nat, bits: seq<bool>) {
    var m := (|bits| + 7) / 8;
    && |tdo| == |tdo0| && base + m <= |tdo|
    && tdo[base .. base + m] == Pack(bits)
    && tdo[..base] == tdo0[..base] && tdo[base + m ..] == tdo0[base + m ..]
  }

  /** Lines 644-673 of ftdiJTAG.c: the answer `rx` to the recorded entries
      `rxBitcounts[..n]` is decoded into `tdoBuf` from byte `base` on.  The
      bytes written are the packed TDO stream `Unpack` reads from the answer,
      and no byte outside them changes. */
  method DecodeTdo(rxBuf: array<byte>, tdoBuf: array<byte>, base: nat, rxBitcounts: array<nat>, n: nat,
                   ghost counts: seq<nat>, ghost rx: seq<byte>)
    requires rxBuf != tdoBuf && rxBitcounts as object != tdoBuf && n <= rxBitcounts.Length && counts == rxBitcounts[..n]
    requires |rx| == RxBytes(counts) && |rx| <= rxBuf.Length && rxBuf[..|rx|] == rx
    requires 8 * base + Sum(counts) <= 8 * tdoBuf.Length
    modifies tdoBuf
    ensures Stored(old(tdoBuf[..]), tdoBuf[..], base, Unpack(counts, rx))
  {
    ghost var before := tdoBuf[..];
    ghost var cap := (Sum(counts) + 7) / 8;
    CapFits(base, Sum(counts), tdoBuf.Length);
    var i: nat, rxIndex: nat, tdoIndex: nat, tdoPos: nat := 0, 0, 0, 0;
    ghost var out: seq<bool> := [];
    ghost var rest, later := counts, rx;
    while i < n
      invariant Pending(counts, rx, i, rxIndex, rest, later, out)
      invariant TdoState(tdoBuf[..], before, base, out, tdoIndex, tdoPos)
    {
      var c := rxBitcounts[i];
      assert c == counts[i] by { assert old(rxBitcounts[..n])[i] == counts[i]; }
      rxIndex, tdoIndex, tdoPos, out, rest, later :=
        DecodeNext(rxBuf, rxIndex, c, tdoBuf, base, tdoIndex, tdoPos, counts, rx, i, rest, later, out, before, cap);
      i := i + 1;
    }
    PendingDone(counts, rx, rxIndex, rest, later, out);
    TdoDone(tdoBuf[..], before, base, out, tdoIndex, tdoPos, counts, rx);
  }

  /** Past the last entry, `out` is the whole decoded stream. */
  lemma PendingDone(counts: seq<nat>, rx: seq<byte>, rxIndex: nat, rest: seq<nat>, later: seq<byte>, out: seq<bool>)
    requires Pending(counts, rx, |counts|, rxIndex, rest, later, out)
    ensures out == Unpack(counts, rx) && |out| == Sum(counts)
  {
    assert rest == [];
    AppendEmpty(out);
  }

  /** Once all bits are stored, the bytes begun hold them packed, and the
      rest of the buffer is as it was. */
  lemma TdoDone(buf: seq<byte>, before: seq<byte>, base: nat, out: seq<bool>, idx: nat, pos: nat,
                counts: seq<nat>, rx: seq<byte>)
    requires TdoState(buf, before, base, out, idx, pos)
    requires |rx| == RxBytes(counts) && out == Unpack(counts, rx)
    ensures Stored(before, buf, base, Unpack(counts, rx))
  {
    BegunBytes(idx, pos);
    WrittenPack(buf, base, out, Begun(idx, pos));
  }

  // ---------------------------------------------------------------------
  // The whole piece
  // ---------------------------------------------------------------------

  /** How a `shiftChunk` call ends: the piece is shifted; its commands
      overflow `ioBuf`, where `cmdByte` stops the program with status 4; or
      the answer cannot be read, where the call returns 0. */
  datatype Outcome = Shifted | TxOverflow | ReadFailed

  /** Lines 536-638 of ftdiJTAG.c: the counters are updated, the transmit
      buffer emptied, and the commands of the piece of nBits bits at byte
      `base` queued in it, behind ENABLE_LOOPBACK in loopback mode.  `ok`
      is false exactly when they overflow the buffer. */
  method QueueChunk(usb: UsbInfo, base: nat, nBits: nat, ghost tms: seq<bool>, ghost tdi: seq<bool>,
                    ghost cmds: seq<byte>, ghost counts: seq<nat>)
    returns (ok: bool, rxBitcounts: array<nat>, e: nat, rxWanted: nat)
    requires usb.Valid() && nBits <= 8 * USB_SHIFT_LIMIT && 8 * base + nBits <= 8 * XVC_BUFSIZE
    requires tms == Piece(usb.tmsBuf[..], base, nBits) && tdi == Piece(usb.tdiBuf[..], base, nBits)
    requires cmds == ChunkCommands(usb.loopback, tms, tdi) && counts == Counts(Groups(tms, tdi))
    modifies usb`chunkCount, usb`txCount, usb.ioBuf
    ensures usb.Valid() && usb.chunkCount == Tick(old(usb.chunkCount), Clock.UINT32) && fresh(rxBitcounts)
    ensures ok <==> |cmds| <= USB_BUFSIZE
    ensures ok ==> && usb.Queued() == cmds && e <= rxBitcounts.Length && rxBitcounts[..e] == counts
                   && rxWanted == RxBytes(counts) <= usb.txCount
  {
    HoldsPiece(usb.tmsBuf[..], base, nBits);
    HoldsPiece(usb.tdiBuf[..], base, nBits);
    var cmdBuf := new byte[USB_BUFSIZE];
    rxBitcounts := new nat[RX_COUNTS];
    usb.chunkCount := Tick(usb.chunkCount, Clock.UINT32);
    usb.txCount := 0;
    if usb.loopback {
      var _ := CmdByte(usb, ENABLE_LOOPBACK);
    }
    ghost var head := usb.Queued();
    assert head == if usb.loopback then [ENABLE_LOOPBACK] else [];
    ok, e, rxWanted := QueueGroups(usb, usb.tmsBuf[..], usb.tdiBuf[..], base, cmdBuf, rxBitcounts, nBits, tms, tdi);
  }

  /** The end of a `shiftChunk` call whose commands were sent, for the
      recorded entries `counts`: the answer is reassembled from the packets
      `packets0`; when they carry too little, the call fails and `tdo` is
      untouched, and otherwise the packets used are consumed and the decoded
      answer is stored from byte `base` on. */
  ghost predicate Answered(counts: seq<nat>, base: nat, packets0: seq<seq<byte>>, tdo0: seq<byte>,
                           outcome: Outcome, packets: seq<seq<byte>>, tdo: seq<byte>) {
    var r := Reassemble(packets0, RxBytes(counts));
    match outcome
    case TxOverflow => false
    case ReadFailed => r.None? && packets == [] && tdo == tdo0
    case Shifted =>
      && r.Some? && packets == packets0[r.value.used..]
      && Stored(tdo0, tdo, base, Unpack(counts, r.value.data))
  }

  /** What a `shiftChunk` call does, for the piece of nBits bits at byte
      `base` of the TMS and TDI buffers: the commands of the piece, behind
      ENABLE_LOOPBACK in loopback mode, overflow `ioBuf` and nothing is
      sent, or they go to the chip as one transfer (none when there are no
      commands, for an empty piece outside loopback mode) and the call ends
      as `Answered` says. */
  ghost predicate ChunkEffect(loopback: bool, tmsBuf: seq<byte>, tdiBuf: seq<byte>, base: nat, nBits: nat,
                              sent0: seq<seq<byte>>, packets0: seq<seq<byte>>, tdo0: seq<byte>,
                              outcome: Outcome, sent: seq<seq<byte>>, packets: seq<seq<byte>>, tdo: seq<byte>) {
    && 8 * base + nBits <= 8 * |tmsBuf| && 8 * base + nBits <= 8 * |tdiBuf|
    && var tms, tdi := Piece(tmsBuf, base, nBits), Piece(tdiBuf, base, nBits);
       var cmds := ChunkCommands(loopback, tms, tdi);
       && (outcome == TxOverflow <==> |cmds| > USB_BUFSIZE)
       && (outcome == TxOverflow ==> sent == sent0 && packets == packets0 && tdo == tdo0)
       && (outcome != TxOverflow ==>
             sent == sent0 + Transfers(cmds) && Answered(Counts(Groups(tms, tdi)), base, packets0, tdo0, outcome, packets, tdo))
  }

  /** Lines 639-673 of ftdiJTAG.c: the queued commands `cmds` go to the
      chip as one transfer (none when nothing is queued), the `rxWanted`
      bytes of the answer to the recorded entries `counts` are read, and
      the answer is decoded into `tdoBuf` from byte `base` on. */
  method Transact(usb: UsbInfo, base: nat, rxBitcounts: array<nat>, e: nat, rxWanted: nat,
                  ghost cmds: seq<byte>, ghost counts: seq<nat>)
    returns (outcome: Outcome)
    requires usb.Valid() && usb.Queued() == cmds && rxBitcounts as object != usb.tdoBuf && rxBitcounts as object != usb.rxBuf
    requires e <= rxBitcounts.Length && rxBitcounts[..e] == counts
    requires rxWanted == RxBytes(counts) <= usb.txCount && 8 * base + Sum(counts) <= 8 * XVC_BUFSIZE
    modifies usb`sent, usb`packets, usb.rxBuf, usb.tdoBuf
    ensures usb.Valid()
    ensures usb.sent == old(usb.sent) + Transfers(cmds)
    ensures Answered(counts, base, old(usb.packets), old(usb.tdoBuf[..]), outcome, usb.packets, usb.tdoBuf[..])
  {
    UsbWriteData(usb, usb.txCount);
    var ok := UsbReadData(usb, rxWanted);
    if !ok {
      return ReadFailed;
    }
    DecodeTdo(usb.rxBuf, usb.tdoBuf, base, rxBitcounts, e, counts, usb.rxBuf[..rxWanted]);
    outcome := Shifted;
  }

  /** `shiftChunk` (ftdiJTAG.c:524-675) for the piece of nBits bits that
      starts at byte `base` of the TMS, TDI and TDO buffers, as
      `ChunkEffect` says; the chunk counter steps on. */
  method ShiftChunk(usb: UsbInfo, base: nat, nBits: nat) returns (outcome: Outcome)
    requires usb.Valid() && nBits <= 8 * USB_SHIFT_LIMIT && 8 * base + nBits <= 8 * XVC_BUFSIZE
    modifies usb`chunkCount, usb`txCount, usb.ioBuf, usb`sent, usb`packets, usb.rxBuf, usb.tdoBuf
    ensures usb.Valid() && usb.chunkCount == Tick(old(usb.chunkCount), Clock.UINT32)
    ensures ChunkEffect(old(usb.loopback), old(usb.tmsBuf[..]), old(usb.tdiBuf[..]), base, nBits,
                        old(usb.sent), old(usb.packets), old(usb.tdoBuf[..]), outcome, usb.sent, usb.packets, usb.tdoBuf[..])
  {
    ghost var tmsBuf, tdiBuf, tdo0 := usb.tmsBuf[..], usb.tdiBuf[..], usb.tdoBuf[..];
    ghost var loopback, sent0, packets0 := usb.loopback, usb.sent, usb.packets;
    ghost var tms := Piece(tmsBuf, base, nBits);
    ghost var tdi := Piece(tdiBuf, base, nBits);
    ghost var counts := Counts(Groups(tms, tdi));
    CountsCover(tms, tdi);
    ghost var cmds := ChunkCommands(loopback, tms, tdi);
    var ok, rxBitcounts, e, rxWanted := QueueChunk(usb, base, nBits, tms, tdi, cmds, counts);
    if !ok {
      outcome := TxOverflow;
    } else {
      outcome := Transact(usb, base, rxBitcounts, e, rxWanted, cmds, counts);
    }
    ChunkEffectOf(loopback, tmsBuf, tdiBuf, base, nBits, sent0, packets0, tdo0,
                  outcome, usb.sent, usb.packets, usb.tdoBuf[..], tms, tdi, cmds, counts);
  }

  lemma ChunkEffectOf(loopback: bool, tmsBuf: seq<byte>, tdiBuf: seq<byte>, base: nat, nBits: nat,
                      sent0: seq<seq<byte>>, packets0: seq<seq<byte>>, tdo0: seq<byte>,
                      outcome: Outcome, sent: seq<seq<byte>>, packets: seq<seq<byte>>, tdo: seq<byte>,
                      tms: seq<bool>, tdi: seq<bool>, cmds: seq<byte>, counts: seq<nat>)
    requires 8 * base + nBits <= 8 * |tmsBuf| && 8 * base + nBits <= 8 * |tdiBuf|
    requires tms == Piece(tmsBuf, base, nBits) && tdi == Piece(tdiBuf, base, nBits)
    requires cmds == ChunkCommands(loopback, tms, tdi) && counts == Counts(Groups(tms, tdi))
    requires outcome == TxOverflow <==> |cmds| > USB_BUFSIZE
    requires outcome == TxOverflow ==> sent == sent0 && packets == packets0 && tdo == tdo0
    requires outcome != TxOverflow ==> sent == sent0 + Transfers(cmds) && Answered(counts, base, packets0, tdo0, outcome, packets, tdo)
    ensures ChunkEffect(loopback, tmsBuf, tdiBuf, base, nBits, sent0, packets0, tdo0, outcome, sent, packets, tdo)
  {
  }

  /** The end-to-end promise of `shiftChunk`: when the chip clocks the
      bytes the call sent, with `sampled` the TDO bits it samples, and
      its packets carry that answer in front, the call succeeds and the
      piece of `tdoBuf` it fills holds the bits read back: the TDI bits in
      loopback mode, the sampled TDO bits otherwise.  The TMS and TDI bits
      the chip clocks are the piece of the host's buffers. */
  lemma ChunkRoundTrip(loopback: bool, tmsBuf: seq<byte>, tdiBuf: seq<byte>, base: nat, nBits: nat,
                       sent0: seq<seq<byte>>, packets0: seq<seq<byte>>, tdo0: seq<byte>,
                       outcome: Outcome, sent: seq<seq<byte>>, packets: seq<seq<byte>>, tdo: seq<byte>,
                       held: bool, sampled: seq<bool>, clocked: Clocking)
    requires ChunkEffect(loopback, tmsBuf, tdiBuf, base, nBits, sent0, packets0, tdo0, outcome, sent, packets, tdo)
    requires outcome != TxOverflow && |sampled| == nBits <= 8 * USB_SHIFT_LIMIT
    requires Run(Concat(sent[|sent0|..]), false, held, sampled) == Some(clocked)
    requires |clocked.rx| <= |Payloads(packets0)| && Payloads(packets0)[..|clocked.rx|] == clocked.rx
    ensures outcome == Shifted
    ensures clocked.tms == Piece(tmsBuf, base, nBits) && clocked.tdi == Piece(tdiBuf, base, nBits)
    ensures Stored(tdo0, tdo, base, if loopback then clocked.tdi else sampled)
  {
    var tms, tdi := Piece(tmsBuf, base, nBits), Piece(tdiBuf, base, nBits);
    var counts := Counts(Groups(tms, tdi));
    var bits := if loopback then tdi else sampled;
    var cmds := ChunkCommands(loopback, tms, tdi);
    assert sent[|sent0|..] == Transfers(cmds);
    ConcatTransfers(cmds);
    RunChunk(loopback, tms, tdi, held, sampled);
    assert clocked == Clocking(tms, tdi, Respond(counts, bits));
    UnpackRespond(counts, bits);
    var nWant := RxBytes(counts);
    ReassembleCorrect(packets0, nWant);
    var r := Reassemble(packets0, nWant);
    assert r.Some?;
    ReadBackPrefix(packets0, r.value.used, nWant, r.value.data, clocked.rx);
  }

  /** The bytes read are the front of the data of all the packets. */
  lemma ReadBackPrefix(packets: seq<seq<byte>>, used: nat, nWant: nat, data: seq<byte>, front: seq<byte>)
    requires used <= |packets| && |Payloads(packets[..used])| >= nWant && data == Payloads(packets[..used])[..nWant]
    requires |front| == nWant <= |Payloads(packets)| && Payloads(packets)[..nWant] == front
    ensures data == front
  {
    Halves(packets, used);
    PayloadsAppend(packets[..used], packets[used..]);
  }

  // ---------------------------------------------------------------------
  // The bytes the source clears ahead
  // ---------------------------------------------------------------------

  /** The bytes, counted from the start of the TDO buffer, that
      ftdiJTAG.c:643-668 clears while it decodes nBits bits into it from
      byte `base` on, as the code is written: the byte under the cursor
      before the loop (line 643) and then the byte the cursor moves to
      after every bit 7 (lines 664-668), the last bit's included.  They
      are bytes base to base + nBits / 8, one past the piece when nBits is
      a multiple of 8. */
  function TdoClearsAsWritten(base: nat, nBits: nat): (cleared: seq<nat>)
    ensures |cleared| == 1 + nBits / 8
    ensures forall k :: 0 <= k < |cleared| ==> cleared[k] == base + k
  {
    [base] + ClearsFrom(base, 0, nBits)
  }

  /** The bytes cleared by the cursor at byte idx, bit pos, over `left`
      more bits. */
  function ClearsFrom(idx: nat, pos: nat, left: nat): (cleared: seq<nat>)
    requires pos < 8
    ensures |cleared| == (pos + left) / 8
    ensures forall k :: 0 <= k < |cleared| ==> cleared[k] == idx + 1 + k
    decreases left
  {
    if left == 0 then []
    else if pos == 7 then [idx + 1] + ClearsFrom(idx + 1, 0, left - 1)
    else ClearsFrom(idx, pos + 1, left - 1)
  }

  /** The source clears a byte outside the piece it decodes exactly when
      the piece is a whole number of bytes long; `DecodeTdo` touches only
      the piece's ceil(nBits/8) bytes (`Stored`). */
  lemma TdoClearsPastPiece(base: nat, nBits: nat)
    ensures var cleared := TdoClearsAsWritten(base, nBits);
            (exists k :: 0 <= k < |cleared| && cleared[k] >= base + (nBits + 7) / 8) <==> nBits % 8 == 0
  {
    var cleared := TdoClearsAsWritten(base, nBits);
    var last := |cleared| - 1;
    if nBits % 8 == 0 {
      assert cleared[last] >= base + (nBits + 7) / 8;
    } else {
      forall k | 0 <= k < |cleared| ensures cleared[k] < base + (nBits + 7) / 8 {
        DivMod8(nBits / 8, nBits % 8);
      }
    }
  }

  /** The largest shift, 16384 bits, goes out in pieces of 1000 bytes; the
      last piece, 384 bits at byte 2000, makes the source clear byte 2048,
      one past the end of the XVC_BUFSIZE bytes of the TDO buffer. */
  lemma TdoOverrun()
    ensures var cleared := TdoClearsAsWritten(2 * USB_SHIFT_LIMIT, 8 * XVC_BUFSIZE - 2 * 8 * USB_SHIFT_LIMIT);
            cleared[|cleared| - 1] == XVC_BUFSIZE
  {
  }
}
