/** What the XVC server does with the bytes a client sends: the TMS/TDI
    payload of a `shift:` goes to the chip in pieces (`shift`,
    ftdiJTAG.c:680-736), and `processCommands` (ftdiJTAG.c:788-857) answers
    `getinfo:`, `settck:` and `shift:` until the client stops or sends
    something else.  Everything here is a function of the state before a
    command and the client's bytes; module Server runs the same steps on
    the `usbInfo` object. */
module Xvc {
  import opened Bits
  import opened Wrappers
  import opened Mpsse
  import opened UsbRead
  import opened Usb
  import opened Chunk
  import opened Transfer
  import opened Framing
  import Clock

  // ---------------------------------------------------------------------
  // One piece: `shiftChunk` as a function
  // ---------------------------------------------------------------------

  /** What a `shiftChunk` call changes: the chunk counter, the transfers
      sent to the chip, the packets it has yet to deliver, and the TDO
      buffer. */
  datatype Link = Link(chunkCount: nat, sent: seq<seq<byte>>, packets: seq<seq<byte>>, tdo: seq<byte>)

  /** nBits bits from byte `base` on fit in `buf`. */
  predicate Fits(buf: seq<byte>, base: nat, nBits: nat) {
    8 * base + nBits <= 8 * |buf|
  }

  /** `buf` with `bytes` stored from byte `base` on. */
  function Put(buf: seq<byte>, base: nat, bytes: seq<byte>): (r: seq<byte>)
    requires base + |bytes| <= |buf|
    ensures |r| == |buf|
  {
    buf[..base] + bytes + buf[base + |bytes|..]
  }

  /** The outcome of `shiftChunk` for the piece of nBits bits at byte
      `base`, and the link after it: the piece's commands overflow `ioBuf`,
      or they are sent and the answer is read from the packets, which fails
      when they run out, or is decoded into the TDO buffer. */
  function ChunkAfter(loopback: bool, tmsBuf: seq<byte>, tdiBuf: seq<byte>, base: nat, nBits: nat, l: Link)
    : (r: (Outcome, Link))
    requires Fits(tmsBuf, base, nBits) && Fits(tdiBuf, base, nBits) && Fits(l.tdo, base, nBits)
    requires l.chunkCount < Clock.UINT32
    ensures |r.1.tdo| == |l.tdo| && r.1.chunkCount == Tick(l.chunkCount, Clock.UINT32)
  {
    var tms, tdi := Piece(tmsBuf, base, nBits), Piece(tdiBuf, base, nBits);
    var cmds := ChunkCommands(loopback, tms, tdi);
    var counted := Tick(l.chunkCount, Clock.UINT32);
    if |cmds| > USB_BUFSIZE then (TxOverflow, l.(chunkCount := counted))
    else
      var counts := Counts(Groups(tms, tdi));
      match Reassemble(l.packets, RxBytes(counts))
      case None => (ReadFailed, Link(counted, l.sent + Transfers(cmds), [], l.tdo))
      case Some(r) =>
        var bits := Unpack(counts, r.data);
        CountsCover(tms, tdi);
        PackLength(bits);
        CapFits(base, nBits, |l.tdo|);
        (Shifted, Link(counted, l.sent + Transfers(cmds), l.packets[r.used..], Put(l.tdo, base, Pack(bits))))
  }

  /** `ChunkEffect`, the relation `ShiftChunk` is proved to keep, holds of
      exactly one result: the one `ChunkAfter` computes. */
  lemma ChunkEffectAfter(loopback: bool, tmsBuf: seq<byte>, tdiBuf: seq<byte>, base: nat, nBits: nat,
                         l: Link, outcome: Outcome, after: Link)
    requires ChunkEffect(loopback, tmsBuf, tdiBuf, base, nBits, l.sent, l.packets, l.tdo,
                         outcome, after.sent, after.packets, after.tdo)
    requires Fits(l.tdo, base, nBits) && l.chunkCount < Clock.UINT32
    requires after.chunkCount == Tick(l.chunkCount, Clock.UINT32)
    ensures ChunkAfter(loopback, tmsBuf, tdiBuf, base, nBits, l) == (outcome, after)
  {
    var tms, tdi := Piece(tmsBuf, base, nBits), Piece(tdiBuf, base, nBits);
    var counts := Counts(Groups(tms, tdi));
    if outcome == Shifted {
      var r := Reassemble(l.packets, RxBytes(counts));
      StoredPut(l.tdo, after.tdo, base, Unpack(counts, r.value.data));
    }
  }

  /** `Stored` pins the new buffer down: it is the old one with the
      packed stream put at `base`. */
  lemma StoredPut(tdo0: seq<byte>, tdo: seq<byte>, base: nat, bits: seq<bool>)
    requires Stored(tdo0, tdo, base, bits)
    ensures base + |Pack(bits)| <= |tdo0| && tdo == Put(tdo0, base, Pack(bits))
  {
    PackLength(bits);
    var m := |Pack(bits)|;
    assert tdo == tdo[..base] + tdo[base .. base + m] + tdo[base + m ..];
  }

  // ---------------------------------------------------------------------
  // A whole shift: the pieces
  // ---------------------------------------------------------------------

  /** The bytes of the next piece `shift` passes on (ftdiJTAG.c:710-713):
      what is left, but at most USB_SHIFT_LIMIT. */
  function PieceBytes(left: nat): (b: nat)
    ensures b <= USB_SHIFT_LIMIT && 8 * b < left + 8
    ensures b == USB_SHIFT_LIMIT || left <= 8 * b
  {
    Min((left + 7) / 8, USB_SHIFT_LIMIT)
  }

  /** The bits of the next piece (ftdiJTAG.c:714-717): the piece's bytes
      in bits, but no more than are left. */
  function PieceBits(left: nat): (n: nat)
    ensures n <= left && n <= 8 * USB_SHIFT_LIMIT
    ensures n < left ==> n == 8 * USB_SHIFT_LIMIT
  {
    Min(8 * PieceBytes(left), left)
  }

  /** Every piece holds at least one bit and at most 8000; its bytes are
      the bytes its bits take; a piece shorter than what is left is a whole
      1000-byte piece, so only the last piece can end inside a byte. */
  lemma PieceSize(left: nat)
    requires left > 0
    ensures 0 < PieceBits(left) <= left && PieceBits(left) <= 8 * USB_SHIFT_LIMIT
    ensures PieceBytes(left) == (PieceBits(left) + 7) / 8
    ensures PieceBits(left) < left ==> PieceBytes(left) == USB_SHIFT_LIMIT && PieceBits(left) == 8 * USB_SHIFT_LIMIT
  {
    var k := (left + 7) / 8;
    assert 8 * k <= left + 7 < 8 * k + 8;
  }

  /** The rest of a shift still fits after a piece. */
  lemma PieceFits(len: nat, base: nat, left: nat)
    requires left > 0 && 8 * base + left <= 8 * len
    ensures 8 * base + PieceBits(left) <= 8 * len
    ensures 8 * (base + PieceBytes(left)) + (left - PieceBits(left)) <= 8 * len
  {
    PieceSize(left);
    if PieceBits(left) == left {
      CapFits(base, left, len);
    }
  }

  /** The loop of `shift` (ftdiJTAG.c:708-726) from byte `base` on with
      `left` bits to go: piece after piece is shifted, the buffer cursors
      moving by the piece's bytes, until nothing is left or a piece does
      not end as `Shifted`. */
  function ShiftFrom(loopback: bool, tmsBuf: seq<byte>, tdiBuf: seq<byte>, base: nat, left: nat, l: Link)
    : (r: (Outcome, Link))
    requires Fits(tmsBuf, base, left) && Fits(tdiBuf, base, left) && Fits(l.tdo, base, left)
    requires l.chunkCount < Clock.UINT32
    ensures |r.1.tdo| == |l.tdo| && r.1.chunkCount < Clock.UINT32
    decreases left, 1
  {
    if left == 0 then (Shifted, l) else PieceAndRest(loopback, tmsBuf, tdiBuf, base, left, l)
  }

  /** One turn of the loop of `shift`: the piece at `base`, and then, when
      it is `Shifted`, the rest of the loop from the next piece on. */
  function PieceAndRest(loopback: bool, tmsBuf: seq<byte>, tdiBuf: seq<byte>, base: nat, left: nat, l: Link)
    : (r: (Outcome, Link))
    requires left > 0 && Fits(tmsBuf, base, left) && Fits(tdiBuf, base, left) && Fits(l.tdo, base, left)
    requires l.chunkCount < Clock.UINT32
    ensures |r.1.tdo| == |l.tdo| && r.1.chunkCount < Clock.UINT32
    decreases left, 0
  {
    PieceFits(|tmsBuf|, base, left);
    PieceFits(|tdiBuf|, base, left);
    PieceFits(|l.tdo|, base, left);
    PieceSize(left);
    var bits := PieceBits(left);
    var r := ChunkAfter(loopback, tmsBuf, tdiBuf, base, bits, l);
    if r.0 != Shifted then r
    else ShiftFrom(loopback, tmsBuf, tdiBuf, base + PieceBytes(left), left - bits, r.1)
  }

  /** The loop of `shift` part way through: from byte `base` on, with
      `left` bits to go and the link `l`, it ends as `target`. */
  ghost predicate ShiftsTo(loopback: bool, tmsBuf: seq<byte>, tdiBuf: seq<byte>, base: nat, left: nat, l: Link,
                           target: (Outcome, Link))
  {
    && Fits(tmsBuf, base, left) && Fits(tdiBuf, base, left) && Fits(l.tdo, base, left)
    && l.chunkCount < Clock.UINT32
    && ShiftFrom(loopback, tmsBuf, tdiBuf, base, left, l) == target
  }

  /** One turn of the loop of `shift`: the piece at `base` ends the shift
      with its outcome unless it is `Shifted`, and then the shift goes on
      from the next piece, at byte `next` with `rest` bits to go, with the
      link the piece left. */
  lemma {:induction false} ShiftFromStep(loopback: bool, tmsBuf: seq<byte>, tdiBuf: seq<byte>, base: nat, left: nat,
                                         l: Link, target: (Outcome, Link), outcome: Outcome, after: Link,
                                         next: nat, rest: nat)
    requires left > 0 && ShiftsTo(loopback, tmsBuf, tdiBuf, base, left, l, target)
    requires Fits(tmsBuf, base, PieceBits(left)) && Fits(tdiBuf, base, PieceBits(left)) && Fits(l.tdo, base, PieceBits(left))
    requires ChunkAfter(loopback, tmsBuf, tdiBuf, base, PieceBits(left), l) == (outcome, after)
    requires next == base + PieceBytes(left) && rest == left - PieceBits(left)
    ensures outcome != Shifted ==> target == (outcome, after)
    ensures outcome == Shifted ==> ShiftsTo(loopback, tmsBuf, tdiBuf, next, rest, after, target)
  {
    assert target == PieceAndRest(loopback, tmsBuf, tdiBuf, base, left, l);
    if outcome == Shifted {
      PieceFits(|tmsBuf|, base, left);
      PieceFits(|tdiBuf|, base, left);
      PieceFits(|l.tdo|, base, left);
      PieceAndRestGoesOn(loopback, tmsBuf, tdiBuf, base, left, l, after, next, rest);
    } else {
      PieceAndRestEnds(loopback, tmsBuf, tdiBuf, base, left, l, outcome, after);
    }
  }

  /** `PieceAndRest` once its piece has ended as `outcome`, not `Shifted`,
      with the link `after`: that ends the loop. */
  lemma PieceAndRestEnds(loopback: bool, tmsBuf: seq<byte>, tdiBuf: seq<byte>, base: nat, left: nat,
                         l: Link, outcome: Outcome, after: Link)
    requires left > 0 && Fits(tmsBuf, base, left) && Fits(tdiBuf, base, left) && Fits(l.tdo, base, left)
    requires l.chunkCount < Clock.UINT32
    requires Fits(tmsBuf, base, PieceBits(left)) && Fits(tdiBuf, base, PieceBits(left)) && Fits(l.tdo, base, PieceBits(left))
    requires ChunkAfter(loopback, tmsBuf, tdiBuf, base, PieceBits(left), l) == (outcome, after) && outcome != Shifted
    ensures PieceAndRest(loopback, tmsBuf, tdiBuf, base, left, l) == (outcome, after)
  {
  }

  /** `PieceAndRest` once its piece is `Shifted` with the link `after`:
      the loop goes on at byte `next` with `rest` bits to go. */
  lemma PieceAndRestGoesOn(loopback: bool, tmsBuf: seq<byte>, tdiBuf: seq<byte>, base: nat, left: nat,
                           l: Link, after: Link, next: nat, rest: nat)
    requires left > 0 && Fits(tmsBuf, base, left) && Fits(tdiBuf, base, left) && Fits(l.tdo, base, left)
    requires l.chunkCount < Clock.UINT32
    requires Fits(tmsBuf, base, PieceBits(left)) && Fits(tdiBuf, base, PieceBits(left)) && Fits(l.tdo, base, PieceBits(left))
    requires ChunkAfter(loopback, tmsBuf, tdiBuf, base, PieceBits(left), l) == (Shifted, after)
    requires next == base + PieceBytes(left) && rest == left - PieceBits(left)
    requires Fits(tmsBuf, next, rest) && Fits(tdiBuf, next, rest) && Fits(after.tdo, next, rest)
    ensures PieceAndRest(loopback, tmsBuf, tdiBuf, base, left, l) == ShiftFrom(loopback, tmsBuf, tdiBuf, next, rest, after)
  {
    var r := ChunkAfter(loopback, tmsBuf, tdiBuf, base, PieceBits(left), l);
    assert r.1 == after;
  }

  /** The largest shift, 16384 bits, goes out as two whole pieces and a
      last one of 384 bits at byte 2000; decoding that last piece makes the
      source clear byte 2048, one past the TDO buffer. */
  lemma LargestShiftPieces()
    ensures PieceBytes(8 * XVC_BUFSIZE) == USB_SHIFT_LIMIT && PieceBits(8 * XVC_BUFSIZE) == 8000
    ensures PieceBytes(8384) == USB_SHIFT_LIMIT && PieceBits(8384) == 8000
    ensures PieceBits(384) == 384
    ensures var cleared := TdoClearsAsWritten(2000, 384);
            cleared[|cleared| - 1] == XVC_BUFSIZE
  {
  }

  // ---------------------------------------------------------------------
  // The `shift:` command
  // ---------------------------------------------------------------------

  /** The part of `usbInfo` a session reads and changes. */
  datatype Host = Host(shiftCount: nat, bitCount: nat, tms: seq<byte>, tdi: seq<byte>, link: Link)

  /** The buffers have their sizes and the counters their widths. */
  predicate Sized(h: Host) {
    && |h.tms| == XVC_BUFSIZE && |h.tdi| == XVC_BUFSIZE && |h.link.tdo| == XVC_BUFSIZE
    && h.shiftCount < Clock.UINT32 && h.bitCount < UINT64 && h.link.chunkCount < Clock.UINT32
  }

  /** `rest` is what is left of `input` once some of it is read. */
  predicate IsRest(rest: seq<byte>, input: seq<byte>) {
    |rest| <= |input| && rest == input[|input| - |rest|..]
  }

  /** How a `shift` ends: whether the program exits (a full `ioBuf`,
      ftdiJTAG.c:512-515), the count it returns (0 for failure), the state
      after it, and what is left of the input. */
  datatype ShiftEnd = ShiftEnd(exit: bool, nBytes: nat, host: Host, rest: seq<byte>)

  /** The bytes a shift of nBits bits takes in each of TMS, TDI and TDO,
      computed without the 32-bit wrap of ftdiJTAG.c:693 (see
      `ShiftBytesAsWritten`). */
  function ShiftBytes(nBits: nat): nat {
    (nBits + 7) / 8
  }

  /** The byte count as ftdiJTAG.c:693 computes it, and ftdiJTAG.c:710
      again for each piece: `nBits + 7` is a 32-bit unsigned sum, so it
      wraps around for the seven largest counts. */
  function ShiftBytesAsWritten(nBits: nat): (b: nat)
    requires nBits < Clock.UINT32
    ensures nBits <= 8 * b < nBits + 8 || (Clock.UINT32 - 7 <= nBits && b == 0)
  {
    ((nBits + 7) % Clock.UINT32) / 8
  }

  /** Below the seven largest counts the wrap changes nothing. */
  lemma ShiftBytesAgree(nBits: nat)
    requires nBits < Clock.UINT32 - 7
    ensures ShiftBytesAsWritten(nBits) == ShiftBytes(nBits)
  {
  }

  /** For the seven largest counts the wrapped byte count is 0: the size
      check of ftdiJTAG.c:697 lets the request through, no TMS or TDI byte
      is read, and every turn of the loop of ftdiJTAG.c:708-726 takes a
      piece of no bytes and no bits, so `nBits` never goes down.  The true
      count is far beyond the buffers. */
  lemma ShiftSizeWraps(nBits: nat)
    requires Clock.UINT32 - 7 <= nBits < Clock.UINT32
    ensures ShiftBytesAsWritten(nBits) == 0
    ensures Min(8 * Min(ShiftBytesAsWritten(nBits), USB_SHIFT_LIMIT), nBits) == 0
    ensures ShiftBytes(nBits) > XVC_BUFSIZE
  {
  }

  /** `fread(buf, 1, n, fp)`: as many of the n bytes as the input still
      holds, stored from the start of `buf`. */
  function Fread(buf: seq<byte>, n: nat, input: seq<byte>): (r: (seq<byte>, seq<byte>))
    requires n <= |buf|
    ensures |r.0| == |buf| && IsRest(r.1, input)
  {
    var got := Min(n, |input|);
    (Put(buf, 0, input[..got]), input[got..])
  }

  /** `shift` (ftdiJTAG.c:680-736) after the `shift:` keyword: the bit
      count, the counters, the size check, the TMS and TDI payloads, and
      the pieces.  It returns ceil(nBits/8) when every piece is shifted. */
  function ShiftCommand(loopback: bool, h: Host, input: seq<byte>): (e: ShiftEnd)
    requires Sized(h)
    ensures Sized(e.host) && IsRest(e.rest, input) && e.nBytes <= XVC_BUFSIZE
  {
    if |input| < 4 then ShiftEnd(false, 0, h, [])
    else
      var (nBits, rest) := Fetch32(input);
      var e := ShiftCounted(loopback, Counted(h, nBits), nBits, rest);
      Within(e.rest, input, 4);
      e
  }

  /** `ShiftCommand` in its two cases: too short a count, or the rest of
      `shift` once the count is read and counted. */
  lemma ShiftCommandCases(loopback: bool, h: Host, input: seq<byte>)
    requires Sized(h)
    ensures |input| < 4 ==> ShiftCommand(loopback, h, input) == ShiftEnd(false, 0, h, [])
    ensures |input| >= 4 ==>
              var nBits := Fetch32(input).0;
              ShiftCommand(loopback, h, input) == ShiftCounted(loopback, Counted(h, nBits), nBits, input[4..])
  {
  }

  /** The two counters `shift` keeps (ftdiJTAG.c:690-691): one more shift,
      nBits more bits, each wrapping around as its unsigned type does. */
  function Counted(h: Host, nBits: nat): (c: Host)
    requires Sized(h)
    ensures Sized(c)
    ensures c.tms == h.tms && c.tdi == h.tdi && c.link == h.link
    ensures c.shiftCount == if h.shiftCount + 1 < Clock.UINT32 then h.shiftCount + 1 else 0
    ensures c.bitCount == AddBits(h.bitCount, nBits)
  {
    h.(shiftCount := Tick(h.shiftCount, Clock.UINT32), bitCount := AddBits(h.bitCount, nBits))
  }

  /** `shift` once the bit count is read (ftdiJTAG.c:692-736): a count too
      large for the buffers, or a short read of either buffer, fails. */
  function ShiftCounted(loopback: bool, h: Host, nBits: nat, input: seq<byte>): (e: ShiftEnd)
    requires Sized(h)
    ensures Sized(e.host) && IsRest(e.rest, input) && e.nBytes <= XVC_BUFSIZE
    ensures e.host.shiftCount == h.shiftCount && e.host.bitCount == h.bitCount
  {
    var nBytes := ShiftBytes(nBits);
    if nBytes > XVC_BUFSIZE then ShiftEnd(false, 0, h, input)
    else
      var (tms, afterTms) := Fread(h.tms, nBytes, input);
      if |input| < nBytes then ShiftEnd(false, 0, h.(tms := tms), afterTms)
      else
        var (tdi, afterTdi) := Fread(h.tdi, nBytes, afterTms);
        if |afterTms| < nBytes then ShiftEnd(false, 0, h.(tms := tms, tdi := tdi), afterTdi)
        else ShiftLoaded(loopback, h.(tms := tms, tdi := tdi), nBits, afterTdi)
  }

  /** `shift` once both buffers are filled (ftdiJTAG.c:708-735): the loop
      runs, a full `ioBuf` makes the program exit, and only a shift whose
      every piece is `Shifted` returns its byte count. */
  function ShiftLoaded(loopback: bool, h: Host, nBits: nat, rest: seq<byte>): (e: ShiftEnd)
    requires Sized(h) && ShiftBytes(nBits) <= XVC_BUFSIZE
    ensures Sized(e.host) && e.rest == rest && e.nBytes <= XVC_BUFSIZE
    ensures e.host == h.(link := e.host.link)
  {
    var (outcome, link) := ShiftFrom(loopback, h.tms, h.tdi, 0, nBits, h.link);
    ShiftEnd(outcome == TxOverflow, if outcome == Shifted then ShiftBytes(nBits) else 0, h.(link := link), rest)
  }

  // ---------------------------------------------------------------------
  // The command interpreter
  // ---------------------------------------------------------------------

  /** How a command leaves the session: it goes on, the connection is
      closed (`processCommands` returns), or the program exits. */
  datatype Status = Continue | Close | Exit

  /** A command's outcome, the state after it, the replies it writes and
      what is left of the input. */
  datatype After = After(status: Status, host: Host, replies: seq<seq<byte>>, rest: seq<byte>)

  /** The rest of each keyword once its first bytes have chosen it, the
      answer to `getinfo:`, and the bytes that choose a command, as the
      bytes that carry them (`Keywords` reads them back as text). */
  const TTCK: seq<byte> := [0x74, 0x74, 0x63, 0x6B, 0x3A]
  const IFT: seq<byte> := [0x69, 0x66, 0x74, 0x3A]
  const ETINFO: seq<byte> := [0x65, 0x74, 0x69, 0x6E, 0x66, 0x6F, 0x3A]
  const INFO: seq<byte> := [0x78, 0x76, 0x63, 0x53, 0x65, 0x72, 0x76, 0x65, 0x72, 0x5F,
                            0x76, 0x31, 0x2E, 0x30, 0x3A, 0x32, 0x30, 0x34, 0x38, 0x0A]
  const S: byte := 0x73
  const E: byte := 0x65
  const H: byte := 0x68
  const G: byte := 0x67

  /** The constants are the keywords `processCommands` compares with
      (ftdiJTAG.c:796, 811, 831) and the text it answers `getinfo:` with
      for the 2048-byte buffers (ftdiJTAG.c:839). */
  lemma Keywords()
    ensures Spells([S, E] + TTCK, "settck:") && Spells([S, H] + IFT, "shift:") && Spells([G] + ETINFO, "getinfo:")
  {
  }

  /** The answer to `getinfo:` is the text ftdiJTAG.c:839 formats for the
      2048-byte buffers. */
  lemma InfoBytes()
    ensures Spells(INFO, InfoReply(XVC_BUFSIZE))
  {
    InfoText();
    InfoSpelled(INFO, "xvcServer_v1.0:2048\n");
  }

  lemma InfoSpelled(b: seq<byte>, t: string)
    requires b == INFO && t == "xvcServer_v1.0:2048\n"
    ensures Spells(b, t)
  {
    assert b == b[..10] + b[10..];
    assert t == t[..10] + t[10..];
    InfoHead(b[..10], t[..10]);
    InfoTail(b[10..], t[10..]);
    SpellsConcat(b[..10], t[..10], b[10..], t[10..]);
  }

  lemma InfoHead(b: seq<byte>, t: string)
    requires b == [0x78, 0x76, 0x63, 0x53, 0x65, 0x72, 0x76, 0x65, 0x72, 0x5F] && t == "xvcServer_"
    ensures Spells(b, t)
  {
  }

  lemma InfoTail(b: seq<byte>, t: string)
    requires b == [0x76, 0x31, 0x2E, 0x30, 0x3A, 0x32, 0x30, 0x34, 0x38, 0x0A] && t == "v1.0:2048\n"
    ensures Spells(b, t)
  {
  }

  /** The input starts with `word`. */
  predicate Starts(word: seq<byte>, input: seq<byte>) {
    |word| <= |input| && input[..|word|] == word
  }

  /** A keyword that does not follow: `matchInput` has read up to the byte
      that differs, and the session ends without a reply. */
  function Mismatch(h: Host, word: seq<byte>, input: seq<byte>): (a: After)
    ensures a.status == Close && a.host == h && a.replies == [] && IsRest(a.rest, input)
  {
    After(Close, h, [], input[Consumed(word, input)..])
  }

  /** How many times n goes into a: the quotient of unsigned division,
      counted by repeated subtraction. */
  function Quotient(a: nat, n: nat): (q: nat)
    requires n > 0
    ensures q <= a && (n <= a ==> q >= 1)
    decreases a
  {
    if a < n then 0 else 1 + Quotient(a - n, n)
  }

  /** The quotient is a / n rounded down: q n <= a < (q + 1) n. */
  lemma {:induction false} QuotientBounds(a: nat, n: nat)
    requires n > 0
    ensures Quotient(a, n) * n <= a < (Quotient(a, n) + 1) * n
  {
    if a >= n {
      var q := Quotient(a - n, n);
      QuotientBounds(a - n, n);
      assert (q + 1) * n == q * n + n;
      assert (q + 2) * n == (q + 1) * n + n;
    }
  }

  /** The frequency in Hz `settck:` asks for with a period of num ns
      (ftdiJTAG.c:803): 10^9 / num, rounded down.  The source divides
      without looking at num, so a zero period from the client divides by
      zero: this is the precondition the division has (see
      `SettckZeroPeriod`). */
  function TckFrequency(num: nat): (frequency: nat)
    requires num != 0
    ensures frequency <= 1000000000 && (num <= 1000000000 ==> frequency >= 1)
  {
    Quotient(1000000000, num)
  }

  /** The frequency is the largest whose period is not below num ns. */
  lemma TckPeriod(num: nat)
    requires num != 0
    ensures TckFrequency(num) * num <= 1000000000 < (TckFrequency(num) + 1) * num
  {
    QuotientBounds(1000000000, num);
  }

  /** `settck:` (ftdiJTAG.c:795-808) after its first two bytes: the period
      in ns is read, the clock is set for 10^9 / period Hz and the period is
      echoed.  A zero period ends the session (see `SettckZeroPeriod`). */
  function SetTck(lockedSpeed: nat, h: Host, input: seq<byte>): (a: After)
    requires lockedSpeed < Clock.UINT32
    ensures a.host.shiftCount == h.shiftCount && a.host.bitCount == h.bitCount
    ensures a.host.tms == h.tms && a.host.tdi == h.tdi && a.host.link.tdo == h.link.tdo
    ensures a.host.link.chunkCount == h.link.chunkCount && IsRest(a.rest, input)
    ensures |a.replies| == if a.status == Continue then 1 else 0
  {
    var word := TTCK;
    if !Starts(word, input) then Mismatch(h, word, input)
    else
      var afterWord := input[|word|..];
      if |afterWord| < 4 then After(Close, h, [], [])
      else
        var (num, rest) := Fetch32(afterWord);
        if num == 0 then After(Close, h, [], rest)
        else
          var frequency := TckFrequency(num);
          var link := h.link.(sent := h.link.sent + [Clock.ClockCommand(lockedSpeed, frequency)]);
          After(Continue, h.(link := link), [LeBytes(num, 4)], rest)
  }

  /** `shift:` (ftdiJTAG.c:810-818) after its first two bytes: a shift
      that returns a positive count is answered with that many TDO bytes;
      otherwise the session ends. */
  function ShiftReply(loopback: bool, h: Host, input: seq<byte>): (a: After)
    requires Sized(h)
    ensures Sized(a.host) && IsRest(a.rest, input)
    ensures |a.replies| == if a.status == Continue then 1 else 0
  {
    var word := IFT;
    if !Starts(word, input) then Mismatch(h, word, input)
    else
      var e := ShiftCommand(loopback, h, input[|word|..]);
      if e.exit then After(Exit, e.host, [], e.rest)
      else if e.nBytes == 0 then After(Close, e.host, [], e.rest)
      else After(Continue, e.host, [e.host.link.tdo[..e.nBytes]], e.rest)
  }

  /** `getinfo:` (ftdiJTAG.c:830-843) after its first byte. */
  function GetInfo(h: Host, input: seq<byte>): (a: After)
    ensures a.host == h && IsRest(a.rest, input)
    ensures |a.replies| == if a.status == Continue then 1 else 0
  {
    var word := ETINFO;
    if !Starts(word, input) then Mismatch(h, word, input)
    else After(Continue, h, [INFO], input[|word|..])
  }

  /** One pass of the loop of `processCommands` (ftdiJTAG.c:792-856): the
      first byte, and for `s` the second, choose the command; the end of
      the input or any other byte ends the session. */
  function Step(loopback: bool, lockedSpeed: nat, h: Host, input: seq<byte>): (a: After)
    requires Sized(h) && lockedSpeed < Clock.UINT32
    ensures Sized(a.host) && IsRest(a.rest, input)
    ensures a.status == Continue ==> |a.rest| < |input|
    ensures |a.replies| == if a.status == Continue then 1 else 0
  {
    if input == [] then After(Close, h, [], [])
    else if input[0] == S then
      if |input| == 1 then After(Close, h, [], [])
      else
        var a :=
          if input[1] == E then SetTck(lockedSpeed, h, input[2..])
          else if input[1] == H then ShiftReply(loopback, h, input[2..])
          else After(Close, h, [], input[2..]);
        Within(a.rest, input, 2);
        a
    else
      var a := if input[0] == G then GetInfo(h, input[1..]) else After(Close, h, [], input[1..]);
      Within(a.rest, input, 1);
      a
  }

  /** `Step` by the bytes that choose the command. */
  lemma StepCases(loopback: bool, lockedSpeed: nat, h: Host, input: seq<byte>)
    requires Sized(h) && lockedSpeed < Clock.UINT32
    ensures |input| >= 2 && input[0] == S && input[1] == E ==>
              Step(loopback, lockedSpeed, h, input) == SetTck(lockedSpeed, h, input[2..])
    ensures |input| >= 2 && input[0] == S && input[1] == H ==>
              Step(loopback, lockedSpeed, h, input) == ShiftReply(loopback, h, input[2..])
    ensures |input| >= 1 && input[0] == G ==> Step(loopback, lockedSpeed, h, input) == GetInfo(h, input[1..])
    ensures |input| >= 2 && input[0] == S && input[1] != E && input[1] != H ==>
              Step(loopback, lockedSpeed, h, input) == After(Close, h, [], input[2..])
    ensures |input| == 1 && input[0] == S ==> Step(loopback, lockedSpeed, h, input) == After(Close, h, [], [])
    ensures |input| >= 1 && input[0] != S && input[0] != G ==>
              Step(loopback, lockedSpeed, h, input) == After(Close, h, [], input[1..])
    ensures input == [] ==> Step(loopback, lockedSpeed, h, input) == After(Close, h, [], [])
  {
  }

  // ---------------------------------------------------------------------
  // What the client gets back
  // ---------------------------------------------------------------------

  /** `Step` when the first two bytes are `se`. */
  lemma StepSetTck(loopback: bool, lockedSpeed: nat, h: Host, input: seq<byte>, tail: seq<byte>)
    requires Sized(h) && lockedSpeed < Clock.UINT32
    requires input == [S, E] + tail
    ensures Step(loopback, lockedSpeed, h, input) == SetTck(lockedSpeed, h, tail)
  {
    assert input[2..] == tail;
  }

  /** `Step` when the first two bytes are `sh`. */
  lemma StepShift(loopback: bool, lockedSpeed: nat, h: Host, input: seq<byte>, tail: seq<byte>)
    requires Sized(h) && lockedSpeed < Clock.UINT32
    requires input == [S, H] + tail
    ensures Step(loopback, lockedSpeed, h, input) == ShiftReply(loopback, h, tail)
  {
    assert input[2..] == tail;
  }

  /** `Step` when the first byte is `g`. */
  lemma StepGetInfo(loopback: bool, lockedSpeed: nat, h: Host, input: seq<byte>, tail: seq<byte>)
    requires Sized(h) && lockedSpeed < Clock.UINT32
    requires input == [G] + tail
    ensures Step(loopback, lockedSpeed, h, input) == GetInfo(h, tail)
  {
    assert input[1..] == tail;
  }

  /** `word + rest` starts with `word`, and `rest` follows it. */
  lemma Follows(word: seq<byte>, rest: seq<byte>)
    ensures Starts(word, word + rest) && (word + rest)[|word|..] == rest
  {
    assert (word + rest)[..|word|] == word;
  }

  /** `getinfo:` is answered with the version text, and nothing else
      changes. */
  lemma GetInfoAnswer(loopback: bool, lockedSpeed: nat, h: Host, rest: seq<byte>)
    requires Sized(h) && lockedSpeed < Clock.UINT32
    ensures Step(loopback, lockedSpeed, h, [G] + ETINFO + rest) == After(Continue, h, [INFO], rest)
  {
    StepGetInfo(loopback, lockedSpeed, h, [G] + ETINFO + rest, ETINFO + rest);
    Follows(ETINFO, rest);
  }

  /** `settck:` with a period other than 0 sends the clock command for
      10^9 / period Hz and echoes the four period bytes exactly as they
      came. */
  lemma SetTckAnswer(loopback: bool, lockedSpeed: nat, h: Host, period: seq<byte>, rest: seq<byte>)
    requires Sized(h) && lockedSpeed < Clock.UINT32 && |period| == 4 && LeValue(period) != 0
    ensures var command := Clock.ClockCommand(lockedSpeed, TckFrequency(LeValue(period)));
            Step(loopback, lockedSpeed, h, [S, E] + TTCK + period + rest)
            == After(Continue, h.(link := h.link.(sent := h.link.sent + [command])), [period], rest)
  {
    var afterWord := period + rest;
    StepSetTck(loopback, lockedSpeed, h, [S, E] + TTCK + period + rest, TTCK + afterWord);
    Follows(TTCK, afterWord);
    Follows(period, rest);
    LeBytesOfValue(period);
  }

  /** A period of 0: the frame `settck:` with four zero bytes reaches the
      division of ftdiJTAG.c:803 with a zero divisor, which is the
      precondition `TckFrequency` states.  The model ends the session there
      without a reply. */
  lemma SettckZeroPeriod(loopback: bool, lockedSpeed: nat, h: Host, rest: seq<byte>)
    requires Sized(h) && lockedSpeed < Clock.UINT32
    ensures Fetch32([0, 0, 0, 0] + rest) == (0, rest)
    ensures Step(loopback, lockedSpeed, h, [S, E] + TTCK + [0, 0, 0, 0] + rest) == After(Close, h, [], rest)
  {
    var zero: seq<byte> := [0, 0, 0, 0];
    LeValueZeros(zero);
    var afterWord := zero + rest;
    StepSetTck(loopback, lockedSpeed, h, [S, E] + TTCK + zero + rest, TTCK + afterWord);
    Follows(TTCK, afterWord);
    Follows(zero, rest);
  }

  /** `shift` after the bit count: a request of more than 2048 bytes is
      refused with nothing read; a shift that returns a count returns
      ceil(nBits/8), after reading that many TMS bytes and then that many
      TDI bytes from the input; the counters are as they came. */
  lemma ShiftCountedAnswer(loopback: bool, h: Host, nBits: nat, input: seq<byte>)
    requires Sized(h)
    ensures var e := ShiftCounted(loopback, h, nBits, input);
            var n := ShiftBytes(nBits);
            && (n > XVC_BUFSIZE ==> e == ShiftEnd(false, 0, h, input))
            && (e.nBytes != 0 ==>
                  && e.nBytes == n && !e.exit && 2 * n <= |input| && e.rest == input[2 * n..]
                  && e.host.tms[..n] == input[..n] && e.host.tdi[..n] == input[n .. 2 * n])
  {
    var n := ShiftBytes(nBits);
    if n <= XVC_BUFSIZE && n <= |input| && n <= |input| - n {
      var (tms, afterTms) := Fread(h.tms, n, input);
      var (tdi, afterTdi) := Fread(h.tdi, n, afterTms);
      assert tms[..n] == input[..n];
      assert afterTms == input[n..] && tdi[..n] == afterTms[..n] == input[n .. 2 * n];
      assert afterTdi == input[2 * n..];
      var e := ShiftLoaded(loopback, h.(tms := tms, tdi := tdi), nBits, afterTdi);
      assert ShiftCounted(loopback, h, nBits, input) == e;
    }
  }

  /** `shift` with the bit count `count` in front of `rest`, as
      `ShiftCountedAnswer` says, with the counters moved by one shift and
      nBits bits. */
  lemma ShiftCommandAnswer(loopback: bool, h: Host, count: seq<byte>, rest: seq<byte>)
    requires Sized(h) && |count| == 4
    ensures var nBits := LeValue(count);
            var e := ShiftCommand(loopback, h, count + rest);
            && e == ShiftCounted(loopback, Counted(h, nBits), nBits, rest)
            && e.host.shiftCount == Tick(h.shiftCount, Clock.UINT32)
            && e.host.bitCount == AddBits(h.bitCount, nBits)
  {
    var nBits := LeValue(count);
    Follows(count, rest);
    assert Fetch32(count + rest) == (nBits, rest);
    ShiftCommandCases(loopback, h, count + rest);
    var e := ShiftCounted(loopback, Counted(h, nBits), nBits, rest);
    assert ShiftCommand(loopback, h, count + rest) == e;
    assert e.host.shiftCount == Counted(h, nBits).shiftCount;
  }

  /** `shift:` with the bit count `count`: the counters move by one shift
      and nBits bits whatever follows; a request of more than 2048 bytes
      ends the session; a shift that goes on is answered with the
      ceil(nBits/8) bytes at the start of the TDO buffer, after reading
      that many TMS and then TDI bytes. */
  lemma ShiftAnswer(loopback: bool, lockedSpeed: nat, h: Host, count: seq<byte>, rest: seq<byte>)
    requires Sized(h) && lockedSpeed < Clock.UINT32 && |count| == 4
    ensures var nBits := LeValue(count);
            var n := ShiftBytes(nBits);
            var a := Step(loopback, lockedSpeed, h, [S, H] + IFT + count + rest);
            && a.host.shiftCount == Tick(h.shiftCount, Clock.UINT32)
            && a.host.bitCount == AddBits(h.bitCount, nBits)
            && (n > XVC_BUFSIZE ==> a == After(Close, Counted(h, nBits), [], rest))
            && (a.status == Continue ==>
                  && 0 < n <= XVC_BUFSIZE && a.replies == [a.host.link.tdo[..n]] && 2 * n <= |rest|
                  && a.host.tms[..n] == rest[..n] && a.host.tdi[..n] == rest[n .. 2 * n] && a.rest == rest[2 * n..])
  {
    var nBits := LeValue(count);
    var afterWord := count + rest;
    StepShift(loopback, lockedSpeed, h, [S, H] + IFT + count + rest, IFT + afterWord);
    Follows(IFT, afterWord);
    var e := ShiftCommand(loopback, h, afterWord);
    assert ShiftReply(loopback, h, IFT + afterWord)
        == if e.exit then After(Exit, e.host, [], e.rest)
           else if e.nBytes == 0 then After(Close, e.host, [], e.rest)
           else After(Continue, e.host, [e.host.link.tdo[..e.nBytes]], e.rest);
    ShiftCommandAnswer(loopback, h, count, rest);
    ShiftCountedAnswer(loopback, Counted(h, nBits), nBits, rest);
  }

  /** The first frame readJTAG.py sends (readJTAG.py:38): `shift:` with a
      count of 6 bits, TMS byte 0x1F and TDI byte 0x3F.  Six bits are
      counted, and when the shift goes on the reply is the one TDO byte,
      the two payload bytes are at the start of the buffers and nothing
      more of the input is read. */
  lemma ResetTapFrame(loopback: bool, lockedSpeed: nat, h: Host, count: seq<byte>, payload: seq<byte>, rest: seq<byte>)
    requires Sized(h) && lockedSpeed < Clock.UINT32
    requires count == [6, 0, 0, 0] && payload == [0x1F, 0x3F] + rest
    ensures var a := Step(loopback, lockedSpeed, h, [S, H] + IFT + count + payload);
            && a.host.bitCount == AddBits(h.bitCount, 6)
            && (a.status == Continue ==>
                  && a.replies == [a.host.link.tdo[..1]] && a.rest == rest
                  && a.host.tms[0] == 0x1F && a.host.tdi[0] == 0x3F)
  {
    SixBits(count);
    OneByteFrame(loopback, lockedSpeed, h, count, 6, payload, rest, 0x1F, 0x3F);
  }

  /** The count of the first frame of readJTAG.py reads as 6. */
  lemma SixBits(count: seq<byte>)
    requires count == [6, 0, 0, 0]
    ensures |count| == 4 && LeValue(count) == 6
  {
    LeValueZeros(count[1..]);
  }

  /** A `shift:` of nBits = 1 to 8 bits, with TMS byte `tms` and TDI byte
      `tdi` in front of `rest`: the bits are counted, and when the shift
      goes on the reply is one TDO byte, the two payload bytes head the
      buffers and nothing more of the input is read. */
  lemma OneByteFrame(loopback: bool, lockedSpeed: nat, h: Host, count: seq<byte>, nBits: nat,
                     payload: seq<byte>, rest: seq<byte>, tms: byte, tdi: byte)
    requires Sized(h) && lockedSpeed < Clock.UINT32
    requires |count| == 4 && LeValue(count) == nBits && 1 <= nBits <= 8 && payload == [tms, tdi] + rest
    ensures var a := Step(loopback, lockedSpeed, h, [S, H] + IFT + count + payload);
            && a.host.bitCount == AddBits(h.bitCount, nBits)
            && (a.status == Continue ==>
                  && a.replies == [a.host.link.tdo[..1]] && a.rest == rest
                  && a.host.tms[0] == tms && a.host.tdi[0] == tdi)
  {
    var a := Step(loopback, lockedSpeed, h, [S, H] + IFT + count + payload);
    ShiftAnswer(loopback, lockedSpeed, h, count, payload);
    if a.status == Continue {
      OneByteShift(a, nBits, payload, rest, tms, tdi);
    }
  }

  /** What `ShiftAnswer` says of a shift of 1 to 8 bits whose payload is
      the TMS byte `tms` and the TDI byte `tdi` followed by `rest`. */
  lemma OneByteShift(a: After, nBits: nat, payload: seq<byte>, rest: seq<byte>, tms: byte, tdi: byte)
    requires Sized(a.host) && 1 <= nBits <= 8 && payload == [tms, tdi] + rest
    requires a.status == Continue
    requires var n := ShiftBytes(nBits);
             && 0 < n <= XVC_BUFSIZE && a.replies == [a.host.link.tdo[..n]] && 2 * n <= |payload|
             && a.host.tms[..n] == payload[..n] && a.host.tdi[..n] == payload[n .. 2 * n] && a.rest == payload[2 * n..]
    ensures a.replies == [a.host.link.tdo[..1]] && a.rest == rest
    ensures a.host.tms[0] == tms && a.host.tdi[0] == tdi
  {
    assert ShiftBytes(nBits) == 1;
    assert payload[..1] == [tms] && payload[1..2] == [tdi] && payload[2..] == rest;
    assert a.host.tms[0] == a.host.tms[..1][0] && a.host.tdi[0] == a.host.tdi[..1][0];
  }

  /** What is left after the first k bytes is left of the whole input. */
  lemma Within(rest: seq<byte>, input: seq<byte>, k: nat)
    requires k <= |input| && IsRest(rest, input[k..])
    ensures IsRest(rest, input) && |rest| <= |input| - k
  {
  }

  /** How a session ends, the state then, and every reply written. */
  datatype Ended = Ended(status: Status, host: Host, replies: seq<seq<byte>>)

  /** `processCommands` (ftdiJTAG.c:788-857): command after command until
      one ends the session; with no input left the first `getc` sees the
      end and the session closes. */
  function Serve(loopback: bool, lockedSpeed: nat, h: Host, input: seq<byte>): (e: Ended)
    requires Sized(h) && lockedSpeed < Clock.UINT32
    ensures Sized(e.host) && e.status != Continue
    decreases |input|, 1
  {
    if input == [] then Ended(Close, h, []) else ServeFrom(loopback, lockedSpeed, h, input)
  }

  /** One command, and the session after it when it goes on. */
  function ServeFrom(loopback: bool, lockedSpeed: nat, h: Host, input: seq<byte>): (e: Ended)
    requires Sized(h) && lockedSpeed < Clock.UINT32
    ensures Sized(e.host) && e.status != Continue
    decreases |input|, 0
  {
    var a := Step(loopback, lockedSpeed, h, input);
    if a.status != Continue then Ended(a.status, a.host, a.replies)
    else
      var e := Serve(loopback, lockedSpeed, a.host, a.rest);
      Ended(e.status, e.host, a.replies + e.replies)
  }

  /** The replies `done` already written in front of a session's own. */
  function Prefixed(done: seq<seq<byte>>, e: Ended): Ended {
    Ended(e.status, e.host, done + e.replies)
  }

  /** One turn of the loop of `processCommands`: a command that does not
      go on ends the session as it left it, and one that does leaves the
      rest of the session to the input after it. */
  lemma ServeStep(loopback: bool, lockedSpeed: nat, h: Host, input: seq<byte>, done: seq<seq<byte>>,
                  target: Ended, a: After)
    requires Sized(h) && lockedSpeed < Clock.UINT32
    requires Prefixed(done, Serve(loopback, lockedSpeed, h, input)) == target
    requires a == Step(loopback, lockedSpeed, h, input)
    ensures a.status != Continue ==> target == Ended(a.status, a.host, done + a.replies)
    ensures a.status == Continue ==> Prefixed(done + a.replies, Serve(loopback, lockedSpeed, a.host, a.rest)) == target
  {
    if input == [] {
      assert a == After(Close, h, [], []);
    } else {
      assert Serve(loopback, lockedSpeed, h, input) == ServeFrom(loopback, lockedSpeed, h, input);
      if a.status == Continue {
        var e := Serve(loopback, lockedSpeed, a.host, a.rest);
        assert ServeFrom(loopback, lockedSpeed, h, input) == Ended(e.status, e.host, a.replies + e.replies);
        Assoc(done, a.replies, e.replies);
      }
    }
  }
}
