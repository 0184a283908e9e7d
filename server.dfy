/** The XVC server at work on a connection (ftdiJTAG.c:196-215, 426-442,
    680-857): the methods read the client's bytes, drive the chip through
    the `usbInfo` object and write replies, and each is proved to do what
    the functions of module Xvc say.

    The connection is a `Client`: `input` holds the bytes the client has
    sent and the server has not read yet (its end is the end of the
    stream), `replies` every reply written to it.  Writing a reply always
    succeeds. */
module Server {
  import opened Bits
  import opened Wrappers
  import opened Mpsse
  import opened UsbRead
  import opened Usb
  import opened Chunk
  import opened Transfer
  import opened Framing
  import opened Xvc
  import Clock

  class Client {
    var input: seq<byte>
    var replies: seq<seq<byte>>

    /** A connection on which the client will send `input`. */
    constructor (input: seq<byte>)
      ensures this.input == input && replies == []
    {
      this.input := input;
      replies := [];
    }
  }

  /** The TDO buffer and the USB link as `ShiftChunk` leaves them. */
  ghost function LinkOf(usb: UsbInfo): Link
    reads usb, usb.tdoBuf
  {
    Link(usb.chunkCount, usb.sent, usb.packets, usb.tdoBuf[..])
  }

  /** The part of `usbInfo` a session reads and changes. */
  ghost function HostOf(usb: UsbInfo): (h: Host)
    reads usb, usb.tmsBuf, usb.tdiBuf, usb.tdoBuf
    ensures usb.Valid() ==> Sized(h)
  {
    Host(usb.shiftCount, usb.bitCount, usb.tmsBuf[..], usb.tdiBuf[..], LinkOf(usb))
  }

  // ---------------------------------------------------------------------
  // Reading and writing the connection
  // ---------------------------------------------------------------------

  /** `fgetc`: the next byte, or None (EOF) at the end of the input. */
  method Fgetc(client: Client) returns (c: Option<byte>)
    modifies client`input
    ensures old(client.input) == [] ==> c == None && client.input == []
    ensures old(client.input) != [] ==> c == Some(old(client.input)[0]) && client.input == old(client.input)[1..]
  {
    if client.input == [] {
      return None;
    }
    c := Some(client.input[0]);
    client.input := client.input[1..];
  }

  /** `reply` (ftdiJTAG.c:759-767): the bytes go to the client. */
  method Reply(client: Client, bytes: seq<byte>)
    modifies client`replies
    ensures client.replies == old(client.replies) + [bytes]
  {
    client.replies := client.replies + [bytes];
  }

  /** `fetch32` (ftdiJTAG.c:199-215): four bytes, least significant first.
      It fails when the input ends first, having read all of it. */
  method Fetch32(client: Client) returns (ok: bool, value: nat)
    modifies client`input
    ensures ok <==> |old(client.input)| >= 4
    ensures ok ==> (value, client.input) == Framing.Fetch32(old(client.input))
    ensures !ok ==> client.input == []
  {
    ghost var input0 := client.input;
    // The source counts the shift i = 0, 8, 16, 24; k here is i / 8, and
    // `v |= c << i` adds c * 256^k, as the bits of v from i on are clear.
    var k: nat, v: nat := 0, 0;
    while k < 4
      invariant k <= 4 && k <= |input0| && client.input == input0[k..] && v == LeValue(input0[..k])
    {
      var c := Fgetc(client);
      if c.None? {
        return false, 0;
      }
      assert input0[..k + 1] == input0[..k] + [c.value];
      LeValueSnoc(input0[..k], c.value);
      v := v + c.value as nat * Pow256(k);
      k := k + 1;
    }
    ok, value := true, v;
  }

  /** `reply32` (ftdiJTAG.c:772-783): the low byte of the value is stored,
      the value shifted right by 8, four times, and the four bytes sent. */
  method Reply32(client: Client, value: nat)
    modifies client`replies
    ensures client.replies == old(client.replies) + [LeBytes(value, 4)]
  {
    var cbuf := new byte[4];
    var v, i: nat := value, 0;
    while i < 4
      invariant i <= 4 && cbuf[..i] + LeBytes(v, 4 - i) == LeBytes(value, 4)
      invariant client.replies == old(client.replies)
    {
      var b := (v % 256) as byte;
      ghost var done := cbuf[..i];
      assert LeBytes(v, 4 - i) == [b] + LeBytes(v / 256, 4 - i - 1);
      cbuf[i] := b;
      assert cbuf[..i + 1] == done + [b];
      Assoc(done, [b], LeBytes(v / 256, 4 - i - 1));
      v, i := v / 256, i + 1;
    }
    assert LeBytes(v, 0) == [];
    assert cbuf[..] == cbuf[..4] + LeBytes(v, 0);
    Reply(client, cbuf[..]);
  }

  /** `matchInput` (ftdiJTAG.c:741-757): reads byte after byte while they
      agree with `word`; succeeds when all of it is read. */
  method MatchInput(client: Client, word: seq<byte>) returns (ok: bool)
    modifies client`input
    ensures ok <==> Starts(word, old(client.input))
    ensures client.input == old(client.input)[Consumed(word, old(client.input))..]
    ensures ok ==> client.input == old(client.input)[|word|..]
  {
    ghost var input0 := client.input;
    var k: nat := 0;
    while k < |word|
      invariant k <= |word| && k <= |input0| && input0[..k] == word[..k] && client.input == input0[k..]
      invariant Consumed(word, input0) == k + Consumed(word[k..], client.input)
    {
      ghost var rest := client.input;
      var c := Fgetc(client);
      if c.None? {
        return false;
      }
      if c.value != word[k] {
        assert input0[k] != word[k];
        return false;
      }
      assert word[k..][1..] == word[k + 1..];
      assert input0[..k + 1] == word[..k + 1] by {
        assert input0[..k + 1] == input0[..k] + [input0[k]];
        assert word[..k + 1] == word[..k] + [word[k]];
      }
      k := k + 1;
    }
    assert word[..k] == word;
    ConsumedMatch(word, input0);
    ok := true;
  }

  /** `fread(buf, 1, n, fp)`: the first n bytes of the input, or as many
      as there are, are stored at the start of `buf`. */
  method Fread(client: Client, buf: array<byte>, n: nat) returns (got: nat)
    requires n <= buf.Length
    modifies client`input, buf
    ensures got == Min(n, |old(client.input)|)
    ensures (buf[..], client.input) == Xvc.Fread(old(buf[..]), n, old(client.input))
  {
    got := Min(n, |client.input|);
    ghost var before := buf[..];
    forall k | 0 <= k < got {
      buf[k] := client.input[k];
    }
    assert buf[..] == Put(before, 0, client.input[..got]);
    client.input := client.input[got..];
  }

  // ---------------------------------------------------------------------
  // The clock
  // ---------------------------------------------------------------------

  lemma CommandBytes(lockedSpeed: nat, frequency: nat, f: nat, count: seq<byte>)
    requires lockedSpeed < Clock.UINT32 && frequency < Clock.UINT32
    requires f == (if lockedSpeed != 0 then lockedSpeed else frequency)
    requires count == Clock.Le16(Clock.DivisorForFrequency(f) - 1)
    ensures Clock.ClockCommand(lockedSpeed, frequency) == [Clock.DISABLE_TCK_PRESCALER, Clock.SET_TCK_DIVISOR] + count
  {
  }

  /** `ftdiSetClockSpeed` (ftdiJTAG.c:429-442): the four bytes that set the
      divisor for the frequency (or for `lockedSpeed` when it is set) are
      stored at the head of `ioBuf` and sent. */
  method FtdiSetClockSpeed(usb: UsbInfo, frequency: nat) returns (ok: bool)
    requires usb.Valid() && frequency < Clock.UINT32
    modifies usb.ioBuf, usb`sent
    ensures usb.Valid() && ok
    ensures usb.ioBuf[..4] == Clock.ClockCommand(usb.lockedSpeed, frequency) && usb.ioBuf[4..] == old(usb.ioBuf[4..])
    ensures usb.sent == old(usb.sent) + [Clock.ClockCommand(usb.lockedSpeed, frequency)]
  {
    var f := frequency;
    if usb.lockedSpeed != 0 {
      f := usb.lockedSpeed;
    }
    // `count` goes out as its low byte, then `count >> 8`: Le16.
    var divisor := Clock.DivisorForFrequency(f);
    var count := Clock.Le16(divisor - 1);
    ghost var cmd := Clock.ClockCommand(usb.lockedSpeed, frequency);
    CommandBytes(usb.lockedSpeed, frequency, f, count);
    usb.ioBuf[0] := Clock.DISABLE_TCK_PRESCALER;
    usb.ioBuf[1] := Clock.SET_TCK_DIVISOR;
    usb.ioBuf[2] := count[0];
    usb.ioBuf[3] := count[1];
    assert usb.ioBuf[..4] == cmd;
    UsbWriteData(usb, 4);
    ok := true;
  }

  // ---------------------------------------------------------------------
  // shift
  // ---------------------------------------------------------------------

  /** One piece of the loop of `shift` (ftdiJTAG.c:721): `ShiftChunk` on
      nBits bits from byte `base` on does what `ChunkAfter` says. */
  method ShiftPiece(usb: UsbInfo, base: nat, nBits: nat) returns (outcome: Outcome)
    requires usb.Valid() && nBits <= 8 * USB_SHIFT_LIMIT && 8 * base + nBits <= 8 * XVC_BUFSIZE
    modifies usb`chunkCount, usb`txCount, usb.ioBuf, usb`sent, usb`packets, usb.rxBuf, usb.tdoBuf
    ensures usb.Valid()
    ensures (outcome, LinkOf(usb)) == ChunkAfter(usb.loopback, usb.tmsBuf[..], usb.tdiBuf[..], base, nBits, old(LinkOf(usb)))
  {
    ghost var link := LinkOf(usb);
    outcome := ShiftChunk(usb, base, nBits);
    ChunkEffectAfter(usb.loopback, usb.tmsBuf[..], usb.tdiBuf[..], base, nBits, link, outcome, LinkOf(usb));
  }

  /** The loop of `shift` (ftdiJTAG.c:708-726): the nBits bits in the TMS
      and TDI buffers go to `ShiftChunk` piece by piece, as `ShiftFrom`
      says; it stops at the first piece that is not `Shifted`. */
  method ShiftPieces(usb: UsbInfo, nBits: nat) returns (outcome: Outcome)
    requires usb.Valid() && nBits <= 8 * XVC_BUFSIZE
    modifies usb`chunkCount, usb`txCount, usb.ioBuf, usb`sent, usb`packets, usb.rxBuf, usb.tdoBuf
    ensures usb.Valid()
    ensures (outcome, LinkOf(usb)) == ShiftFrom(usb.loopback, usb.tmsBuf[..], usb.tdiBuf[..], 0, nBits, old(LinkOf(usb)))
  {
    ghost var tmsBuf, tdiBuf, loopback := usb.tmsBuf[..], usb.tdiBuf[..], usb.loopback;
    ghost var link := LinkOf(usb);
    ghost var target := ShiftFrom(loopback, tmsBuf, tdiBuf, 0, nBits, link);
    var left: nat, base: nat := nBits, 0;
    while left != 0
      invariant usb.Valid() && usb.tmsBuf[..] == tmsBuf && usb.tdiBuf[..] == tdiBuf && usb.loopback == loopback
      invariant 8 * base + left <= 8 * XVC_BUFSIZE && link == LinkOf(usb)
      invariant ShiftsTo(loopback, tmsBuf, tdiBuf, base, left, link, target)
      decreases left
    {
      var shiftBytes := (left + 7) / 8;
      if shiftBytes > USB_SHIFT_LIMIT {
        shiftBytes := USB_SHIFT_LIMIT;
      }
      var shiftBits := shiftBytes * 8;
      if shiftBits > left {
        shiftBits := left;
      }
      assert shiftBytes == PieceBytes(left) && shiftBits == PieceBits(left);
      PieceSize(left);
      PieceFits(XVC_BUFSIZE, base, left);
      ghost var base0, left0, link0 := base, left, link;
      outcome := ShiftPiece(usb, base, shiftBits);
      link := LinkOf(usb);
      if outcome != Shifted {
        ShiftFromStep(loopback, tmsBuf, tdiBuf, base0, left0, link0, target, outcome, link, base0 + shiftBytes, left0 - shiftBits);
        return;
      }
      left, base := left - shiftBits, base + shiftBytes;
      ShiftFromStep(loopback, tmsBuf, tdiBuf, base0, left0, link0, target, outcome, link, base, left);
    }
    outcome := Shifted;
  }

  /** `shift` (ftdiJTAG.c:680-736), after the `shift:` keyword, as
      `ShiftCommand` says: the count it returns (0 on failure) and whether
      the program exits on a full `ioBuf`. */
  method Shift(usb: UsbInfo, client: Client) returns (nBytes: nat, exit: bool)
    requires usb.Valid()
    modifies usb`shiftCount, usb`bitCount, usb`chunkCount, usb`txCount, usb`sent, usb`packets
    modifies usb.tmsBuf, usb.tdiBuf, usb.tdoBuf, usb.ioBuf, usb.rxBuf, client`input
    ensures usb.Valid()
    ensures ShiftCommand(usb.loopback, old(HostOf(usb)), old(client.input)) == ShiftEnd(exit, nBytes, HostOf(usb), client.input)
  {
    ghost var h0 := HostOf(usb);
    ShiftCommandCases(usb.loopback, h0, client.input);
    var ok, nBits := Fetch32(client);
    if !ok {
      return 0, false;
    }
    usb.bitCount := AddBits(usb.bitCount, nBits);
    usb.shiftCount := Tick(usb.shiftCount, Clock.UINT32);
    assert HostOf(usb) == Counted(h0, nBits);
    nBytes, exit := ShiftPayload(usb, client, nBits);
  }

  /** The rest of `shift` once the counters are kept (ftdiJTAG.c:693-735),
      as `ShiftCounted` says. */
  method ShiftPayload(usb: UsbInfo, client: Client, nBits: nat) returns (nBytes: nat, exit: bool)
    requires usb.Valid()
    modifies usb`chunkCount, usb`txCount, usb`sent, usb`packets
    modifies usb.tmsBuf, usb.tdiBuf, usb.tdoBuf, usb.ioBuf, usb.rxBuf, client`input
    ensures usb.Valid()
    ensures ShiftCounted(usb.loopback, old(HostOf(usb)), nBits, old(client.input)) == ShiftEnd(exit, nBytes, HostOf(usb), client.input)
  {
    nBytes := ShiftBytes(nBits);
    if nBytes > XVC_BUFSIZE {
      return 0, false;
    }
    var got := Fread(client, usb.tmsBuf, nBytes);
    if got != nBytes {
      return 0, false;
    }
    got := Fread(client, usb.tdiBuf, nBytes);
    if got != nBytes {
      return 0, false;
    }
    var outcome := ShiftPieces(usb, nBits);
    if outcome != Shifted {
      return 0, outcome == TxOverflow;
    }
    exit := false;
  }

  // ---------------------------------------------------------------------
  // processCommands
  // ---------------------------------------------------------------------

  /** A command has ended as `a` says: its status, the state it left, the
      input still unread and the replies it added to `done`. */
  ghost predicate Leaves(usb: UsbInfo, client: Client, done: seq<seq<byte>>, status: Status, a: After)
    reads usb, usb.tmsBuf, usb.tdiBuf, usb.tdoBuf, client
  {
    a.status == status && a.host == HostOf(usb) && a.rest == client.input && client.replies == done + a.replies
  }

  /** `settck:` after its first two bytes (ftdiJTAG.c:795-808), as `SetTck`
      says. */
  method SetTckCommand(usb: UsbInfo, client: Client) returns (status: Status)
    requires usb.Valid()
    modifies usb.ioBuf, usb`sent, client`input, client`replies
    ensures usb.Valid()
    ensures Leaves(usb, client, old(client.replies), status, SetTck(usb.lockedSpeed, old(HostOf(usb)), old(client.input)))
  {
    var ok := MatchInput(client, TTCK);
    if !ok {
      return Close;
    }
    var got, num := Fetch32(client);
    if !got {
      return Close;
    }
    if num == 0 {
      return Close;
    }
    var frequency := TckFrequency(num);
    ok := FtdiSetClockSpeed(usb, frequency);
    Reply32(client, num);
    return Continue;
  }

  /** `shift:` after its first two bytes (ftdiJTAG.c:810-818), as
      `ShiftReply` says. */
  method ShiftReplyCommand(usb: UsbInfo, client: Client) returns (status: Status)
    requires usb.Valid()
    modifies usb`shiftCount, usb`bitCount, usb`chunkCount, usb`txCount, usb`sent, usb`packets
    modifies usb.tmsBuf, usb.tdiBuf, usb.tdoBuf, usb.ioBuf, usb.rxBuf, client`input, client`replies
    ensures usb.Valid()
    ensures Leaves(usb, client, old(client.replies), status, ShiftReply(usb.loopback, old(HostOf(usb)), old(client.input)))
  {
    var ok := MatchInput(client, IFT);
    if !ok {
      return Close;
    }
    var nBytes, exit := Shift(usb, client);
    if exit {
      return Exit;
    }
    if nBytes == 0 {
      return Close;
    }
    Reply(client, usb.tdoBuf[..nBytes]);
    return Continue;
  }

  /** `getinfo:` after its first byte (ftdiJTAG.c:830-843), as `GetInfo`
      says. */
  method GetInfoCommand(usb: UsbInfo, client: Client) returns (status: Status)
    modifies client`input, client`replies
    ensures Leaves(usb, client, old(client.replies), status, GetInfo(HostOf(usb), old(client.input)))
  {
    var ok := MatchInput(client, ETINFO);
    if !ok {
      return Close;
    }
    Reply(client, INFO);
    return Continue;
  }

  /** One pass of the loop of `processCommands` (ftdiJTAG.c:792-856), as
      `Step` says. */
  method ProcessCommand(usb: UsbInfo, client: Client) returns (status: Status)
    requires usb.Valid()
    modifies usb`shiftCount, usb`bitCount, usb`chunkCount, usb`txCount, usb`sent, usb`packets
    modifies usb.tmsBuf, usb.tdiBuf, usb.tdoBuf, usb.ioBuf, usb.rxBuf, client`input, client`replies
    ensures usb.Valid()
    ensures Leaves(usb, client, old(client.replies), status,
                   Step(usb.loopback, usb.lockedSpeed, old(HostOf(usb)), old(client.input)))
  {
    ghost var h, input := HostOf(usb), client.input;
    StepCases(usb.loopback, usb.lockedSpeed, h, input);
    var c := Fgetc(client);
    if c == Some(S) {
      var c2 := Fgetc(client);
      if c2 == Some(E) {
        assert HostOf(usb) == h && client.input == input[2..];
        status := SetTckCommand(usb, client);
      } else if c2 == Some(H) {
        assert HostOf(usb) == h && client.input == input[2..];
        status := ShiftReplyCommand(usb, client);
      } else {
        status := Close;
      }
    } else if c == Some(G) {
      assert HostOf(usb) == h && client.input == input[1..];
      status := GetInfoCommand(usb, client);
    } else {
      status := Close;
    }
  }

  /** `processCommands` (ftdiJTAG.c:788-857): commands are answered until
      one ends the session, as `Serve` says. */
  method ProcessCommands(usb: UsbInfo, client: Client) returns (status: Status)
    requires usb.Valid()
    modifies usb`shiftCount, usb`bitCount, usb`chunkCount, usb`txCount, usb`sent, usb`packets
    modifies usb.tmsBuf, usb.tdiBuf, usb.tdoBuf, usb.ioBuf, usb.rxBuf, client`input, client`replies
    ensures usb.Valid()
    ensures var e := Serve(old(usb.loopback), old(usb.lockedSpeed), old(HostOf(usb)), old(client.input));
            e.status == status && e.host == HostOf(usb) && client.replies == old(client.replies) + e.replies
  {
    ghost var loopback, lockedSpeed := usb.loopback, usb.lockedSpeed;
    ghost var h, input := HostOf(usb), client.input;
    ghost var target := Prefixed(client.replies, Serve(loopback, lockedSpeed, h, input));
    while true
      invariant usb.Valid() && usb.loopback == loopback && usb.lockedSpeed == lockedSpeed
      invariant h == HostOf(usb) && input == client.input
      invariant Prefixed(client.replies, Serve(loopback, lockedSpeed, h, input)) == target
      decreases |client.input|
    {
      ghost var done := client.replies;
      status := ProcessCommand(usb, client);
      ghost var a := Step(loopback, lockedSpeed, h, input);
      ServeStep(loopback, lockedSpeed, h, input, done, target, a);
      if status != Continue {
        return;
      }
      h, input := HostOf(usb), client.input;
    }
  }
}
