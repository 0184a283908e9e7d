/** The FTDI MPSSE command stream that `shiftChunk` (ftdiJTAG.c) builds for
    one piece of a JTAG shift, and how it decodes the device's answer.  The
    opcodes are those of FTDI application note AN_108.

    The piece is given as two equally long bit streams, `tms` and `tdi`.
    `shiftChunk` cuts it into groups: a TMS command of one to six bits during
    which TDI holds one value, followed by a run of TDI bits during which TMS
    holds the last TMS bit sent. */
module Mpsse {
  import opened Bits
  import opened Wrappers

  /** WRITE_TMS | READ_DATA | LSB_FIRST | BIT_MODE | WRITE_ON_FALLING_EDGE */
  const XFER_TMS_BITS: byte := 0x6B
  /** WRITE_DATA | READ_DATA | LSB_FIRST | WRITE_ON_FALLING_EDGE */
  const XFER_TDI_BYTES: byte := 0x39
  /** WRITE_DATA | READ_DATA | LSB_FIRST | BIT_MODE | WRITE_ON_FALLING_EDGE */
  const XFER_TDI_BITS: byte := 0x3B
  const ENABLE_LOOPBACK: byte := 0x84

  /** Capacity of the USB transmit buffer `ioBuf` (USB_SHIFT_LIMIT * 4). */
  const USB_BUFSIZE: nat := 4000
  /** A TMS command carries at most six bits, so that the seventh data bit
      can repeat the last one and the eighth can carry TDI. */
  const TMS_LIMIT: nat := 6

  /** One pass of the outer loop of `shiftChunk`. */
  datatype Group = Group(tms: seq<bool>, tdiLevel: bool, run: seq<bool>)

  predicate WellFormed(g: Group) {
    1 <= |g.tms| <= TMS_LIMIT
  }

  /** The TMS value held during the TDI run of a group. */
  function LastTms(g: Group): bool
    requires WellFormed(g)
  {
    g.tms[|g.tms| - 1]
  }

  function Size(g: Group): nat {
    |g.tms| + |g.run|
  }

  function Repeat(b: bool, n: nat): (s: seq<bool>)
    ensures |s| == n && forall i :: 0 <= i < n ==> s[i] == b
  {
    seq(n, _ => b)
  }

  // ---------------------------------------------------------------------
  // Cutting a piece into groups
  // ---------------------------------------------------------------------

  /** Number of bits the TMS command starting at bit p takes, k of them
      being stashed already: it stops at six bits, at the end of the piece,
      or before the first bit whose TDI differs from that of bit p. */
  function TmsSpan(tdi: seq<bool>, p: nat, k: nat): (n: nat)
    requires 1 <= k <= TMS_LIMIT && p + k <= |tdi|
    ensures k <= n <= TMS_LIMIT && p + n <= |tdi|
    decreases TMS_LIMIT - k
  {
    if k < TMS_LIMIT && p + k < |tdi| && tdi[p + k] == tdi[p] then TmsSpan(tdi, p, k + 1) else k
  }

  /** Number of bits from p on whose TMS equals `level`: the TDI run. */
  function HoldSpan(tms: seq<bool>, p: nat, level: bool): (m: nat)
    requires p <= |tms|
    ensures p + m <= |tms|
    decreases |tms| - p
  {
    if p < |tms| && tms[p] == level then 1 + HoldSpan(tms, p + 1, level) else 0
  }

  function GroupAt(tms: seq<bool>, tdi: seq<bool>, p: nat): (g: Group)
    requires |tms| == |tdi| && p < |tms|
    ensures WellFormed(g) && p + Size(g) <= |tms|
  {
    var n := TmsSpan(tdi, p, 1);
    var m := HoldSpan(tms, p + n, tms[p + n - 1]);
    Group(tms[p .. p + n], tdi[p], tdi[p + n .. p + n + m])
  }

  /** The groups of the bits from p on. */
  function GroupsFrom(tms: seq<bool>, tdi: seq<bool>, p: nat): (gs: seq<Group>)
    requires |tms| == |tdi| && p <= |tms|
    ensures forall i :: 0 <= i < |gs| ==> WellFormed(gs[i]) && |gs[i].run| <= |tms|
    decreases |tms| - p
  {
    if p == |tms| then []
    else
      var g := GroupAt(tms, tdi, p);
      [g] + GroupsFrom(tms, tdi, p + Size(g))
  }

  function Groups(tms: seq<bool>, tdi: seq<bool>): (gs: seq<Group>)
    requires |tms| == |tdi|
  {
    GroupsFrom(tms, tdi, 0)
  }

  // ---------------------------------------------------------------------
  // The bytes queued for each group
  // ---------------------------------------------------------------------

  function Zeros(n: nat): (s: seq<bool>)
    ensures |s| == n && forall i :: 0 <= i < n ==> !s[i]
  {
    Repeat(false, n)
  }

  /** The data byte of a TMS command: the n TMS bits, the last one again
      (so TMS keeps its value for the TDI commands that follow), clear bits,
      and in bit 7 the value TDI holds meanwhile. */
  function TmsData(g: Group): byte
    requires WellFormed(g)
  {
    var n := |g.tms|;
    PackByte(g.tms + [LastTms(g)] + Zeros(TMS_LIMIT - n) + [g.tdiLevel])
  }

  function TmsCommand(g: Group): (c: seq<byte>)
    requires WellFormed(g)
    ensures |c| == 3 && c[0] == XFER_TMS_BITS && c[1] as int + 1 == |g.tms| <= TMS_LIMIT
  {
    [XFER_TMS_BITS, (|g.tms| - 1) as byte, TmsData(g)]
  }

  /** The byte-mode command for the whole bytes of a TDI run, if there are
      any: the byte count minus one, low byte first, then the packed bytes. */
  function ByteCommand(whole: seq<bool>, k: nat): seq<byte>
    requires |whole| == 8 * k
  {
    if k == 0 then []
    else [XFER_TDI_BYTES, ((k - 1) % 256) as byte, ((k - 1) / 256 % 256) as byte] + Pack(whole)
  }

  /** The bit-mode command for the leftover bits of a TDI run, if any. */
  function BitCommand(tail: seq<bool>): seq<byte>
    requires |tail| < 8
  {
    if tail == [] then [] else [XFER_TDI_BITS, (|tail| - 1) as byte, PackByte(tail)]
  }

  /** The number of whole bytes in n bits. */
  function WholeBytes(n: nat): (k: nat)
    ensures 8 * k <= n < 8 * k + 8
  {
    n / 8
  }

  /** The TDI commands for a run: its whole bytes, then its leftover bits. */
  function TdiCommands(run: seq<bool>): (c: seq<byte>)
    ensures run == [] ==> c == []
    ensures run != [] ==> |c| >= 3 && (c[0] == XFER_TDI_BYTES || c[0] == XFER_TDI_BITS)
  {
    var k := WholeBytes(|run|);
    ByteCommand(run[..8 * k], k) + BitCommand(run[8 * k ..])
  }

  function GroupCommands(g: Group): seq<byte>
    requires WellFormed(g)
  {
    TmsCommand(g) + TdiCommands(g.run)
  }

  function Commands(gs: seq<Group>): seq<byte>
    requires forall i :: 0 <= i < |gs| ==> WellFormed(gs[i])
  {
    if gs == [] then [] else GroupCommands(gs[0]) + Commands(gs[1..])
  }

  /** Everything `shiftChunk` queues for a piece: the loopback command when
      loopback is on, then the commands of every group. */
  function ChunkCommands(loopback: bool, tms: seq<bool>, tdi: seq<bool>): (c: seq<byte>)
    requires |tms| == |tdi|
    ensures loopback ==> c != [] && c[0] == ENABLE_LOOPBACK
    ensures tms != [] ==> |c| > (if loopback then 1 else 0) && c[if loopback then 1 else 0] == XFER_TMS_BITS
    ensures tms == [] ==> c == (if loopback then [ENABLE_LOOPBACK] else [])
  {
    (if loopback then [ENABLE_LOOPBACK] else []) + Commands(Groups(tms, tdi))
  }

  // ---------------------------------------------------------------------
  // Reading the answer back
  // ---------------------------------------------------------------------

  /** The bit counts `shiftChunk` records in `rxBitcounts`: one per TMS
      command and one per non-empty TDI run. */
  function GroupCounts(g: Group): seq<nat> {
    [|g.tms|] + (if |g.run| > 0 then [|g.run|] else [])
  }

  function Counts(gs: seq<Group>): (cs: seq<nat>)
    ensures |gs| <= |cs| <= 2 * |gs|
  {
    if gs == [] then [] else GroupCounts(gs[0]) + Counts(gs[1..])
  }

  function Sum(counts: seq<nat>): nat {
    if counts == [] then 0 else counts[0] + Sum(counts[1..])
  }

  /** Response bytes of an entry of c bits: one per whole byte and one for
      the leftover bits. */
  function EntryBytes(c: nat): nat {
    (c + 7) / 8
  }

  /** `rxWanted`: the number of response bytes `shiftChunk` waits for. */
  function RxBytes(counts: seq<nat>): nat {
    if counts == [] then 0 else EntryBytes(counts[0]) + RxBytes(counts[1..])
  }

  /** The bit position, within its response byte, of bit t of an entry of c
      bits: whole bytes are read from bit 0 up, while the c % 8 leftover
      bits of a bit-mode read arrive in the top bits of their byte. */
  function SrcPos(c: nat, t: nat): (j: nat)
    requires t < c
    ensures j < 8
  {
    if t < c / 8 * 8 then t % 8 else 8 - c % 8 + (t - c / 8 * 8)
  }

  function EntryBits(c: nat, bytes: seq<byte>): (bits: seq<bool>)
    requires |bytes| == EntryBytes(c)
    ensures |bits| == c
  {
    seq(c, t requires 0 <= t < c => BitOf(bytes[t / 8], SrcPos(c, t)))
  }

  /** The TDO stream `shiftChunk` unpacks from the response bytes. */
  function Unpack(counts: seq<nat>, rx: seq<byte>): (tdo: seq<bool>)
    requires |rx| == RxBytes(counts)
    ensures |tdo| == Sum(counts)
  {
    if counts == [] then []
    else
      var b := EntryBytes(counts[0]);
      EntryBits(counts[0], rx[..b]) + Unpack(counts[1..], rx[b..])
  }

  // ---------------------------------------------------------------------
  // What the device sends back
  // ---------------------------------------------------------------------

  /** A bit-mode read of r bits shifts them in from the top of the byte. */
  function TopByte(bits: seq<bool>): byte
    requires 1 <= |bits| <= 8
  {
    PackByte(Zeros(8 - |bits|) + bits)
  }

  /** The answer to a bit-mode read, if there is one. */
  function TailByte(bits: seq<bool>): seq<byte>
    requires |bits| < 8
  {
    if bits == [] then [] else [TopByte(bits)]
  }

  /** The device's answer to the command(s) of one entry, given the TDO bit
      it sampled on each clock: the whole bytes as they are, the leftover
      bits in the top of one more byte. */
  function RespondEntry(tdo: seq<bool>): seq<byte> {
    var k := WholeBytes(|tdo|);
    Pack(tdo[..8 * k]) + TailByte(tdo[8 * k ..])
  }

  function Respond(counts: seq<nat>, tdo: seq<bool>): seq<byte>
    requires Sum(counts) == |tdo|
  {
    if counts == [] then [] else RespondEntry(tdo[..counts[0]]) + Respond(counts[1..], tdo[counts[0]..])
  }

  // ---------------------------------------------------------------------
  // A reference model of the MPSSE engine
  // ---------------------------------------------------------------------

  /** What the engine did for a command stream: the TMS and TDI values it
      put out on successive clocks and the bytes it returned. */
  datatype Clocking = Clocking(tms: seq<bool>, tdi: seq<bool>, rx: seq<byte>)

  function Then(c: Clocking, rest: Option<Clocking>): Option<Clocking> {
    match rest
    case None => None
    case Some(r) => Some(Clocking(c.tms + r.tms, c.tdi + r.tdi, c.rx + r.rx))
  }

  /** The clocks of a stream are its first command's and then the rest's. */
  lemma ThenLength(c: Clocking, rest: Option<Clocking>, n: nat)
    requires |c.tms| == |c.tdi| == n
    ensures Then(c, rest).Some? ==> rest.Some? && |Then(c, rest).value.tms| == n + |rest.value.tms|
    ensures Then(c, rest).Some? ==> |Then(c, rest).value.tdi| == n + |rest.value.tdi|
  {
  }

  /** The bits a bit-mode command clocks out of its data byte. */
  function LowBits(d: byte, n: nat): (bits: seq<bool>)
    requires n <= 8
    ensures |bits| == n
  {
    seq(n, i requires 0 <= i < n => BitOf(d, i))
  }

  /** How an MPSSE engine executes a command stream, after FTDI application
      note AN_108: `tdo` is the value on TDO at each clock, `held` the level
      the TMS pin keeps between TMS commands.  A TMS command clocks out up to
      seven TMS bits with bit 7 of its data on TDI and leaves the TMS pin at
      the data bit after the last one clocked (bit n for n bits); the TDI commands clock whole bytes or up to eight bits with TMS
      held.  Each command returns what it sampled: whole bytes as they are,
      the bits of a bit-mode command shifted in from the top of one byte.
      After ENABLE_LOOPBACK the engine samples its own TDI output instead of
      TDO.  None for a stream it cannot carry out completely, or one that
      does not use up `tdo` exactly. */
  function Run(cmds: seq<byte>, loopback: bool, held: bool, tdo: seq<bool>): (r: Option<Clocking>)
    ensures r.Some? ==> |r.value.tms| == |tdo| && |r.value.tdi| == |tdo|
    decreases |cmds|
  {
    if cmds == [] then
      if tdo == [] then Some(Clocking([], [], [])) else None
    else if cmds[0] == ENABLE_LOOPBACK then Run(cmds[1..], true, held, tdo)
    else if |cmds| < 3 then None
    else if cmds[0] == XFER_TMS_BITS then
      var n := cmds[1] as int + 1;
      if n > 7 || |tdo| < n then None
      else
        var tdiBits := Repeat(BitOf(cmds[2], 7), n);
        var sampled := if loopback then tdiBits else tdo[..n];
        var more := Run(cmds[3..], loopback, BitOf(cmds[2], n), tdo[n..]);
        ThenLength(Clocking(LowBits(cmds[2], n), tdiBits, [TopByte(sampled)]), more, n);
        Then(Clocking(LowBits(cmds[2], n), tdiBits, [TopByte(sampled)]), more)
    else if cmds[0] == XFER_TDI_BYTES then
      var k := cmds[1] as int + 256 * cmds[2] as int + 1;
      if |cmds| < 3 + k || |tdo| < 8 * k then None
      else
        var tdiBits := Unpacked(cmds[3 .. 3 + k]);
        var sampled := if loopback then tdiBits else tdo[..8 * k];
        var more := Run(cmds[3 + k ..], loopback, held, tdo[8 * k ..]);
        ThenLength(Clocking(Repeat(held, 8 * k), tdiBits, Pack(sampled)), more, 8 * k);
        Then(Clocking(Repeat(held, 8 * k), tdiBits, Pack(sampled)), more)
    else if cmds[0] == XFER_TDI_BITS then
      var r := cmds[1] as int + 1;
      if r > 8 || |tdo| < r then None
      else
        var tdiBits := LowBits(cmds[2], r);
        var sampled := if loopback then tdiBits else tdo[..r];
        var more := Run(cmds[3..], loopback, held, tdo[r..]);
        ThenLength(Clocking(Repeat(held, r), tdiBits, [TopByte(sampled)]), more, r);
        Then(Clocking(Repeat(held, r), tdiBits, [TopByte(sampled)]), more)
    else None
  }

  // ---------------------------------------------------------------------
  // Properties of the cut
  // ---------------------------------------------------------------------

  /** A TMS command takes bits of one TDI value, and stops only at the
      six-bit limit, at the end of the piece, or where TDI changes. */
  lemma {:induction false} TmsSpanFacts(tdi: seq<bool>, p: nat, k: nat)
    requires 1 <= k <= TMS_LIMIT && p + k <= |tdi|
    requires forall i :: p <= i < p + k ==> tdi[i] == tdi[p]
    ensures var n := TmsSpan(tdi, p, k);
            (forall i :: p <= i < p + n ==> tdi[i] == tdi[p]) &&
            (n == TMS_LIMIT || p + n == |tdi| || tdi[p + n] != tdi[p])
    decreases TMS_LIMIT - k
  {
    if k < TMS_LIMIT && p + k < |tdi| && tdi[p + k] == tdi[p] {
      TmsSpanFacts(tdi, p, k + 1);
    }
  }

  /** A TDI run takes the bits whose TMS is `level`, as many as there are. */
  lemma {:induction false} HoldSpanFacts(tms: seq<bool>, p: nat, level: bool)
    requires p <= |tms|
    ensures var m := HoldSpan(tms, p, level);
            (forall i :: p <= i < p + m ==> tms[i] == level) &&
            (p + m == |tms| || tms[p + m] != level)
    decreases |tms| - p
  {
    if p < |tms| && tms[p] == level {
      HoldSpanFacts(tms, p + 1, level);
    }
  }

  /** The group cut at bit p: its TMS command sends the next n TMS bits
      while TDI holds the value of bit p, all n bits having that TDI value;
      the TDI run after it covers exactly the following bits whose TMS
      equals the last TMS bit sent, and both parts are as long as the rules
      allow. */
  lemma GroupAtFacts(tms: seq<bool>, tdi: seq<bool>, p: nat)
    requires |tms| == |tdi| && p < |tms|
    ensures var g := GroupAt(tms, tdi, p);
            var n, m := |g.tms|, |g.run|;
            && g.tms == tms[p .. p + n]
            && g.tdiLevel == tdi[p]
            && (forall i :: p <= i < p + n ==> tdi[i] == g.tdiLevel)
            && (n == TMS_LIMIT || p + n == |tms| || tdi[p + n] != g.tdiLevel)
            && g.run == tdi[p + n .. p + n + m]
            && (forall i :: p + n <= i < p + n + m ==> tms[i] == LastTms(g))
            && (p + n + m == |tms| || tms[p + n + m] != LastTms(g))
  {
    GroupTmsFacts(tms, tdi, p);
    GroupRunFacts(tms, tdi, p);
  }

  /** The TMS command of the group cut at p. */
  lemma GroupTmsFacts(tms: seq<bool>, tdi: seq<bool>, p: nat)
    requires |tms| == |tdi| && p < |tms|
    ensures var g := GroupAt(tms, tdi, p);
            var n := |g.tms|;
            && g.tms == tms[p .. p + n]
            && g.tdiLevel == tdi[p]
            && (forall i :: p <= i < p + n ==> tdi[i] == g.tdiLevel)
            && (n == TMS_LIMIT || p + n == |tms| || tdi[p + n] != g.tdiLevel)
  {
    TmsSpanFacts(tdi, p, 1);
  }

  /** The TDI run of the group cut at p. */
  lemma GroupRunFacts(tms: seq<bool>, tdi: seq<bool>, p: nat)
    requires |tms| == |tdi| && p < |tms|
    ensures var g := GroupAt(tms, tdi, p);
            var n, m := |g.tms|, |g.run|;
            && g.run == tdi[p + n .. p + n + m]
            && (forall i :: p + n <= i < p + n + m ==> tms[i] == LastTms(g))
            && (p + n + m == |tms| || tms[p + n + m] != LastTms(g))
  {
    var n := TmsSpan(tdi, p, 1);
    HoldSpanFacts(tms, p + n, tms[p + n - 1]);
  }

  /** Every TMS command has the form 0x6B, n - 1, data with 1 <= n <= 6: data
      bits 0 .. n-1 are the TMS bits, bit n repeats the last of them, the bits
      above are clear and bit 7 is the TDI value. */
  lemma TmsCommandForm(g: Group)
    requires WellFormed(g)
    ensures var c, n := TmsCommand(g), |g.tms|;
            && |c| == 3 && c[0] == XFER_TMS_BITS && c[1] as int == n - 1
            && (forall i :: 0 <= i < n ==> BitOf(c[2], i) == g.tms[i])
            && BitOf(c[2], n) == LastTms(g)
            && (forall i :: n < i < 7 ==> !BitOf(c[2], i))
            && BitOf(c[2], 7) == g.tdiLevel
  {
    var n, d := |g.tms|, TmsData(g);
    assert (n - 1) as byte as int == n - 1 by { ByteOf(n - 1); }
    forall i | 0 <= i < 8
      ensures BitOf(d, i) == if i < n then g.tms[i] else if i == n then LastTms(g) else i == 7 && g.tdiLevel
    {
      TmsDataBit(g, i);
    }
  }

  lemma TmsDataBit(g: Group, i: nat)
    requires WellFormed(g) && i < 8
    ensures var n := |g.tms|;
            BitOf(TmsData(g), i) == if i < n then g.tms[i] else if i == n then LastTms(g) else i == 7 && g.tdiLevel
  {
    var n := |g.tms|;
    var bits := g.tms + [LastTms(g)] + Zeros(TMS_LIMIT - n) + [g.tdiLevel];
    assert |bits| == 8 && bits[i] == if i < n then g.tms[i] else if i == n then LastTms(g) else i == 7 && g.tdiLevel;
    PackByteBit(bits, i);
  }

  // ---------------------------------------------------------------------
  // Running the queued commands
  // ---------------------------------------------------------------------

  function Join(a: Clocking, b: Clocking): Clocking {
    Clocking(a.tms + b.tms, a.tdi + b.tdi, a.rx + b.rx)
  }

  lemma ThenThen(a: Clocking, b: Clocking, x: Option<Clocking>)
    ensures Then(a, Then(b, x)) == Then(Join(a, b), x)
  {
    if x.Some? {
      var r := x.value;
      assert a.tms + (b.tms + r.tms) == (a.tms + b.tms) + r.tms;
      assert a.tdi + (b.tdi + r.tdi) == (a.tdi + b.tdi) + r.tdi;
      assert a.rx + (b.rx + r.rx) == (a.rx + b.rx) + r.rx;
    }
  }

  /** What the engine does with a TMS command: the group's TMS bits with
      TDI at the group's level, and TMS then held at the group's last bit,
      because data bit n repeats it (which needs n <= 6, so that bit n is
      not the TDI level in bit 7). */
  lemma RunTms(g: Group, rest: seq<byte>, loopback: bool, held: bool, tdo: seq<bool>)
    requires WellFormed(g) && |g.tms| <= |tdo|
    ensures var n := |g.tms|;
            var tdiBits := Repeat(g.tdiLevel, n);
            Run(TmsCommand(g) + rest, loopback, held, tdo)
            == Then(Clocking(g.tms, tdiBits, [TopByte(if loopback then tdiBits else tdo[..n])]),
                    Run(rest, loopback, LastTms(g), tdo[n..]))
  {
    var n := |g.tms|;
    var cmds := TmsCommand(g) + rest;
    TmsCommandHead(g, rest);
    TmsDataFacts(g);
    RunTmsStep(cmds, n, loopback, held, tdo);
  }

  lemma TmsCommandHead(g: Group, rest: seq<byte>)
    requires WellFormed(g)
    ensures var cmds := TmsCommand(g) + rest;
            |cmds| >= 3 && cmds[0] == XFER_TMS_BITS && cmds[1] as int + 1 == |g.tms|
            && cmds[2] == TmsData(g) && cmds[3..] == rest
  {
    var n := |g.tms|;
    assert (n - 1) as byte as int == n - 1 by { ByteOf(n - 1); }
    DropFront(TmsCommand(g), rest);
  }

  /** The bits of a TMS command's data byte that the engine uses: the
      clocked bits, the TDI level, and bit n, which the pin holds after. */
  lemma TmsDataFacts(g: Group)
    requires WellFormed(g)
    ensures var n, d := |g.tms|, TmsData(g);
            LowBits(d, n) == g.tms && BitOf(d, 7) == g.tdiLevel && BitOf(d, n) == LastTms(g)
  {
    var n, d := |g.tms|, TmsData(g);
    forall i | 0 <= i < n
      ensures BitOf(d, i) == g.tms[i]
    {
      TmsDataBit(g, i);
    }
    TmsDataBit(g, n);
    TmsDataBit(g, 7);
  }

  /** One step of the engine on a TMS command of n bits. */
  lemma RunTmsStep(cmds: seq<byte>, n: nat, loopback: bool, held: bool, tdo: seq<bool>)
    requires 3 <= |cmds| && cmds[0] == XFER_TMS_BITS
    requires cmds[1] as int + 1 == n && n <= 7 && n <= |tdo|
    ensures var tdiBits := Repeat(BitOf(cmds[2], 7), n);
            Run(cmds, loopback, held, tdo)
            == Then(Clocking(LowBits(cmds[2], n), tdiBits, [TopByte(if loopback then tdiBits else tdo[..n])]),
                    Run(cmds[3..], loopback, BitOf(cmds[2], n), tdo[n..]))
  {
  }

  /** Whole bytes of a TDI run survive packing. */
  lemma UnpackedPack(run: seq<bool>, k: nat)
    requires |run| == 8 * k
    ensures |Pack(run)| == k && Unpacked(Pack(run)) == run
  {
    PackLength(run);
    assert (8 * k + 7) / 8 == k;
    UnpackPack(run);
  }

  /** One step of the engine on a byte-mode command of k bytes. */
  lemma RunBytesStep(cmds: seq<byte>, k: nat, loopback: bool, held: bool, tdo: seq<bool>)
    requires 3 + k <= |cmds| && cmds[0] == XFER_TDI_BYTES
    requires cmds[1] as int + 256 * cmds[2] as int + 1 == k && 8 * k <= |tdo|
    ensures var tdiBits := Unpacked(cmds[3 .. 3 + k]);
            Run(cmds, loopback, held, tdo)
            == Then(Clocking(Repeat(held, 8 * k), tdiBits, Pack(if loopback then tdiBits else tdo[..8 * k])),
                    Run(cmds[3 + k ..], loopback, held, tdo[8 * k ..]))
  {
  }

  /** The two length bytes of a byte-mode command give back its length. */
  lemma LengthBytes(k: nat)
    requires 1 <= k <= 65536
    ensures ((k - 1) % 256) as byte as int + 256 * ((k - 1) / 256 % 256) as byte as int + 1 == k
  {
    var lo, hi := (k - 1) % 256, (k - 1) / 256;
    assert k - 1 == 256 * hi + lo && hi < 256;
    assert hi % 256 == hi by { ModSmall(hi); }
    assert lo as byte as int == lo by { ByteOf(lo); }
    assert hi as byte as int == hi by { ByteOf(hi); }
  }

  /** What the engine does with the byte-mode command of a TDI run. */
  lemma RunBytes(whole: seq<bool>, k: nat, rest: seq<byte>, loopback: bool, held: bool, tdo: seq<bool>)
    requires |whole| == 8 * k && k <= 65536 && |whole| <= |tdo|
    ensures Run(ByteCommand(whole, k) + rest, loopback, held, tdo)
            == Then(Clocking(Repeat(held, |whole|), whole, Pack(if loopback then whole else tdo[..|whole|])),
                    Run(rest, loopback, held, tdo[|whole|..]))
  {
    if k == 0 {
      assert ByteCommand(whole, k) + rest == rest && whole == [] && tdo[0..] == tdo;
      ThenNothing(Run(rest, loopback, held, tdo));
      assert Repeat(held, 0) == [] && Pack([]) == [];
    } else {
      UnpackedPack(whole, k);
      LengthBytes(k);
      var cmds := ByteCommand(whole, k) + rest;
      assert cmds[3 .. 3 + k] == Pack(whole);
      assert cmds[3 + k ..] == rest;
      RunBytesStep(cmds, k, loopback, held, tdo);
    }
  }

  /** One step of the engine on a bit-mode command of r bits. */
  lemma RunBitsStep(cmds: seq<byte>, r: nat, loopback: bool, held: bool, tdo: seq<bool>)
    requires 3 <= |cmds| && cmds[0] == XFER_TDI_BITS
    requires cmds[1] as int + 1 == r && r <= 8 && r <= |tdo|
    ensures var tdiBits := LowBits(cmds[2], r);
            Run(cmds, loopback, held, tdo)
            == Then(Clocking(Repeat(held, r), tdiBits, [TopByte(if loopback then tdiBits else tdo[..r])]),
                    Run(cmds[3..], loopback, held, tdo[r..]))
  {
  }

  /** What the engine does with the bit-mode command of a TDI run. */
  lemma RunBits(tail: seq<bool>, rest: seq<byte>, loopback: bool, held: bool, tdo: seq<bool>)
    requires |tail| < 8 && |tail| <= |tdo|
    ensures var r := |tail|;
            Run(BitCommand(tail) + rest, loopback, held, tdo)
            == Then(Clocking(Repeat(held, r), tail, TailByte(if loopback then tail else tdo[..r])),
                    Run(rest, loopback, held, tdo[r..]))
  {
    var r := |tail|;
    if r == 0 {
      assert BitCommand(tail) + rest == rest && tdo[0..] == tdo;
      ThenNothing(Run(rest, loopback, held, tdo));
      assert Repeat(held, 0) == [];
    } else {
      var cmds := BitCommand(tail) + rest;
      assert cmds[0] == XFER_TDI_BITS && cmds[2] == PackByte(tail);
      assert cmds[1] as int + 1 == r by { ByteOf(r - 1); }
      assert cmds[3..] == rest;
      LowBitsPack(tail);
      RunBitsStep(cmds, r, loopback, held, tdo);
    }
  }

  /** A bit-mode command clocks out the bits packed into its data byte. */
  lemma LowBitsPack(bits: seq<bool>)
    requires |bits| <= 8
    ensures LowBits(PackByte(bits), |bits|) == bits
  {
    forall i | 0 <= i < |bits|
      ensures BitOf(PackByte(bits), i) == bits[i]
    {
      PackByteBit(bits, i);
    }
  }

  lemma ThenNothing(x: Option<Clocking>)
    ensures Then(Clocking([], [], []), x) == x
  {
    if x.Some? {
      assert [] + x.value.tms == x.value.tms && [] + x.value.tdi == x.value.tdi && [] + x.value.rx == x.value.rx;
    }
  }

  /** A read of fewer than eight bits answers with one byte. */
  lemma RespondShort(y: seq<bool>)
    requires 1 <= |y| < 8
    ensures RespondEntry(y) == [TopByte(y)]
  {
    assert y[..0] == [] && y[0..] == y;
  }

  /** The clockings of the two TDI commands of a run add up to the run. */
  lemma TdiJoin(run: seq<bool>, k: nat, loopback: bool, held: bool, tdo: seq<bool>)
    requires 8 * k <= |run| < 8 * k + 8 && |run| <= |tdo|
    ensures var w, r := 8 * k, |run| - 8 * k;
            Join(Clocking(Repeat(held, w), run[..w], Pack(if loopback then run[..w] else tdo[..w])),
                 Clocking(Repeat(held, r), run[w..], TailByte(if loopback then run[w..] else tdo[w..][..r])))
            == Clocking(Repeat(held, |run|), run, RespondEntry(if loopback then run else tdo[..|run|]))
  {
    var w := 8 * k;
    var x := if loopback then run else tdo[..|run|];
    assert WholeBytes(|x|) == k;
    if loopback {
      assert x[..w] == run[..w] && x[w..] == run[w..];
    } else {
      assert x[..w] == tdo[..w];
      assert x[w..] == tdo[w..][..|run| - w];
    }
    assert Repeat(held, w) + Repeat(held, |run| - w) == Repeat(held, |run|);
    assert run[..w] + run[w..] == run;
  }

  /** What the engine does with the TDI commands of a run: it clocks the
      run on TDI with TMS held and answers as `RespondEntry` says. */
  lemma RunTdi(run: seq<bool>, rest: seq<byte>, loopback: bool, held: bool, tdo: seq<bool>)
    requires |run| <= 8 * 65536 && |run| <= |tdo|
    ensures Run(TdiCommands(run) + rest, loopback, held, tdo)
            == Then(Clocking(Repeat(held, |run|), run, RespondEntry(if loopback then run else tdo[..|run|])),
                    Run(rest, loopback, held, tdo[|run|..]))
  {
    var k := WholeBytes(|run|);
    RunTdiParts(run, k, rest, loopback, held, tdo);
    TdiJoin(run, k, loopback, held, tdo);
  }

  /** The TDI commands of a run are its byte-mode and bit-mode commands. */
  lemma RunTdiParts(run: seq<bool>, k: nat, rest: seq<byte>, loopback: bool, held: bool, tdo: seq<bool>)
    requires k == WholeBytes(|run|) && |run| <= 8 * 65536 && |run| <= |tdo|
    ensures var w, r := 8 * k, |run| - 8 * k;
            Run(TdiCommands(run) + rest, loopback, held, tdo)
            == Then(Join(Clocking(Repeat(held, w), run[..w], Pack(if loopback then run[..w] else tdo[..w])),
                         Clocking(Repeat(held, r), run[w..], TailByte(if loopback then run[w..] else tdo[w..][..r]))),
                    Run(rest, loopback, held, tdo[|run|..]))
  {
    var w, r := 8 * k, |run| - 8 * k;
    var whole, tail := run[..w], run[w..];
    var after := Run(rest, loopback, held, tdo[|run|..]);
    var c1 := Clocking(Repeat(held, w), whole, Pack(if loopback then whole else tdo[..w]));
    var c2 := Clocking(Repeat(held, r), tail, TailByte(if loopback then tail else tdo[w..][..r]));
    TdiCommandsParts(run, rest);
    assert Run(TdiCommands(run) + rest, loopback, held, tdo) == Then(c1, Run(BitCommand(tail) + rest, loopback, held, tdo[w..])) by {
      RunBytes(whole, k, BitCommand(tail) + rest, loopback, held, tdo);
    }
    assert Run(BitCommand(tail) + rest, loopback, held, tdo[w..]) == Then(c2, after) by {
      RunBits(tail, rest, loopback, held, tdo[w..]);
      DropDrop(tdo, w, r);
    }
    ThenThen(c1, c2, after);
  }

  lemma TdiCommandsParts(run: seq<bool>, rest: seq<byte>)
    ensures var k := WholeBytes(|run|);
            TdiCommands(run) + rest == ByteCommand(run[..8 * k], k) + (BitCommand(run[8 * k ..]) + rest)
  {
    var k := WholeBytes(|run|);
    Assoc(ByteCommand(run[..8 * k], k), BitCommand(run[8 * k ..]), rest);
  }

  lemma Assoc<T>(p: seq<T>, q: seq<T>, r: seq<T>)
    ensures (p + q) + r == p + (q + r)
  {
  }

  lemma {:induction false} SumAppend(a: seq<nat>, b: seq<nat>)
    ensures Sum(a + b) == Sum(a) + Sum(b)
  {
    if a == [] {
      assert a + b == b;
    } else {
      assert (a + b)[1..] == a[1..] + b;
      SumAppend(a[1..], b);
    }
  }

  /** The answer to consecutive entries is the answers one after another. */
  lemma {:induction false} RespondAppend(a: seq<nat>, b: seq<nat>, x: seq<bool>, y: seq<bool>)
    requires Sum(a) == |x| && Sum(b) == |y|
    ensures Sum(a + b) == |x + y|
    ensures Respond(a + b, x + y) == Respond(a, x) + Respond(b, y)
  {
    SumAppend(a, b);
    if a == [] {
      assert a + b == b && x + y == y;
    } else {
      var c, a', xy := a[0], a[1..], x + y;
      var e, m, r := RespondEntry(x[..c]), Respond(a', x[c..]), Respond(b, y);
      assert Sum(a' + b) == |x[c..] + y| by { SumAppend(a', b); }
      var mr := Respond(a' + b, x[c..] + y);
      assert Respond(a + b, xy) == e + mr by {
        RespondConsAppend(a, b, x, y);
      }
      assert mr == m + r by {
        RespondAppend(a', b, x[c..], y);
      }
      assert Respond(a, x) == e + m by {
        RespondCons(a, x);
      }
      Regroup(Respond(a + b, xy), Respond(a, x), e, m, r, mr);
    }
  }

  /** Regrouping a concatenation of three parts. */
  lemma Regroup<T>(s: seq<T>, t: seq<T>, e: seq<T>, m: seq<T>, r: seq<T>, mr: seq<T>)
    requires s == e + mr && mr == m + r && t == e + m
    ensures s == t + r
  {
  }

  lemma RespondConsAppend(a: seq<nat>, b: seq<nat>, x: seq<bool>, y: seq<bool>)
    requires a != [] && Sum(a) == |x| && Sum(b) == |y|
    ensures a[0] <= |x| && Sum(a + b) == |x + y| && Sum(a[1..] + b) == |x[a[0]..] + y|
    ensures Respond(a + b, x + y) == RespondEntry(x[..a[0]]) + Respond(a[1..] + b, x[a[0]..] + y)
  {
    var c, xy := a[0], x + y;
    SumAppend(a, b);
    SumAppend(a[1..], b);
    assert (a + b)[0] == c && (a + b)[1..] == a[1..] + b;
    assert xy[..c] == x[..c] && xy[c..] == x[c..] + y;
    RespondCons(a + b, xy);
  }

  lemma RespondCons(counts: seq<nat>, x: seq<bool>)
    requires counts != [] && Sum(counts) == |x|
    ensures counts[0] <= |x| && Sum(counts[1..]) == |x| - counts[0]
    ensures Respond(counts, x) == RespondEntry(x[..counts[0]]) + Respond(counts[1..], x[counts[0]..])
  {
  }

  /** The TMS and TDI values a group clocks. */
  function GroupTms(g: Group): seq<bool>
    requires WellFormed(g)
  {
    g.tms + Repeat(LastTms(g), |g.run|)
  }

  function GroupTdi(g: Group): seq<bool> {
    Repeat(g.tdiLevel, |g.tms|) + g.run
  }

  /** The clockings of a TMS command and its TDI run add up to the group. */
  lemma GroupJoin(g: Group, loopback: bool, tdo: seq<bool>)
    requires WellFormed(g) && Size(g) <= |tdo|
    ensures Sum(GroupCounts(g)) == Size(g)
    ensures var n, m := |g.tms|, |g.run|;
            var tdiBits := Repeat(g.tdiLevel, n);
            Join(Clocking(g.tms, tdiBits, [TopByte(if loopback then tdiBits else tdo[..n])]),
                 Clocking(Repeat(LastTms(g), m), g.run, RespondEntry(if loopback then g.run else tdo[n..][..m])))
            == Clocking(GroupTms(g), GroupTdi(g), Respond(GroupCounts(g), if loopback then GroupTdi(g) else tdo[..Size(g)]))
  {
    var n, m, s := |g.tms|, |g.run|, Size(g);
    var x := if loopback then GroupTdi(g) else tdo[..s];
    var a := if loopback then Repeat(g.tdiLevel, n) else tdo[..n];
    var b := if loopback then g.run else tdo[n..][..m];
    assert a == x[..n] && b == x[n..] by {
      if loopback {
        TakeFront(Repeat(g.tdiLevel, n), g.run);
        DropFront(Repeat(g.tdiLevel, n), g.run);
      } else {
        TakeTake(tdo, n, s);
        TakeDrop(tdo, n, m);
      }
    }
    RespondGroup(g, x);
    JoinGroup(g, [TopByte(a)], RespondEntry(b));
  }

  lemma JoinGroup(g: Group, a: seq<byte>, b: seq<byte>)
    requires WellFormed(g)
    ensures Join(Clocking(g.tms, Repeat(g.tdiLevel, |g.tms|), a), Clocking(Repeat(LastTms(g), |g.run|), g.run, b))
            == Clocking(GroupTms(g), GroupTdi(g), a + b)
  {
  }

  /** The answer to a group: one byte for its TMS command, then the answer
      to its TDI run. */
  lemma RespondGroup(g: Group, x: seq<bool>)
    requires WellFormed(g) && |x| == Size(g)
    ensures Sum(GroupCounts(g)) == |x|
    ensures Respond(GroupCounts(g), x) == [TopByte(x[..|g.tms|])] + RespondEntry(x[|g.tms|..])
  {
    var n, m := |g.tms|, |g.run|;
    GroupCountsSum(g);
    RespondShort(x[..n]);
    if m > 0 {
      RespondTwo(n, m, x);
    } else {
      RespondOne(n, x);
    }
  }

  lemma RespondTwo(n: nat, m: nat, x: seq<bool>)
    requires |x| == n + m
    ensures Sum([n, m]) == |x|
    ensures Respond([n, m], x) == RespondEntry(x[..n]) + RespondEntry(x[n..])
  {
    var c := [n, m];
    assert c[0] == n && c[1..] == [m] && [m][0] == m && [m][1..] == [];
    assert Sum([m]) == m;
    assert Respond(c, x) == RespondEntry(x[..n]) + Respond([m], x[n..]) by { RespondCons(c, x); }
    assert Respond([m], x[n..]) == RespondEntry(x[n..][..m]) + Respond([], x[n..][m..]) by { RespondCons([m], x[n..]); }
    TakeAll(x[n..]);
    AppendEmpty(RespondEntry(x[n..]));
  }

  lemma RespondOne(n: nat, x: seq<bool>)
    requires |x| == n
    ensures Sum([n]) == |x|
    ensures Respond([n], x) == RespondEntry(x[..n]) + RespondEntry(x[n..])
  {
    var c := [n];
    assert c[0] == n && c[1..] == [];
    assert Respond(c, x) == RespondEntry(x[..n]) + Respond([], x[n..]) by { RespondCons(c, x); }
    assert x[n..] == [] && RespondEntry([]) == [];
  }

  lemma TakeAll<T>(s: seq<T>)
    ensures s[..|s|] == s
  {
  }

  lemma AppendEmpty<T>(s: seq<T>)
    ensures s + [] == s
  {
  }

  /** A TMS command and the TDI commands after it, in turn. */
  lemma RunTmsAndTdi(g: Group, rest: seq<byte>, loopback: bool, held: bool, tdo: seq<bool>)
    requires WellFormed(g) && |g.run| <= 8 * 65536 && Size(g) <= |tdo|
    ensures var n, m := |g.tms|, |g.run|;
            var tdiBits := Repeat(g.tdiLevel, n);
            Run(TmsCommand(g) + (TdiCommands(g.run) + rest), loopback, held, tdo)
            == Then(Join(Clocking(g.tms, tdiBits, [TopByte(if loopback then tdiBits else tdo[..n])]),
                         Clocking(Repeat(LastTms(g), m), g.run, RespondEntry(if loopback then g.run else tdo[n..][..m]))),
                    Run(rest, loopback, LastTms(g), tdo[Size(g)..]))
  {
    var n, m := |g.tms|, |g.run|;
    var tdiBits := Repeat(g.tdiLevel, n);
    var c1 := Clocking(g.tms, tdiBits, [TopByte(if loopback then tdiBits else tdo[..n])]);
    var c2 := Clocking(Repeat(LastTms(g), m), g.run, RespondEntry(if loopback then g.run else tdo[n..][..m]));
    var tdi := TdiCommands(g.run) + rest;
    var after := Run(rest, loopback, LastTms(g), tdo[Size(g)..]);
    assert tdo[n..][m..] == tdo[Size(g)..] by { DropDrop(tdo, n, m); }
    assert Run(tdi, loopback, LastTms(g), tdo[n..]) == Then(c2, after) by {
      RunTdi(g.run, rest, loopback, LastTms(g), tdo[n..]);
    }
    assert Run(TmsCommand(g) + tdi, loopback, held, tdo) == Then(c1, Run(tdi, loopback, LastTms(g), tdo[n..])) by {
      RunTms(g, tdi, loopback, held, tdo);
    }
    ThenThen(c1, c2, after);
  }

  /** The commands of one group clock its TMS bits and then its TDI run,
      and the engine answers them as `Respond` says for its counts. */
  lemma RunGroup(g: Group, rest: seq<byte>, loopback: bool, held: bool, tdo: seq<bool>)
    requires WellFormed(g) && |g.run| <= 8 * 65536 && Size(g) <= |tdo|
    ensures Sum(GroupCounts(g)) == Size(g)
    ensures Run(GroupCommands(g) + rest, loopback, held, tdo)
            == Then(Clocking(GroupTms(g), GroupTdi(g), Respond(GroupCounts(g), if loopback then GroupTdi(g) else tdo[..Size(g)])),
                    Run(rest, loopback, LastTms(g), tdo[Size(g)..]))
  {
    assert GroupCommands(g) + rest == TmsCommand(g) + (TdiCommands(g.run) + rest);
    RunTmsAndTdi(g, rest, loopback, held, tdo);
    GroupJoin(g, loopback, tdo);
  }

  /** The group cut at p clocks exactly bits p .. p + Size of the piece. */
  lemma GroupClocks(tms: seq<bool>, tdi: seq<bool>, p: nat)
    requires |tms| == |tdi| && p < |tms|
    ensures var g := GroupAt(tms, tdi, p);
            GroupTms(g) == tms[p .. p + Size(g)] && GroupTdi(g) == tdi[p .. p + Size(g)]
  {
    GroupTmsFacts(tms, tdi, p);
    GroupRunFacts(tms, tdi, p);
    ClocksOf(GroupAt(tms, tdi, p), tms, tdi, p);
  }

  /** A well-formed group whose parts match the bits from p on clocks them. */
  lemma ClocksOf(g: Group, tms: seq<bool>, tdi: seq<bool>, p: nat)
    requires WellFormed(g) && |tms| == |tdi| && p + Size(g) <= |tms|
    requires g.tms == tms[p .. p + |g.tms|] && g.run == tdi[p + |g.tms| .. p + Size(g)]
    requires forall i :: p <= i < p + |g.tms| ==> tdi[i] == g.tdiLevel
    requires forall i :: p + |g.tms| <= i < p + Size(g) ==> tms[i] == LastTms(g)
    ensures GroupTms(g) == tms[p .. p + Size(g)] && GroupTdi(g) == tdi[p .. p + Size(g)]
  {
    var n, m := |g.tms|, |g.run|;
    RepeatSlice(tms, p + n, m, LastTms(g));
    JoinSlices(tms, p, n, m, g.tms, Repeat(LastTms(g), m));
    RepeatSlice(tdi, p, n, g.tdiLevel);
    JoinSlices(tdi, p, n, m, Repeat(g.tdiLevel, n), g.run);
  }

  /** A stretch of equal values is a repetition of that value. */
  lemma RepeatSlice(s: seq<bool>, p: nat, n: nat, b: bool)
    requires p + n <= |s| && forall i :: p <= i < p + n ==> s[i] == b
    ensures s[p .. p + n] == Repeat(b, n)
  {
  }

  lemma JoinSlices<T>(s: seq<T>, p: nat, n: nat, m: nat, a: seq<T>, b: seq<T>)
    requires p + n + m <= |s| && a == s[p .. p + n] && b == s[p + n .. p + n + m]
    ensures a + b == s[p .. p + n + m]
  {
  }

  lemma GroupCountsSum(g: Group)
    ensures Sum(GroupCounts(g)) == Size(g)
  {
    var c := GroupCounts(g);
    if |g.run| > 0 {
      assert c[1..] == [|g.run|] && c[1..][1..] == [];
      assert Sum(c[1..]) == |g.run|;
    } else {
      assert c[1..] == [];
    }
  }

  lemma SliceJoin<T>(s: seq<T>, p: nat, q: nat)
    requires p <= q <= |s|
    ensures s[p..] == s[p..q] + s[q..]
  {
  }

  /** The TMS and TDI values clocked for a sequence of groups. */
  function ClockedTms(gs: seq<Group>): seq<bool>
    requires forall i :: 0 <= i < |gs| ==> WellFormed(gs[i])
  {
    if gs == [] then [] else GroupTms(gs[0]) + ClockedTms(gs[1..])
  }

  function ClockedTdi(gs: seq<Group>): (bits: seq<bool>)
    ensures |bits| == Sum(Counts(gs))
  {
    if gs == [] then []
    else
      GroupCountsSum(gs[0]);
      SumAppend(GroupCounts(gs[0]), Counts(gs[1..]));
      GroupTdi(gs[0]) + ClockedTdi(gs[1..])
  }

  /** The commands of a sequence of groups clock their TMS and TDI values
      one group after the other, and the engine's answer is `Respond` of
      their counts (of TDI itself in loopback). */
  lemma {:induction false} RunCommands(gs: seq<Group>, loopback: bool, held: bool, tdo: seq<bool>)
    requires forall i :: 0 <= i < |gs| ==> WellFormed(gs[i]) && |gs[i].run| <= 8 * 65536
    requires |tdo| == Sum(Counts(gs))
    ensures Run(Commands(gs), loopback, held, tdo)
            == Some(Clocking(ClockedTms(gs), ClockedTdi(gs), Respond(Counts(gs), if loopback then ClockedTdi(gs) else tdo)))
  {
    if gs == [] {
    } else {
      var g, rest := gs[0], gs[1..];
      var s := Size(g);
      GroupCountsSum(g);
      SumAppend(GroupCounts(g), Counts(rest));
      var x := if loopback then ClockedTdi(gs) else tdo;
      assert x == x[..s] + x[s..];
      RespondAppend(GroupCounts(g), Counts(rest), x[..s], x[s..]);
      RunCommands(rest, loopback, LastTms(g), tdo[s..]);
      var c := Clocking(GroupTms(g), GroupTdi(g), Respond(GroupCounts(g), x[..s]));
      var d := Clocking(ClockedTms(rest), ClockedTdi(rest), Respond(Counts(rest), x[s..]));
      calc {
        Run(Commands(gs), loopback, held, tdo);
        Run(GroupCommands(g) + Commands(rest), loopback, held, tdo);
        { RunGroup(g, Commands(rest), loopback, held, tdo);
          assert x[..s] == (if loopback then GroupTdi(g) else tdo[..s]); }
        Then(c, Run(Commands(rest), loopback, LastTms(g), tdo[s..]));
        { assert x[s..] == (if loopback then ClockedTdi(rest) else tdo[s..]); }
        Then(c, Some(d));
      }
    }
  }

  /** The groups from p on clock exactly the bits from p on, in order. */
  lemma {:induction false} Cover(tms: seq<bool>, tdi: seq<bool>, p: nat)
    requires |tms| == |tdi| && p <= |tms|
    ensures ClockedTms(GroupsFrom(tms, tdi, p)) == tms[p..]
    ensures ClockedTdi(GroupsFrom(tms, tdi, p)) == tdi[p..]
    decreases |tms| - p
  {
    if p < |tms| {
      var gs := GroupsFrom(tms, tdi, p);
      var g := GroupAt(tms, tdi, p);
      var q := p + Size(g);
      assert gs[0] == g && gs[1..] == GroupsFrom(tms, tdi, q);
      Cover(tms, tdi, q);
      GroupClocks(tms, tdi, p);
      SliceJoin(tms, p, q);
      SliceJoin(tdi, p, q);
    }
  }

  /** The counts recorded for a piece add up to its length. */
  lemma CountsCover(tms: seq<bool>, tdi: seq<bool>)
    requires |tms| == |tdi|
    ensures Sum(Counts(Groups(tms, tdi))) == |tms|
  {
    Cover(tms, tdi, 0);
  }

  /** The end-to-end property of the encoder: run on an engine that starts
      with loopback off, everything queued for a piece clocks exactly the
      piece's TMS and TDI bits, in order, and the engine answers with
      `Respond` of the recorded counts and the TDO bits it sampled (its own
      TDI bits in loopback). */
  lemma RunChunk(loopback: bool, tms: seq<bool>, tdi: seq<bool>, held: bool, tdo: seq<bool>)
    requires |tms| == |tdi| == |tdo| && |tms| <= 8 * 65536
    ensures Sum(Counts(Groups(tms, tdi))) == |tms|
    ensures Run(ChunkCommands(loopback, tms, tdi), false, held, tdo)
            == Some(Clocking(tms, tdi, Respond(Counts(Groups(tms, tdi)), if loopback then tdi else tdo)))
  {
    var gs := Groups(tms, tdi);
    Cover(tms, tdi, 0);
    assert tms[0..] == tms && tdi[0..] == tdi;
    RunCommands(gs, loopback, held, tdo);
    if loopback {
      assert ChunkCommands(loopback, tms, tdi) == [ENABLE_LOOPBACK] + Commands(gs);
      assert (ChunkCommands(loopback, tms, tdi))[1..] == Commands(gs);
    } else {
      assert ChunkCommands(loopback, tms, tdi) == Commands(gs);
    }
  }

  /** Decoding one entry undoes the device's answer to it: the whole bytes
      are read from bit 0 up and the leftover bits from the top of their
      byte, which is where a bit-mode read leaves them. */
  lemma EntryRoundTrip(bits: seq<bool>)
    ensures |RespondEntry(bits)| == EntryBytes(|bits|)
    ensures EntryBits(|bits|, RespondEntry(bits)) == bits
  {
    var c := |bits|;
    var k := WholeBytes(c);
    var resp := RespondEntry(bits);
    assert |resp| == EntryBytes(c) by { EntryLength(bits); }
    forall t | 0 <= t < c
      ensures BitOf(resp[t / 8], SrcPos(c, t)) == bits[t]
    {
      if t < 8 * k {
        EntryWholeBit(bits, t);
      } else {
        EntryTailBit(bits, t);
      }
    }
  }

  lemma EntryLength(bits: seq<bool>)
    ensures |RespondEntry(bits)| == EntryBytes(|bits|)
  {
    var c := |bits|;
    var k := WholeBytes(c);
    PackLength(bits[..8 * k]);
    assert c / 8 == k && EntryBytes(c) == (if c == 8 * k then k else k + 1);
  }

  /** The whole bytes of an answer are read from bit 0 up. */
  lemma EntryWholeBit(bits: seq<bool>, t: nat)
    requires t < 8 * WholeBytes(|bits|)
    ensures |RespondEntry(bits)| == EntryBytes(|bits|)
    ensures BitOf(RespondEntry(bits)[t / 8], SrcPos(|bits|, t)) == bits[t]
  {
    EntryLength(bits);
    var w := 8 * WholeBytes(|bits|);
    var whole := bits[..w];
    assert |bits| / 8 * 8 == w && SrcPos(|bits|, t) == t % 8;
    PackLength(whole);
    assert RespondEntry(bits)[t / 8] == Pack(whole)[t / 8];
    PackedBit(whole, t);
  }

  /** The leftover bits are read from the top of the last byte. */
  lemma EntryTailBit(bits: seq<bool>, t: nat)
    requires 8 * WholeBytes(|bits|) <= t < |bits|
    ensures |RespondEntry(bits)| == EntryBytes(|bits|)
    ensures BitOf(RespondEntry(bits)[t / 8], SrcPos(|bits|, t)) == bits[t]
  {
    EntryLength(bits);
    var c := |bits|;
    var k := WholeBytes(c);
    var w, r := 8 * k, c - 8 * k;
    var tail := bits[w..];
    PackLength(bits[..w]);
    assert t / 8 == k && c / 8 * 8 == w && SrcPos(c, t) == 8 - r + (t - w);
    assert RespondEntry(bits)[k] == TopByte(tail);
    TopByteBit(tail, t - w);
  }

  /** Bit i of r bits read in bit mode lands at position 8 - r + i. */
  lemma TopByteBit(bits: seq<bool>, i: nat)
    requires 1 <= |bits| <= 8 && i < |bits|
    ensures BitOf(TopByte(bits), 8 - |bits| + i) == bits[i]
  {
    var z := Zeros(8 - |bits|) + bits;
    assert z[8 - |bits| + i] == bits[i];
    PackByteBit(z, 8 - |bits| + i);
  }

  /** Decoding the whole answer gives back the TDO bits the device sampled:
      `Unpack` inverts `Respond` for any counts. */
  lemma {:induction false} UnpackRespond(counts: seq<nat>, tdo: seq<bool>)
    requires Sum(counts) == |tdo|
    ensures |Respond(counts, tdo)| == RxBytes(counts)
    ensures Unpack(counts, Respond(counts, tdo)) == tdo
  {
    if counts != [] {
      var c := counts[0];
      var e, more := tdo[..c], tdo[c..];
      EntryRoundTrip(e);
      UnpackRespond(counts[1..], more);
      var rx, first, later := Respond(counts, tdo), RespondEntry(e), Respond(counts[1..], more);
      assert rx == first + later by { RespondCons(counts, tdo); }
      UnpackCons(counts, rx, first, later);
      Halves(tdo, c);
    }
  }

  /** Decoding an answer takes the bytes of the first entry, then decodes
      the rest. */
  lemma UnpackCons(counts: seq<nat>, rx: seq<byte>, first: seq<byte>, later: seq<byte>)
    requires counts != [] && rx == first + later
    requires |first| == EntryBytes(counts[0]) && |later| == RxBytes(counts[1..])
    ensures |rx| == RxBytes(counts)
    ensures Unpack(counts, rx) == EntryBits(counts[0], first) + Unpack(counts[1..], later)
  {
    var b := EntryBytes(counts[0]);
    assert rx[..b] == first && rx[b..] == later;
  }

  /** What `shiftChunk` reads back for a piece: with loopback on the decoded
      TDO is the piece's own TDI, which is the comparison `shift` makes;
      otherwise it is the TDO the device sampled.  In both cases the engine
      sends exactly `rxWanted` bytes. */
  lemma ChunkReadBack(loopback: bool, tms: seq<bool>, tdi: seq<bool>, held: bool, tdo: seq<bool>)
    requires |tms| == |tdi| == |tdo| && |tms| <= 8 * 65536
    ensures var gs := Groups(tms, tdi);
            var run := Run(ChunkCommands(loopback, tms, tdi), false, held, tdo);
            run.Some? && |run.value.rx| == RxBytes(Counts(gs)) &&
            Unpack(Counts(gs), run.value.rx) == (if loopback then tdi else tdo)
  {
    RunChunk(loopback, tms, tdi, held, tdo);
    UnpackRespond(Counts(Groups(tms, tdi)), if loopback then tdi else tdo);
  }

  // ---------------------------------------------------------------------
  // Room for the recorded bit counts
  // ---------------------------------------------------------------------

  /** The size ftdiJTAG.c:535 gives `rxBitcounts`: USB_BUFSIZE / 3 entries,
      on the reasoning that every entry costs at least three queued bytes. */
  const RX_COUNTS_AS_WRITTEN: nat := USB_BUFSIZE / 3
  /** The size that reasoning actually needs, one more. */
  const RX_COUNTS: nat := USB_BUFSIZE / 3 + 1

  /** The number of bytes queued for a TDI run: a three-byte header and
      the data of the byte-mode command if there are whole bytes, three more
      for the bit-mode command if there are leftover bits. */
  function TdiLength(run: seq<bool>): (n: nat)
    ensures run != [] ==> n >= 3
  {
    var k := WholeBytes(|run|);
    (if k == 0 then 0 else 3 + k) + (if |run| == 8 * k then 0 else 3)
  }

  lemma TdiCommandsLength(run: seq<bool>)
    ensures |TdiCommands(run)| == TdiLength(run)
  {
    var k := WholeBytes(|run|);
    if k > 0 {
      PackLength(run[..8 * k]);
    }
  }

  /** How many `rxBitcounts` entries `shiftChunk` fills for the groups `gs`,
      starting with `tx` bytes queued and `e` entries filled, before it has
      queued everything or `cmdByte` stops the program on a full `ioBuf`.
      A TMS entry is recorded after its three bytes are queued
      (ftdiJTAG.c:576-580), but a TDI entry is recorded before any of its
      bytes (ftdiJTAG.c:618). */
  function EntriesRecorded(tx: nat, e: nat, gs: seq<Group>): (n: nat)
    ensures e <= n
    decreases |gs|
  {
    if gs == [] || tx + 3 > USB_BUFSIZE then e
    else
      var g := gs[0];
      if g.run == [] then EntriesRecorded(tx + 3, e + 1, gs[1..])
      else if tx + 3 + TdiLength(g.run) > USB_BUFSIZE then e + 2
      else EntriesRecorded(tx + 3 + TdiLength(g.run), e + 2, gs[1..])
  }

  /** Every entry is paid for by three queued bytes, except that the TDI
      entry is written three bytes early; so no input makes `shiftChunk`
      record more than RX_COUNTS entries. */
  lemma {:induction false} EntriesBound(tx: nat, e: nat, gs: seq<Group>)
    requires 3 * e <= tx <= USB_BUFSIZE
    ensures EntriesRecorded(tx, e, gs) <= RX_COUNTS
    decreases |gs|
  {
    if gs != [] && tx + 3 <= USB_BUFSIZE {
      var g, rest := gs[0], gs[1..];
      if g.run == [] {
        assert EntriesRecorded(tx, e, gs) == EntriesRecorded(tx + 3, e + 1, rest);
        EntriesBound(tx + 3, e + 1, rest);
      } else {
        var t := TdiLength(g.run);
        if tx + 3 + t <= USB_BUFSIZE {
          assert EntriesRecorded(tx, e, gs) == EntriesRecorded(tx + 3 + t, e + 2, rest);
          EntriesBound(tx + 3 + t, e + 2, rest);
        } else {
          assert EntriesRecorded(tx, e, gs) == e + 2;
        }
      }
    }
  }

  /** A piece of 2n bits in which TMS changes every second bit and TDI every
      bit: each group is one TMS bit followed by a one-bit TDI run. */
  function PairTms(n: nat): (s: seq<bool>)
    ensures |s| == 2 * n
  {
    seq(2 * n, i => (i / 2) % 2 == 0)
  }

  function PairTdi(n: nat): (s: seq<bool>)
    ensures |s| == 2 * n
  {
    seq(2 * n, i => i % 2 == 0)
  }

  lemma PairGroup(n: nat, j: nat)
    requires j < n
    ensures GroupAt(PairTms(n), PairTdi(n), 2 * j) == Group([j % 2 == 0], true, [false])
  {
    var tms, tdi := PairTms(n), PairTdi(n);
    var b := j % 2 == 0;
    PairBits(n, j);
    assert TmsSpan(tdi, 2 * j, 1) == 1;
    assert HoldSpan(tms, 2 * j + 2, b) == 0;
    assert HoldSpan(tms, 2 * j + 1, b) == 1;
    assert tms[2 * j .. 2 * j + 1] == [b] && tdi[2 * j + 1 .. 2 * j + 2] == [false];
  }

  /** The bits of the paired piece around group j. */
  lemma PairBits(n: nat, j: nat)
    requires j < n
    ensures var tms, tdi, b := PairTms(n), PairTdi(n), j % 2 == 0;
            tdi[2 * j] && !tdi[2 * j + 1] && tms[2 * j] == b && tms[2 * j + 1] == b &&
            (2 * j + 2 < 2 * n ==> tms[2 * j + 2] != b)
  {
    assert (2 * j) / 2 == j && (2 * j + 1) / 2 == j && (2 * j) % 2 == 0 && (2 * j + 1) % 2 == 1;
    assert (2 * j + 2) / 2 == j + 1;
  }

  /** One group of one TMS bit and a one-bit run costs two entries and six
      bytes, or stops `cmdByte` inside its TDI command when fewer than six
      bytes are left. */
  lemma EntriesPair(tx: nat, e: nat, gs: seq<Group>)
    requires gs != [] && |gs[0].run| == 1 && tx + 3 <= USB_BUFSIZE
    ensures EntriesRecorded(tx, e, gs)
            == if tx + 6 <= USB_BUFSIZE then EntriesRecorded(tx + 6, e + 2, gs[1..]) else e + 2
  {
    assert WholeBytes(1) == 0;
  }

  /** The groups of the paired piece, from group j on: n - j of them, each
      with a one-bit run. */
  lemma {:induction false} PairGroupsFrom(n: nat, j: nat)
    requires j <= n
    ensures var gs := GroupsFrom(PairTms(n), PairTdi(n), 2 * j);
            |gs| == n - j && forall i :: 0 <= i < |gs| ==> |gs[i].run| == 1
    decreases n - j
  {
    if j < n {
      var gs := GroupsFrom(PairTms(n), PairTdi(n), 2 * j);
      var rest := GroupsFrom(PairTms(n), PairTdi(n), 2 * j + 2);
      assert gs == [gs[0]] + rest && |gs[0].run| == 1 by {
        PairGroup(n, j);
      }
      assert |rest| == n - j - 1 && forall i :: 0 <= i < |rest| ==> |rest[i].run| == 1 by {
        PairGroupsFrom(n, j + 1);
        assert 2 * (j + 1) == 2 * j + 2;
      }
      assert forall i :: 1 <= i < |gs| ==> gs[i] == rest[i - 1];
    }
  }

  /** Groups that each have a one-bit run, queued from 6j bytes and 2j
      entries on, fill entries up to index 1333. */
  lemma {:induction false} PairEntries(gs: seq<Group>, j: nat)
    requires forall i :: 0 <= i < |gs| ==> |gs[i].run| == 1
    requires |gs| == 667 - j && j < 667
    ensures EntriesRecorded(6 * j, 2 * j, gs) == 1334
    decreases |gs|
  {
    EntriesPair(6 * j, 2 * j, gs);
    if j < 666 {
      PairEntries(gs[1..], j + 1);
    }
  }

  /** Finding: with loopback off, the 1334-bit piece above makes
      `shiftChunk` write entry 1333 of the 1333-entry `rxBitcounts`
      (3999 bytes are queued when its last TDI entry is recorded) before
      `cmdByte` stops the program. */
  lemma RxCountsOverrun()
    ensures EntriesRecorded(0, 0, Groups(PairTms(667), PairTdi(667))) == RX_COUNTS_AS_WRITTEN + 1
  {
    PairGroupsFrom(667, 0);
    PairEntries(Groups(PairTms(667), PairTdi(667)), 0);
  }
}
