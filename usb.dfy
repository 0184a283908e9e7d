/** The `usbInfo` structure of ftdiJTAG.c (lines 109-171) and the
    primitives that move bytes through it: `cmdByte` queues a byte in the
    transmit buffer, `usbWriteData` sends bytes to the FTDI chip and
    `usbReadData` collects its answer.

    The USB link is given as two sequences: `sent`, every bulk OUT transfer
    made so far, and `packets`, the bulk IN packets the chip has yet to
    deliver.  Bulk OUT transfers always succeed; running out of packets
    stands for a bulk IN transfer that fails. */
module Usb {
  import opened Bits
  import opened Wrappers
  import opened UsbRead
  import Mpsse
  import Clock

  /** Capacity of the TMS, TDI and TDO buffers: the most a client may shift
      at once, in bytes. */
  const XVC_BUFSIZE: nat := 2048
  /** A shift is passed to the chip in pieces of at most this many bytes. */
  const USB_SHIFT_LIMIT: nat := 1000
  const UINT64: nat := 0x1_0000_0000_0000_0000

  /** `bitCount += nBits` on the `uint64_t` bit counter (ftdiJTAG.c:691):
      the sum when it fits in 64 bits, wrapped around otherwise. */
  function AddBits(x: nat, n: nat): (y: nat)
    ensures y < UINT64
    ensures x + n < UINT64 ==> y == x + n
    ensures x < UINT64 && n < UINT64 && x + n >= UINT64 ==> y == x + n - UINT64
  {
    (x + n) % UINT64
  }

  /** `x++` on an unsigned counter with `limit` values: the next value, and
      zero after the largest. */
  function Tick(x: nat, limit: nat): (y: nat)
    requires x < limit
    ensures y < limit && (y == 0 <==> x == limit - 1) && (x < limit - 1 ==> y == x + 1)
  {
    if x == limit - 1 then 0 else x + 1
  }

  class UsbInfo {
    // Diagnostics
    var loopback: bool
    var lockedSpeed: nat

    // Statistics (uint32_t, uint32_t and uint64_t counters)
    var shiftCount: nat
    var chunkCount: nat
    var bitCount: nat

    // The device to look for
    var vendorId: nat
    var productId: nat
    var serialNumber: Option<seq<char>>

    // The matched device
    var deviceVendorString: seq<char>
    var deviceProductString: seq<char>
    var deviceSerialString: seq<char>
    var bulkOutEndpointAddress: nat
    var bulkInEndpointAddress: nat

    var gpioArgument: Option<seq<char>>

    // I/O buffers
    const tmsBuf: array<byte>
    const tdiBuf: array<byte>
    const tdoBuf: array<byte>
    var txCount: nat
    const ioBuf: array<byte>
    const rxBuf: array<byte>

    // The USB link
    var sent: seq<seq<byte>>
    var packets: seq<seq<byte>>

    ghost predicate Valid()
      reads this
    {
      && Buffers()
      && txCount <= Mpsse.USB_BUFSIZE
      && lockedSpeed < Clock.UINT32 && shiftCount < Clock.UINT32 && chunkCount < Clock.UINT32 && bitCount < UINT64
    }

    /** The five buffers: their sizes, and no two of them the same. */
    ghost predicate Buffers() {
      && tmsBuf.Length == XVC_BUFSIZE && tdiBuf.Length == XVC_BUFSIZE && tdoBuf.Length == XVC_BUFSIZE
      && ioBuf.Length == Mpsse.USB_BUFSIZE && rxBuf.Length == Mpsse.USB_BUFSIZE
      && tmsBuf != tdiBuf && tmsBuf != tdoBuf && tdiBuf != tdoBuf
      && ioBuf != rxBuf
      && {tmsBuf, tdiBuf, tdoBuf} !! {ioBuf, rxBuf}
    }

    /** The structure as `main` sets it up before any option is read
        (ftdiJTAG.c:1014-1018): the default device, vendor 0x0403 and
        product 0x6011, with no serial number; no traffic; zeroed
        counters.  The interface index it also presets is not part of
        this model. */
    constructor (packets: seq<seq<byte>>)
      ensures Valid()
      ensures fresh(tmsBuf) && fresh(tdiBuf) && fresh(tdoBuf) && fresh(ioBuf) && fresh(rxBuf)
      ensures vendorId == 0x0403 && productId == 0x6011 && serialNumber == None
      ensures !loopback && lockedSpeed == 0 && shiftCount == 0 && chunkCount == 0 && bitCount == 0
      ensures txCount == 0 && sent == [] && this.packets == packets
    {
      loopback := false;
      lockedSpeed := 0;
      shiftCount, chunkCount, bitCount := 0, 0, 0;
      vendorId, productId, serialNumber := 0x0403, 0x6011, None;
      deviceVendorString, deviceProductString, deviceSerialString := [], [], [];
      bulkOutEndpointAddress, bulkInEndpointAddress := 0, 0;
      gpioArgument := None;
      tmsBuf := new byte[XVC_BUFSIZE];
      tdiBuf := new byte[XVC_BUFSIZE];
      tdoBuf := new byte[XVC_BUFSIZE];
      txCount := 0;
      ioBuf := new byte[Mpsse.USB_BUFSIZE];
      rxBuf := new byte[Mpsse.USB_BUFSIZE];
      sent := [];
      this.packets := packets;
    }

    /** The bytes queued for the chip so far. */
    ghost function Queued(): (q: seq<byte>)
      reads this, ioBuf
      requires Valid()
      ensures |q| == txCount
    {
      ioBuf[..txCount]
    }
  }

  /** `cmdByte` (ftdiJTAG.c:509-517): appends a byte to the transmit
      buffer.  On a full buffer the program stops with status 4, which is
      `ok == false` here, and nothing is queued. */
  method CmdByte(usb: UsbInfo, b: byte) returns (ok: bool)
    requires usb.Valid()
    modifies usb`txCount, usb.ioBuf
    ensures usb.Valid()
    ensures ok <==> old(usb.txCount) < Mpsse.USB_BUFSIZE
    ensures ok ==> usb.Queued() == old(usb.Queued()) + [b]
    ensures !ok ==> usb.txCount == old(usb.txCount)
    ensures usb.ioBuf[..old(usb.txCount)] == old(usb.ioBuf[..usb.txCount])
  {
    if usb.txCount == Mpsse.USB_BUFSIZE {
      return false;
    }
    usb.ioBuf[usb.txCount] := b;
    usb.txCount := usb.txCount + 1;
    ok := true;
  }

  /** The bulk transfers that carry `bytes` to the chip: one, or none at
      all when there is nothing to send. */
  function Transfers(bytes: seq<byte>): seq<seq<byte>> {
    if bytes == [] then [] else [bytes]
  }

  /** The bytes of a list of transfers, one after the other. */
  function Concat(transfers: seq<seq<byte>>): seq<byte> {
    if transfers == [] then [] else transfers[0] + Concat(transfers[1..])
  }

  /** The transfers for `bytes` carry exactly `bytes`, and there is one
      of them exactly when there is something to send. */
  lemma ConcatTransfers(bytes: seq<byte>)
    ensures Concat(Transfers(bytes)) == bytes
    ensures |Transfers(bytes)| == if bytes == [] then 0 else 1
  {
    if bytes != [] {
      assert Transfers(bytes)[1..] == [];
    }
  }

  /** `usbWriteData` (ftdiJTAG.c:348-367) for the first `nSend` bytes of
      the transmit buffer: they go to the chip as one transfer, and for
      nSend = 0 its `while (nSend)` makes no transfer at all. */
  method UsbWriteData(usb: UsbInfo, nSend: nat)
    requires usb.Valid() && nSend <= Mpsse.USB_BUFSIZE
    modifies usb`sent
    ensures usb.sent == old(usb.sent) + Transfers(usb.ioBuf[..nSend])
    ensures nSend == 0 <==> usb.sent == old(usb.sent)
  {
    if nSend > 0 {
      usb.sent := usb.sent + [usb.ioBuf[..nSend]];
    }
  }

  /** A read that has already stored `prefix` from `used` packets and
      still has `rest` to do. */
  function Extended(prefix: seq<byte>, used: nat, rest: Option<Reassembled>): Option<Reassembled> {
    match rest
    case None => None
    case Some(r) => Some(Reassembled(prefix + r.data, used + r.used))
  }

  lemma ExtendedNothing(r: Option<Reassembled>)
    ensures Extended([], 0, r) == r
  {
    if r.Some? {
      assert [] + r.value.data == r.value.data;
    }
  }

  /** One packet of a read: its data (as much as is still wanted) joins
      the bytes stored so far. */
  lemma ExtendedStep(prefix: seq<byte>, used: nat, packets: seq<seq<byte>>, want: nat)
    requires packets != [] && want > 0
    ensures var data := Payload(packets[0]);
            var n := if |data| > want then want else |data|;
            Extended(prefix, used, Reassemble(packets, want))
              == Extended(prefix + data[..n], used + 1, Reassemble(packets[1..], want - n))
  {
    var data := Payload(packets[0]);
    var n := if |data| > want then want else |data|;
    match Reassemble(packets[1..], want - n)
    case None =>
    case Some(r) =>
      assert prefix + (data[..n] + r.data) == prefix + data[..n] + r.data;
  }

  /** One packet of a read, in the terms the loop of `UsbReadData` keeps:
      its first `nCopy` data bytes join the bytes stored so far. */
  lemma ReadStep(r0: Option<Reassembled>, stored: seq<byte>, used: nat, packets: seq<seq<byte>>, want: nat, nCopy: nat)
    requires packets != [] && want > 0 && r0 == Extended(stored, used, Reassemble(packets, want))
    requires nCopy == (if |Payload(packets[0])| > want then want else |Payload(packets[0])|)
    ensures r0 == Extended(stored + Payload(packets[0])[..nCopy], used + 1, Reassemble(packets[1..], want - nCopy))
  {
    ExtendedStep(stored, used, packets, want);
  }

  lemma PayloadPrefix(packet: seq<byte>, n: nat)
    requires 0 < n && STATUS_BYTES + n <= |packet|
    ensures packet[STATUS_BYTES .. STATUS_BYTES + n] == Payload(packet)[..n]
  {
  }

  lemma NothingStored(stored: seq<byte>, data: seq<byte>)
    ensures stored + data[..0] == stored
  {
  }

  /** The `memcpy` of a read: `bytes` go to `buf` at `at`, after the bytes
      kept so far. */
  method StoreBytes(buf: array<byte>, at: nat, bytes: seq<byte>)
    requires at + |bytes| <= buf.Length
    modifies buf
    ensures buf[..at + |bytes|] == old(buf[..at]) + bytes
  {
    forall k | 0 <= k < |bytes| {
      buf[at + k] := bytes[k];
    }
  }

  /** `usbReadData` (ftdiJTAG.c:369-398): fills the receive buffer with
      `nWant` bytes taken from the packets, two status bytes stripped from
      each, as `Reassemble` says; fails when the packets run out. */
  method UsbReadData(usb: UsbInfo, nWant: nat) returns (ok: bool)
    requires usb.Valid() && nWant <= Mpsse.USB_BUFSIZE
    modifies usb`packets, usb.rxBuf
    ensures var r := Reassemble(old(usb.packets), nWant);
            && (ok <==> r.Some?)
            && (ok ==> usb.rxBuf[..nWant] == r.value.data && usb.packets == old(usb.packets)[r.value.used..])
            && (!ok ==> usb.packets == [])
  {
    ghost var packets0 := usb.packets;
    ghost var r0 := Reassemble(packets0, nWant);
    var want: nat := nWant;
    var got: nat := 0;
    ghost var used: nat := 0;
    ghost var stored: seq<byte> := [];
    ghost var pending := packets0;
    ExtendedNothing(r0);
    while want > 0
      invariant got + want == nWant && |stored| == got
      invariant usb.rxBuf[..got] == stored && usb.packets == pending
      invariant r0 == Extended(stored, used, Reassemble(pending, want))
      invariant used <= |packets0| && pending == packets0[used..]
      decreases |pending|
    {
      if usb.packets == [] {
        return false;
      }
      var packet := usb.packets[0];
      usb.packets := usb.packets[1..];
      var nCopy := if |packet| <= STATUS_BYTES then 0 else |packet| - STATUS_BYTES;
      if nCopy > want {
        nCopy := want;
      }
      ReadStep(r0, stored, used, pending, want, nCopy);
      assert pending[1..] == packets0[used + 1..] by { DropDrop(packets0, used, 1); }
      pending, used, stored := pending[1..], used + 1, stored + Payload(packet)[..nCopy];
      if nCopy > 0 {
        PayloadPrefix(packet, nCopy);
        StoreBytes(usb.rxBuf, got, packet[STATUS_BYTES .. STATUS_BYTES + nCopy]);
      } else {
        NothingStored(usb.rxBuf[..got], Payload(packet));
      }
      want := want - nCopy;
      got := got + nCopy;
    }
    ok := true;
  }
}
