/** `usbReadData` (ftdiJTAG.c:369-398): collecting the bytes the FTDI chip
    returns over bulk IN transfers.  Every packet the chip sends starts with
    two modem-status bytes, which are not data.  The bulk transfers are given
    as the sequence of packets the chip delivers; running out of packets
    stands for a transfer that fails or times out. */
module UsbRead {
  import opened Bits
  import opened Wrappers

  /** The number of status bytes at the head of every packet. */
  const STATUS_BYTES: nat := 2

  /** The data a packet carries: everything after the status bytes.  A
      packet of two bytes or fewer (a "runt") carries none. */
  function Payload(packet: seq<byte>): (data: seq<byte>)
    ensures |packet| <= STATUS_BYTES ==> data == []
    ensures |packet| > STATUS_BYTES ==> |data| == |packet| - STATUS_BYTES
  {
    if |packet| <= STATUS_BYTES then [] else packet[STATUS_BYTES..]
  }

  /** The data of a sequence of packets, in order. */
  function Payloads(packets: seq<seq<byte>>): seq<byte> {
    if packets == [] then [] else Payload(packets[0]) + Payloads(packets[1..])
  }

  datatype Reassembled = Reassembled(data: seq<byte>, used: nat)

  /** The bytes `usbReadData` stores for a request of `nWant` bytes and the
      number of packets it takes: each packet adds its data, the last one
      only as much as is still wanted (the rest of it is dropped).  None when
      the packets run out first. */
  function Reassemble(packets: seq<seq<byte>>, nWant: nat): (r: Option<Reassembled>)
    ensures r.Some? ==> |r.value.data| == nWant && r.value.used <= |packets|
  {
    if nWant == 0 then Some(Reassembled([], 0))
    else if packets == [] then None
    else
      var data := Payload(packets[0]);
      var n := if |data| > nWant then nWant else |data|;
      match Reassemble(packets[1..], nWant - n)
      case None => None
      case Some(r) => Some(Reassembled(data[..n] + r.data, r.used + 1))
  }

  lemma {:induction false} PayloadsAppend(a: seq<seq<byte>>, b: seq<seq<byte>>)
    ensures Payloads(a + b) == Payloads(a) + Payloads(b)
  {
    if a == [] {
      assert a + b == b;
    } else {
      assert (a + b)[1..] == a[1..] + b;
      PayloadsAppend(a[1..], b);
    }
  }

  /** The data of the first u + 1 packets: that of the first packet, then
      that of the next u. */
  lemma PayloadsPrefix(packets: seq<seq<byte>>, u: nat)
    requires u < |packets|
    ensures Payloads(packets[..u + 1]) == Payload(packets[0]) + Payloads(packets[1..][..u])
  {
    assert packets[..u + 1] == [packets[0]] + packets[1..][..u];
    PayloadsAppend([packets[0]], packets[1..][..u]);
  }

  /** What the reassembled bytes are: the first `nWant` bytes of the data of
      the packets taken, and no packet more than needed is taken; the read
      fails exactly when all packets together carry too little data. */
  lemma ReassembleCorrect(packets: seq<seq<byte>>, nWant: nat)
    ensures Reassemble(packets, nWant).None? <==> |Payloads(packets)| < nWant
    ensures var r := Reassemble(packets, nWant);
            r.Some? ==>
              |Payloads(packets[..r.value.used])| >= nWant &&
              r.value.data == Payloads(packets[..r.value.used])[..nWant] &&
              (r.value.used > 0 ==> |Payloads(packets[..r.value.used - 1])| < nWant)
  {
    ReassembleFails(packets, nWant);
    var r := Reassemble(packets, nWant);
    if r.Some? {
      ReassembleData(packets, nWant, r.value.data, r.value.used);
    }
    ReassembleMinimal(packets, nWant);
  }

  lemma {:induction false} ReassembleFails(packets: seq<seq<byte>>, nWant: nat)
    ensures Reassemble(packets, nWant).None? <==> |Payloads(packets)| < nWant
  {
    if nWant > 0 && packets != [] {
      var data := Payload(packets[0]);
      var n := if |data| > nWant then nWant else |data|;
      ReassembleFails(packets[1..], nWant - n);
      assert Payloads(packets) == data + Payloads(packets[1..]);
    }
  }

  lemma {:induction false} ReassembleData(packets: seq<seq<byte>>, nWant: nat, stored: seq<byte>, used: nat)
    requires Reassemble(packets, nWant) == Some(Reassembled(stored, used))
    ensures used <= |packets| && |Payloads(packets[..used])| >= nWant
    ensures stored == Payloads(packets[..used])[..nWant]
  {
    if nWant == 0 {
      assert packets[..0] == [];
    } else {
      var data := Payload(packets[0]);
      var n := if |data| > nWant then nWant else |data|;
      var rest := packets[1..];
      var r := Reassemble(rest, nWant - n);
      var u, tail := r.value.used, r.value.data;
      assert stored == data[..n] + tail && used == u + 1;
      ReassembleData(rest, nWant - n, tail, u);
      var later := Payloads(rest[..u]);
      assert Payloads(packets[..u + 1]) == data + later by { PayloadsPrefix(packets, u); }
      TakeStep(data, later, tail, n, nWant);
    }
  }

  /** The data of one more packet in front: its first n bytes, then the
      bytes taken from the packets after it. */
  lemma TakeStep(data: seq<byte>, later: seq<byte>, tail: seq<byte>, n: nat, nWant: nat)
    requires n == (if |data| > nWant then nWant else |data|)
    requires |later| >= nWant - n && tail == later[..nWant - n]
    ensures |data + later| >= nWant && data[..n] + tail == (data + later)[..nWant]
  {
    if n < |data| {
      assert tail == [];
    } else {
      PrefixOfAppend(data, later, nWant);
    }
  }

  lemma {:induction false} ReassembleMinimal(packets: seq<seq<byte>>, nWant: nat)
    ensures var r := Reassemble(packets, nWant);
            r.Some? && r.value.used > 0 ==> |Payloads(packets[..r.value.used - 1])| < nWant
  {
    if nWant > 0 && packets != [] {
      var data := Payload(packets[0]);
      var n := if |data| > nWant then nWant else |data|;
      var rest := packets[1..];
      ReassembleMinimal(rest, nWant - n);
      var r := Reassemble(rest, nWant - n);
      if r.Some? {
        var u := r.value.used;
        if u > 0 {
          assert Payloads(packets[..u]) == data + Payloads(rest[..u - 1]) by { PayloadsPrefix(packets, u - 1); }
        } else {
          assert Payloads(packets[..0]) == [] by { assert packets[..0] == []; }
        }
      }
    }
  }

  lemma PrefixOfAppend<T>(x: seq<T>, y: seq<T>, k: nat)
    requires |x| <= k <= |x| + |y|
    ensures (x + y)[..k] == x + y[..k - |x|]
  {
  }
}
