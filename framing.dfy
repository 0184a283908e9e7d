/** The byte-level framing of the XVC 1.0 protocol as ftdiJTAG.c reads and
    writes it: 32-bit values travel least significant byte first
    (`fetch32` and `reply32`, lines 199-215 and 772-783), keywords are
    matched byte by byte (`matchInput`, lines 741-757), and `getinfo:` is
    answered with a fixed text (line 839). */
module Framing {
  import opened Bits

  /** The bytes b carry the ASCII text s, one byte per character. */
  predicate Spells(b: seq<byte>, s: string) {
    |b| == |s| && forall i :: 0 <= i < |s| ==> b[i] as int == s[i] as int
  }

  /** Texts put together are carried by their bytes put together. */
  lemma SpellsConcat(b1: seq<byte>, s1: string, b2: seq<byte>, s2: string)
    requires Spells(b1, s1) && Spells(b2, s2)
    ensures Spells(b1 + b2, s1 + s2)
  {
    var b, s := b1 + b2, s1 + s2;
    forall i | 0 <= i < |s|
      ensures b[i] as int == s[i] as int
    {
      if i >= |s1| {
        assert b[i] == b2[i - |s1|] && s[i] == s2[i - |s1|];
      }
    }
  }

  /** The decimal digits of n, as `%d` prints a non-negative number. */
  function Decimal(n: nat): (s: string)
    ensures |s| > 0 && forall i :: 0 <= i < |s| ==> '0' <= s[i] <= '9'
  {
    var d := ['0' + (n % 10) as char];
    if n < 10 then d else Decimal(n / 10) + d
  }

  /** 256 to the power n. */
  function Pow256(n: nat): (p: nat)
    ensures p >= 1
  {
    if n == 0 then 1 else 256 * Pow256(n - 1)
  }

  /** The value of bytes sent least significant first. */
  function LeValue(b: seq<byte>): nat {
    if b == [] then 0 else b[0] as nat + 256 * LeValue(b[1..])
  }

  /** The n low bytes of v, least significant first: what `reply32` sends
      for n == 4, one byte-sized store of `value` before each `value >>= 8`. */
  function LeBytes(v: nat, n: nat): (b: seq<byte>)
    ensures |b| == n
  {
    if n == 0 then [] else [(v % 256) as byte] + LeBytes(v / 256, n - 1)
  }

  /** n bytes hold a value below 256^n. */
  lemma {:induction false} LeValueBound(b: seq<byte>)
    ensures LeValue(b) < Pow256(|b|)
  {
    if b != [] {
      LeValueBound(b[1..]);
    }
  }

  /** Reading back the bytes of a value that fits in them gives the value:
      `fetch32` undoes `reply32`. */
  lemma {:induction false} LeRoundTrip(v: nat, n: nat)
    requires v < Pow256(n)
    ensures LeValue(LeBytes(v, n)) == v
  {
    if n > 0 {
      LeRoundTrip(v / 256, n - 1);
      ByteOf(v % 256);
    }
  }

  /** The other direction: the bytes of the value read from n bytes are
      those bytes, so a `settck:` period is echoed exactly as received. */
  lemma {:induction false} LeBytesOfValue(b: seq<byte>)
    ensures LeBytes(LeValue(b), |b|) == b
  {
    if b != [] {
      var rest := LeValue(b[1..]);
      var v := b[0] as nat + 256 * rest;
      assert v % 256 == b[0] as nat && v / 256 == rest;
      LeBytesOfValue(b[1..]);
      ByteOf(b[0] as nat);
      assert (v % 256) as byte == b[0];
    }
  }

  /** Zero bytes hold the value 0. */
  lemma {:induction false} LeValueZeros(b: seq<byte>)
    requires forall i :: 0 <= i < |b| ==> b[i] == 0
    ensures LeValue(b) == 0
  {
    if b != [] {
      LeValueZeros(b[1..]);
    }
  }

  /** One more byte, received after the others, weighs 256^k for the k
      before it: the `v |= c << i` of `fetch32`. */
  lemma {:induction false} LeValueSnoc(b: seq<byte>, c: byte)
    ensures LeValue(b + [c]) == LeValue(b) + c as nat * Pow256(|b|)
  {
    if b != [] {
      assert (b + [c])[1..] == b[1..] + [c];
      LeValueSnoc(b[1..], c);
      Weigh(c as nat, Pow256(|b| - 1));
    }
  }

  lemma Weigh(c: nat, p: nat)
    ensures c * (256 * p) == 256 * (c * p)
  {
  }

  /** The value of the four bytes `fetch32` reads. */
  function Fetch32(input: seq<byte>): (r: (nat, seq<byte>))
    requires |input| >= 4
    ensures r.0 < 0x1_0000_0000 && r.1 == input[4..]
  {
    LeValueBound(input[..4]);
    (LeValue(input[..4]), input[4..])
  }

  /** How many bytes `matchInput` reads while it compares the input with
      `word`: up to and including the first byte that differs, all of the
      input when it ends first, and |word| when the input starts with it. */
  function Consumed(word: seq<byte>, input: seq<byte>): (n: nat)
    ensures n <= |input| && n <= |word|
  {
    if word == [] || input == [] then 0
    else if input[0] != word[0] then 1
    else 1 + Consumed(word[1..], input[1..])
  }

  /** When the input starts with the word, `matchInput` reads the word and
      nothing more. */
  lemma {:induction false} ConsumedMatch(word: seq<byte>, input: seq<byte>)
    ensures |word| <= |input| && input[..|word|] == word ==> Consumed(word, input) == |word|
  {
    if word != [] && input != [] && input[0] == word[0] {
      ConsumedMatch(word[1..], input[1..]);
      if |word| <= |input| && input[..|word|] == word {
        assert input[1..][..|word| - 1] == word[1..];
      }
    }
  }

  /** The answer to `getinfo:`: the protocol version and the largest shift
      the server takes, in bytes, formatted as at ftdiJTAG.c:839. */
  function InfoReply(bufSize: nat): (text: string)
    ensures forall i :: 0 <= i < |text| ==> text[i] as int < 256
  {
    "xvcServer_v1.0:" + Decimal(bufSize) + "\n"
  }

  /** For the buffer size of 2048 bytes the answer reads as the protocol
      expects. */
  lemma InfoText()
    ensures InfoReply(2048) == "xvcServer_v1.0:2048\n"
  {
    assert Decimal(2) == "2";
    assert Decimal(20) == "20";
    assert Decimal(204) == "204";
  }
}
