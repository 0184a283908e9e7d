/** The small parsers and selectors of ftdiJTAG.c: the `-d
    vendor:product[:serial]` and `-g direction:value[:value...]` arguments,
    device strings and the choice of bulk endpoints.  Command-line strings
    are `seq<char>`, their end standing for the terminating NUL.

    `strtol(str, &endp, 16)` is modelled as a plain parser of hexadecimal
    digits: the value of the longest prefix of hex digits, and where it
    stops (the start of the string when there is no digit). */
module Parsers {
  import opened Bits
  import opened Wrappers

  predicate IsHexDigit(c: char) {
    '0' <= c <= '9' || 'a' <= c <= 'f' || 'A' <= c <= 'F'
  }

  /** The value of a hex digit (0 for any other character, which is
      never asked for). */
  function DigitValue(c: char): (v: nat)
    ensures v < 16
  {
    if '0' <= c <= '9' then c as nat - '0' as nat
    else if 'a' <= c <= 'f' then c as nat - 'a' as nat + 10
    else if 'A' <= c <= 'F' then c as nat - 'A' as nat + 10
    else 0
  }

  /** The length of the longest prefix of hex digits. */
  function HexSpan(s: seq<char>): (n: nat)
    ensures n <= |s|
  {
    if s == [] || !IsHexDigit(s[0]) then 0 else 1 + HexSpan(s[1..])
  }

  /** The prefix `HexSpan` measures is made of digits and ends before the
      first character that is not one. */
  lemma {:induction false} HexSpanMeaning(s: seq<char>)
    ensures forall i :: 0 <= i < HexSpan(s) ==> IsHexDigit(s[i])
    ensures HexSpan(s) < |s| ==> !IsHexDigit(s[HexSpan(s)])
  {
    if s != [] && IsHexDigit(s[0]) {
      HexSpanMeaning(s[1..]);
    }
  }

  /** The value of a string of hex digits, most significant first. */
  function HexValue(digits: seq<char>): nat
  {
    if digits == [] then 0
    else 16 * HexValue(digits[..|digits| - 1]) + DigitValue(digits[|digits| - 1])
  }

  /** `strtol(s, &endp, 16)`: the value parsed and the index of `endp`. */
  function StrToL(s: seq<char>): (r: (nat, nat))
    ensures r.1 == HexSpan(s)
  {
    var n := HexSpan(s);
    (HexValue(s[..n]), n)
  }

  // ---------------------------------------------------------------------
  // A reference printer, to state round trips against
  // ---------------------------------------------------------------------

  function HexChar(d: nat): (c: char)
    requires d < 16
    ensures IsHexDigit(c) && DigitValue(c) == d
  {
    if d < 10 then ('0' as nat + d) as char else ('a' as nat + d - 10) as char
  }

  /** The shortest hex spelling of v (a single 0 for zero). */
  function Hex(v: nat): (s: seq<char>)
    ensures |s| >= 1
    decreases v
  {
    if v < 16 then [HexChar(v)] else Hex(v / 16) + [HexChar(v % 16)]
  }

  lemma {:induction false} HexValueOfHex(v: nat)
    ensures HexValue(Hex(v)) == v
    decreases v
  {
    if v >= 16 {
      var s := Hex(v);
      assert s[..|s| - 1] == Hex(v / 16);
      HexValueOfHex(v / 16);
    }
  }

  /** `strtol` reads back a printed number and stops at the first
      character that is not a hex digit. */
  lemma StrToLHex(v: nat, rest: seq<char>)
    requires rest == [] || !IsHexDigit(rest[0])
    ensures StrToL(Hex(v) + rest) == (v, |Hex(v)|)
  {
    var s := Hex(v) + rest;
    HexDigits(v);
    HexSpanPrefix(Hex(v), rest);
    assert s[..|Hex(v)|] == Hex(v);
    HexValueOfHex(v);
  }

  lemma {:induction false} HexDigits(v: nat)
    ensures forall i :: 0 <= i < |Hex(v)| ==> IsHexDigit(Hex(v)[i])
    decreases v
  {
    if v >= 16 {
      HexDigits(v / 16);
    }
  }

  lemma {:induction false} HexSpanPrefix(digits: seq<char>, rest: seq<char>)
    requires forall i :: 0 <= i < |digits| ==> IsHexDigit(digits[i])
    requires rest == [] || !IsHexDigit(rest[0])
    ensures HexSpan(digits + rest) == |digits|
  {
    if digits != [] {
      assert (digits + rest)[1..] == digits[1..] + rest;
      HexSpanPrefix(digits[1..], rest);
    } else {
      assert digits + rest == rest;
    }
  }

  /** A field, a ':' and the rest of an argument. */
  lemma Field(field: seq<char>, rest: seq<char>)
    ensures field + [':'] + rest == field + ([':'] + rest)
    ensures (field + [':'] + rest)[|field|] == ':' && (field + [':'] + rest)[|field| + 1 ..] == rest
  {
  }

  // ---------------------------------------------------------------------
  // -d vendor:product[:serial]
  // ---------------------------------------------------------------------

  datatype DeviceId = DeviceId(vendor: nat, product: nat, serial: Option<seq<char>>)

  /** `deviceConfig` (ftdiJTAG.c:961-984): a hex vendor, ':', a hex product,
      then the end of the string or ':' and a serial number (possibly empty);
      each id at most 0xFFFF.  None where the program exits with status 2. */
  function DeviceConfig(str: seq<char>): (r: Option<DeviceId>)
    ensures r.Some? ==> r.value.vendor <= 0xFFFF && r.value.product <= 0xFFFF
  {
    var (vendor, v) := StrToL(str);
    if v != 0 && v < |str| && str[v] == ':' then ProductPart(vendor, str[v + 1 ..]) else None
  }

  /** The part of `deviceConfig` after the vendor id and its ':'. */
  function ProductPart(vendor: nat, rest: seq<char>): (r: Option<DeviceId>)
    ensures r.Some? ==> r.value.vendor <= 0xFFFF && r.value.product <= 0xFFFF
  {
    var (product, p) := StrToL(rest);
    if p != 0 && (p == |rest| || rest[p] == ':') && vendor <= 0xFFFF && product <= 0xFFFF then
      Some(DeviceId(vendor, product, if p == |rest| then None else Some(rest[p + 1 ..])))
    else None
  }

  /** The text after a product id: nothing, or ':' and the serial number. */
  function SerialTail(serial: Option<seq<char>>): seq<char> {
    match serial
    case None => []
    case Some(s) => [':'] + s
  }

  lemma ProductRoundTrip(vendor: nat, product: nat, serial: Option<seq<char>>)
    requires vendor <= 0xFFFF && product <= 0xFFFF
    ensures ProductPart(vendor, Hex(product) + SerialTail(serial)) == Some(DeviceId(vendor, product, serial))
  {
    var tail := SerialTail(serial);
    var rest := Hex(product) + tail;
    var p := |Hex(product)|;
    StrToLHex(product, tail);
    if serial.Some? {
      assert rest[p] == ':' && rest[p + 1 ..] == serial.value;
    }
  }

  /** Every well-formed argument is accepted with the values written in it,
      with or without a serial number. */
  lemma DeviceConfigRoundTrip(vendor: nat, product: nat, serial: Option<seq<char>>)
    requires vendor <= 0xFFFF && product <= 0xFFFF
    ensures DeviceConfig(Hex(vendor) + [':'] + (Hex(product) + SerialTail(serial))) == Some(DeviceId(vendor, product, serial))
  {
    var rest := Hex(product) + SerialTail(serial);
    Field(Hex(vendor), rest);
    StrToLHex(vendor, [':'] + rest);
    ProductRoundTrip(vendor, product, serial);
  }

  /** An id above 0xFFFF is refused. */
  lemma DeviceConfigRange(vendor: nat, product: nat, tail: seq<char>)
    requires vendor > 0xFFFF || product > 0xFFFF
    requires tail == [] || !IsHexDigit(tail[0])
    ensures DeviceConfig(Hex(vendor) + [':'] + (Hex(product) + tail)).None?
  {
    var rest := Hex(product) + tail;
    Field(Hex(vendor), rest);
    StrToLHex(vendor, [':'] + rest);
    StrToLHex(product, tail);
  }

  // ---------------------------------------------------------------------
  // -g direction:value[:value...]
  // ---------------------------------------------------------------------

  /** FTDI pin bits of the low byte (ADBUS). */
  const PIN_TCK: nat := 0x1
  const PIN_TDI: nat := 0x2
  const PIN_TMS: nat := 0x8
  const SET_LOW_BYTE: byte := 0x80

  /** The three bytes that drive the upper four low-byte pins to `value`
      with direction `direction`, keeping TMS high and TCK, TDI and TMS as
      outputs. */
  function GpioWrite(direction: nat, value: nat): (w: seq<byte>)
    requires direction <= 0xF && value <= 0xF
    ensures |w| == 3 && w[0] == SET_LOW_BYTE
    ensures w[1] as int == value * 16 + PIN_TMS
    ensures w[2] as int == direction * 16 + PIN_TMS + PIN_TDI + PIN_TCK
  {
    var v, d := value * 16 + PIN_TMS, direction * 16 + PIN_TMS + PIN_TDI + PIN_TCK;
    assert v as byte as int == v by { ByteOf(v); }
    assert d as byte as int == d by { ByteOf(d); }
    [SET_LOW_BYTE, v as byte, d as byte]
  }

  datatype GpioPlan = GpioPlan(writes: seq<seq<byte>>, ok: bool)

  /** The writes `ftdiGPIO` (ftdiJTAG.c:444-477) makes for the values after
      the direction, and whether it succeeds: it stops at the first field
      that is not a hex number ended by ':' or the end, or that exceeds 0xF,
      and succeeds only when it has used the whole string. */
  function GpioValues(direction: nat, s: seq<char>): (plan: GpioPlan)
    ensures |plan.writes| <= |s|
    ensures plan.ok ==> plan.writes != []
    ensures forall i :: 0 <= i < |plan.writes| ==> |plan.writes[i]| == 3 && plan.writes[i][0] == SET_LOW_BYTE
    decreases |s|
  {
    var (value, n) := StrToL(s);
    if n == 0 || (n < |s| && s[n] != ':') then GpioPlan([], false)
    else if direction > 0xF || value > 0xF then GpioPlan([], false)
    else if n == |s| then GpioPlan([GpioWrite(direction, value)], true)
    else
      var more := GpioValues(direction, s[n + 1 ..]);
      GpioPlan([GpioWrite(direction, value)] + more.writes, more.ok)
  }

  function Gpio(str: seq<char>): (plan: GpioPlan)
    ensures |plan.writes| < |str| || plan.writes == []
    ensures plan.ok ==> plan.writes != []
    ensures forall i :: 0 <= i < |plan.writes| ==> |plan.writes[i]| == 3 && plan.writes[i][0] == SET_LOW_BYTE
  {
    var (direction, d) := StrToL(str);
    if d != 0 && d < |str| && str[d] == ':' then GpioValues(direction, str[d + 1 ..])
    else GpioPlan([], false)
  }

  /** The argument spelling a direction and a non-empty list of values. */
  function GpioArgument(direction: nat, values: seq<nat>): seq<char>
    requires values != []
  {
    Hex(direction) + [':'] + ValueList(values)
  }

  function ValueList(values: seq<nat>): seq<char>
    requires values != []
  {
    if |values| == 1 then Hex(values[0]) else Hex(values[0]) + [':'] + ValueList(values[1..])
  }

  /** One write per value, in order. */
  function GpioWrites(direction: nat, values: seq<nat>): (ws: seq<seq<byte>>)
    requires direction <= 0xF && forall i :: 0 <= i < |values| ==> values[i] <= 0xF
    ensures |ws| == |values|
  {
    if values == [] then [] else [GpioWrite(direction, values[0])] + GpioWrites(direction, values[1..])
  }

  /** A well-formed argument succeeds and writes each value in turn. */
  lemma {:induction false} GpioValuesRoundTrip(direction: nat, values: seq<nat>)
    requires values != [] && direction <= 0xF
    requires forall i :: 0 <= i < |values| ==> values[i] <= 0xF
    ensures GpioValues(direction, ValueList(values)) == GpioPlan(GpioWrites(direction, values), true)
    decreases |values|
  {
    var s := ValueList(values);
    if |values| == 1 {
      StrToLHex(values[0], []);
      assert Hex(values[0]) + [] == s;
      assert GpioWrites(direction, values[1..]) == [];
    } else {
      var rest := ValueList(values[1..]);
      Field(Hex(values[0]), rest);
      StrToLHex(values[0], [':'] + rest);
      GpioValuesRoundTrip(direction, values[1..]);
    }
  }

  lemma GpioRoundTrip(direction: nat, values: seq<nat>)
    requires values != [] && direction <= 0xF
    requires forall i :: 0 <= i < |values| ==> values[i] <= 0xF
    ensures Gpio(GpioArgument(direction, values)) == GpioPlan(GpioWrites(direction, values), true)
  {
    var rest := ValueList(values);
    Field(Hex(direction), rest);
    StrToLHex(direction, [':'] + rest);
    GpioValuesRoundTrip(direction, values);
  }

  /** A direction above 0xF makes every argument fail before any write. */
  lemma GpioDirectionRange(direction: nat, s: seq<char>)
    requires direction > 0xF
    ensures GpioValues(direction, s) == GpioPlan([], false)
  {
  }

  // ---------------------------------------------------------------------
  // Device strings and endpoints
  // ---------------------------------------------------------------------

  /** Room for a device string and its terminating NUL. */
  const IDSTRING_CAPACITY: nat := 100

  /** `getDeviceString` (ftdiJTAG.c:218-233): the string descriptor,
      truncated to fit the buffer, or the empty string when it cannot be
      read (None). */
  function DeviceString(descriptor: Option<seq<char>>): (s: seq<char>)
    ensures |s| < IDSTRING_CAPACITY
    ensures descriptor.None? ==> s == []
    ensures descriptor.Some? ==> |s| <= |descriptor.value| && s == descriptor.value[..|s|]
    ensures descriptor.Some? && |descriptor.value| < IDSTRING_CAPACITY ==> s == descriptor.value
    ensures descriptor.Some? && |descriptor.value| >= IDSTRING_CAPACITY ==> |s| == IDSTRING_CAPACITY - 1
  {
    match descriptor
    case None => []
    case Some(d) => if |d| >= IDSTRING_CAPACITY then d[..IDSTRING_CAPACITY - 1] else d
  }

  /** An endpoint descriptor: bEndpointAddress and bmAttributes. */
  datatype Endpoint = Endpoint(address: byte, attributes: byte)

  /** Section 9.6.6 of the USB 2.0 specification: bits 1..0 of bmAttributes
      give the transfer type (2 is bulk), bit 7 of bEndpointAddress the
      direction (1 is IN, towards the host). */
  predicate IsBulk(e: Endpoint) {
    e.attributes & 0x03 == 0x02
  }

  predicate IsIn(e: Endpoint) {
    e.address & 0x80 == 0x80
  }

  predicate Wanted(e: Endpoint, dirIn: bool) {
    IsBulk(e) && IsIn(e) == dirIn
  }

  /** The address `getEndpoints` keeps for a direction: that of the last
      bulk endpoint of that direction, 0 when there is none. */
  function LastBulk(eps: seq<Endpoint>, dirIn: bool): (a: nat)
  {
    if eps == [] then 0
    else if Wanted(eps[|eps| - 1], dirIn) then eps[|eps| - 1].address as nat
    else LastBulk(eps[..|eps| - 1], dirIn)
  }

  /** No endpoint from index k on qualifies. */
  predicate NoneFrom(eps: seq<Endpoint>, k: nat, dirIn: bool) {
    forall j :: k <= j < |eps| ==> !Wanted(eps[j], dirIn)
  }

  /** What `LastBulk` means: either no endpoint of the interface qualifies
      and the address is 0, or it is the address of one that does, after
      which none does. */
  lemma {:induction false} LastBulkMeaning(eps: seq<Endpoint>, dirIn: bool)
    ensures var a := LastBulk(eps, dirIn);
            (NoneFrom(eps, 0, dirIn) && a == 0) ||
            (exists i :: 0 <= i < |eps| && Wanted(eps[i], dirIn) && eps[i].address as nat == a && NoneFrom(eps, i + 1, dirIn))
  {
    if eps != [] {
      var n := |eps| - 1;
      if Wanted(eps[n], dirIn) {
        assert NoneFrom(eps, n + 1, dirIn);
      } else {
        var a := LastBulk(eps[..n], dirIn);
        assert LastBulk(eps, dirIn) == a;
        LastBulkMeaning(eps[..n], dirIn);
        if NoneFrom(eps[..n], 0, dirIn) && a == 0 {
          NoneExtend(eps, 0, dirIn);
        } else {
          var i :| 0 <= i < n && Wanted(eps[..n][i], dirIn) && eps[..n][i].address as nat == a && NoneFrom(eps[..n], i + 1, dirIn);
          assert eps[i] == eps[..n][i];
          NoneExtend(eps, i + 1, dirIn);
        }
      }
    }
  }

  /** An endpoint that does not qualify, after a stretch in which none
      does, extends the stretch. */
  lemma NoneExtend(eps: seq<Endpoint>, k: nat, dirIn: bool)
    requires eps != [] && k <= |eps| - 1
    requires NoneFrom(eps[..|eps| - 1], k, dirIn) && !Wanted(eps[|eps| - 1], dirIn)
    ensures NoneFrom(eps, k, dirIn)
  {
    var n := |eps| - 1;
    forall j | k <= j < |eps|
      ensures !Wanted(eps[j], dirIn)
    {
      if j < n {
        assert eps[j] == eps[..n][j];
      }
    }
  }
}
