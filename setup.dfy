/** The parts of the start-up of ftdiJTAG.c that fill in `usbInfo` from
    strings and descriptors: the `-d` argument (`deviceConfig`), the device
    strings (`getDeviceString`), the bulk endpoints (`getEndpoints`) and the
    `-g` pin writes (`ftdiGPIO`).  Each method runs the steps of the source
    on the `UsbInfo` object and is proved to end as the function of module
    Parsers says.  What libusb would return is passed in as a value. */
module Setup {
  import opened Bits
  import opened Wrappers
  import opened Usb
  import opened Parsers

  /** `deviceConfig` (ftdiJTAG.c:961-984): a well-formed argument sets the
      vendor and product ids, and the serial number when one follows; a
      malformed one makes the program exit with status 2, which is
      `ok == false` here, and nothing is set. */
  method DeviceConfigure(usb: UsbInfo, str: seq<char>) returns (ok: bool)
    modifies usb`vendorId, usb`productId, usb`serialNumber
    ensures ok <==> DeviceConfig(str).Some?
    ensures ok ==> usb.vendorId == DeviceConfig(str).value.vendor && usb.productId == DeviceConfig(str).value.product
    ensures ok && DeviceConfig(str).value.serial.Some? ==> usb.serialNumber == DeviceConfig(str).value.serial
    ensures !(ok && DeviceConfig(str).value.serial.Some?) ==> usb.serialNumber == old(usb.serialNumber)
    ensures !ok ==> usb.vendorId == old(usb.vendorId) && usb.productId == old(usb.productId)
  {
    var (vendor, v) := StrToL(str);
    if v != 0 && v < |str| && str[v] == ':' {
      var rest := str[v + 1 ..];
      var (product, p) := StrToL(rest);
      if p != 0 && (p == |rest| || rest[p] == ':') && vendor <= 0xFFFF && product <= 0xFFFF {
        if p < |rest| {
          usb.serialNumber := Some(rest[p + 1 ..]);
        }
        usb.vendorId := vendor;
        usb.productId := product;
        return true;
      }
    }
    return false;
  }

  /** `getDeviceStrings` (ftdiJTAG.c:235-241): the manufacturer, product
      and serial number strings, each as `getDeviceString` (ftdiJTAG.c:
      218-233) keeps it from the descriptor libusb returns (None when the
      descriptor cannot be read). */
  method GetDeviceStrings(usb: UsbInfo, manufacturer: Option<seq<char>>, product: Option<seq<char>>,
                          serial: Option<seq<char>>)
    modifies usb`deviceVendorString, usb`deviceProductString, usb`deviceSerialString
    ensures usb.deviceVendorString == DeviceString(manufacturer)
    ensures usb.deviceProductString == DeviceString(product)
    ensures usb.deviceSerialString == DeviceString(serial)
  {
    usb.deviceVendorString := GetDeviceString(manufacturer);
    usb.deviceProductString := GetDeviceString(product);
    usb.deviceSerialString := GetDeviceString(serial);
  }

  /** `getDeviceString` (ftdiJTAG.c:218-233): nothing when the descriptor
      cannot be read, and otherwise at most 99 of its characters. */
  method GetDeviceString(descriptor: Option<seq<char>>) returns (dest: seq<char>)
    ensures dest == DeviceString(descriptor)
    ensures |dest| < IDSTRING_CAPACITY
  {
    if descriptor.None? {
      return [];
    }
    var n := |descriptor.value|;
    if n >= IDSTRING_CAPACITY {
      n := IDSTRING_CAPACITY - 1;
    }
    dest := descriptor.value[..n];
  }

  /** `getEndpoints` (ftdiJTAG.c:246-266): every bulk endpoint of the
      interface overwrites the address kept for its direction, so the last
      bulk IN and the last bulk OUT endpoint win, and a direction without one
      is left at 0. */
  method GetEndpoints(usb: UsbInfo, endpoints: seq<Endpoint>)
    modifies usb`bulkInEndpointAddress, usb`bulkOutEndpointAddress
    ensures usb.bulkInEndpointAddress == LastBulk(endpoints, true)
    ensures usb.bulkOutEndpointAddress == LastBulk(endpoints, false)
  {
    usb.bulkInEndpointAddress := 0;
    usb.bulkOutEndpointAddress := 0;
    var e: nat := 0;
    while e < |endpoints|
      invariant e <= |endpoints|
      invariant usb.bulkInEndpointAddress == LastBulk(endpoints[..e], true)
      invariant usb.bulkOutEndpointAddress == LastBulk(endpoints[..e], false)
    {
      var ep := endpoints[e];
      if ep.attributes & 0x03 == 0x02 {
        if ep.address & 0x80 == 0x80 {
          usb.bulkInEndpointAddress := ep.address as nat;
        } else {
          usb.bulkOutEndpointAddress := ep.address as nat;
        }
      }
      assert endpoints[..e + 1][..e] == endpoints[..e];
      e := e + 1;
    }
    assert endpoints[..e] == endpoints;
  }

  /** The writes of `ftdiGPIO` still to come from the text `s` on, after
      those already `done`. */
  function Continuing(done: seq<seq<byte>>, plan: GpioPlan): GpioPlan {
    GpioPlan(done + plan.writes, plan.ok)
  }

  /** `ftdiGPIO` (ftdiJTAG.c:444-477) for the `-g` argument: one
      three-byte transfer per value, in order, and success only when the
      whole argument is read, as `Gpio` says. */
  method FtdiGpio(usb: UsbInfo) returns (ok: bool)
    requires usb.Valid() && usb.gpioArgument.Some?
    modifies usb.ioBuf, usb`sent
    ensures usb.Valid()
    ensures ok == Gpio(usb.gpioArgument.value).ok
    ensures usb.sent == old(usb.sent) + Gpio(usb.gpioArgument.value).writes
  {
    var str := usb.gpioArgument.value;
    usb.ioBuf[0] := SET_LOW_BYTE;
    var (direction, d) := StrToL(str);
    if !(d != 0 && d < |str| && str[d] == ':') {
      return false;
    }
    ok := GpioLoop(usb, direction, str[d + 1 ..]);
  }

  /** The loop of `ftdiGPIO` (ftdiJTAG.c:452-474) over the values that
      follow the direction. */
  method GpioLoop(usb: UsbInfo, direction: nat, values: seq<char>) returns (ok: bool)
    requires usb.Valid() && usb.ioBuf[0] == SET_LOW_BYTE
    modifies usb.ioBuf, usb`sent
    ensures usb.Valid()
    ensures ok == GpioValues(direction, values).ok
    ensures usb.sent == old(usb.sent) + GpioValues(direction, values).writes
  {
    var s := values;
    ghost var done: seq<seq<byte>> := [];
    while true
      invariant usb.Valid() && usb.ioBuf[0] == SET_LOW_BYTE
      invariant Continuing(done, GpioValues(direction, s)) == GpioValues(direction, values)
      invariant usb.sent == old(usb.sent) + done
      decreases |s|
    {
      var (value, n) := StrToL(s);
      if n == 0 || (n < |s| && s[n] != ':') {
        return false;
      }
      if direction > 0xF || value > 0xF {
        return false;
      }
      var w := GpioWrite(direction, value);
      WritePins(usb, w);
      if n == |s| {
        GpioLast(direction, s, value, done, w);
        return true;
      }
      var rest := s[n + 1 ..];
      GpioStep(direction, s, value, n, rest, done, w);
      done := done + [w];
      s := rest;
    }
  }

  /** One transfer of `ftdiGPIO` (ftdiJTAG.c:467-470): the two bytes after
      the command byte already in place, then the three bytes sent. */
  method WritePins(usb: UsbInfo, w: seq<byte>)
    requires usb.Valid() && |w| == 3 && usb.ioBuf[0] == w[0]
    modifies usb.ioBuf, usb`sent
    ensures usb.Valid() && usb.ioBuf[0] == w[0]
    ensures usb.sent == old(usb.sent) + [w]
  {
    usb.ioBuf[1] := w[1];
    usb.ioBuf[2] := w[2];
    assert usb.ioBuf[..3] == w;
    UsbWriteData(usb, 3);
  }

  /** The last value of `ftdiGPIO` written: the plan from `s` on is that
      write, and success. */
  lemma GpioLast(direction: nat, s: seq<char>, value: nat, done: seq<seq<byte>>, w: seq<byte>)
    requires direction <= 0xF && value <= 0xF
    requires StrToL(s) == (value, |s|) && s != []
    requires w == GpioWrite(direction, value)
    ensures Continuing(done, GpioValues(direction, s)) == GpioPlan(done + [w], true)
  {
  }

  /** A value of `ftdiGPIO` written before a ':': the plan from `s` on is
      that write and then the plan for the text after the ':'. */
  lemma GpioStep(direction: nat, s: seq<char>, value: nat, n: nat, rest: seq<char>,
                 done: seq<seq<byte>>, w: seq<byte>)
    requires direction <= 0xF && value <= 0xF
    requires StrToL(s) == (value, n) && 0 < n < |s| && s[n] == ':' && rest == s[n + 1 ..]
    requires w == GpioWrite(direction, value)
    ensures Continuing(done, GpioValues(direction, s)) == Continuing(done + [w], GpioValues(direction, rest))
  {
  }
}
