# ftdiJTAG: an XVC server over FTDI MPSSE, modelled in Dafny

`ftdiJTAG.c` is a Xilinx Virtual Cable (XVC 1.0) server. A client on a TCP
connection sends `getinfo:`, `settck:<period>` and `shift:<nBits><tms><tdi>`
frames. The server answers them by driving a JTAG chain through an FTDI chip
in MPSSE mode over USB bulk transfers. This project models the logic between
the socket and libusb and proves what it does:

- **MPSSE encoding (`shiftChunk`, `cmdByte`).** The TMS and TDI bit streams are
  cut into groups. Each group is up to six TMS bits that share one TDI level,
  followed by a run of TDI bits that share one TMS level. Each group is queued
  as command 0x6B and then 0x39/0x3B commands (section 3 of FTDI AN_108). One
  bit count per reading command is recorded, and the answer is unpacked into
  the TDO buffer. Module `Mpsse` holds the pure encoder, a reference engine
  `Run` that says what the chip clocks and answers, and the decoder. Modules
  `Chunk` and `Transfer` hold the cursor loops of `shiftChunk` as methods on
  the `UsbInfo` object, over its arrays. They are proved equal to the pure
  functions.
- **Shift framing (`shift`).** The 32-bit bit count, the 2048-byte cap, the two
  payload reads and the pieces of at most 1000 bytes. See `Xvc.ShiftCommand`
  and `Xvc.ShiftFrom`, and the methods `Server.Shift` and `Server.ShiftPieces`.
- **Command interpreter (`processCommands`, `matchInput`, `fetch32`, `reply32`,
  `reply`).** `Xvc.Step` and `Xvc.Serve` are the session as functions.
  `Server.ProcessCommand` and `Server.ProcessCommands` run it imperatively on a
  `Client` object whose input and replies are byte sequences.
- **Clock (`divisorForFrequency`, `ftdiSetClockSpeed`).** Module `Clock`, and
  the method `Server.FtdiSetClockSpeed`.
- **USB reads (`usbReadData`).** Module `UsbRead` reassembles packets, dropping
  two status bytes from each. `Usb.UsbReadData` is the copy loop.
- **Start-up parsers and selectors (`deviceConfig`, `ftdiGPIO`,
  `getDeviceString`, `getEndpoints`).** Module `Parsers` holds them as functions
  with round-trip lemmas. Module `Setup` holds them as methods that fill in
  `UsbInfo`.

USB and socket traffic become values:
- Bulk OUT transfers are appended to `UsbInfo.sent`.
- Bulk IN packets are taken from `UsbInfo.packets`. When they run out, the read
  fails, as a libusb timeout does.
- The client's bytes are `Client.input`, and the server's answers are appended
  to `Client.replies`.
- String and endpoint descriptors are parameters.

The server in `ftdiJTAG.c` implements XVC; the client's frames
(`readJTAG.py:37-40`) appear as examples.

Files: `wrappers.dfy` (Option), `bits.dfy`, `mpsse.dfy`, `clock.dfy`,
`usbread.dfy`, `parsers.dfy`, `usb.dfy` (the `UsbInfo` class, `cmdByte`, USB
transfers), `chunk.dfy`, `transfer.dfy`, `framing.dfy`, `xvc.dfy`,
`server.dfy`, `setup.dfy`.

## Model

| member | source | states |
|---|---|---|
| Bits.PackedBit | ftdiJTAG.c:546-563 | bit i of a packed bit stream is bit i % 8 of byte i / 8, which is the LSB-first order of the `iBit`/`iIndex` cursor; bits past the end read as 0 |
| Bits.PackUnpacked | ftdiJTAG.c:586-611 | packing the bits of a byte sequence gives the bytes back |
| Bits.UnpackPack | ftdiJTAG.c:586-611 | unpacking packed bits gives the bits back, then zero padding |
| Bits.PackAppend | ftdiJTAG.c:619-636 | packing a whole number of bytes of bits and then more bits is packing the two parts one after the other |
| Mpsse.GroupAt | ftdiJTAG.c:546-611 | the group `shiftChunk`'s outer loop cuts at bit p is well formed (1 to 6 TMS bits) and lies inside the piece; `GroupAtFacts` and `GroupClocks` state where it stops and what it clocks |
| Mpsse.GroupAtFacts | ftdiJTAG.c:546-611 | the group cut at bit p: its TMS bits are the next 1..6 bits, all with the TDI level of bit p, stopping at 6 bits, at the end, or where TDI changes; its run is the TDI bits that follow while TMS keeps its last value, stopping at the end or at a TMS change |
| Mpsse.GroupClocks | ftdiJTAG.c:546-611 | the TMS and TDI bits a group clocks are exactly bits p .. p + size of the input streams |
| Mpsse.Cover | ftdiJTAG.c:542-638 | the groups from bit p on clock exactly the TMS and TDI bits from p on, in order, so the clocked bits total nBits |
| Mpsse.CountsCover | ftdiJTAG.c:579-618 | the bit counts recorded for a piece add up to its length |
| Mpsse.TmsCommand | ftdiJTAG.c:565-570 | the TMS command is three bytes: 0x6B, then the group's TMS bit count minus one, at most 6 bits; `TmsCommandForm` states its data byte |
| Mpsse.TdiCommands | ftdiJTAG.c:616-636 | an empty TDI run queues nothing, a non-empty one at least one 3-byte header that starts with 0x39 or 0x3B; `TdiCommandsLength` gives its length and `RunTdi` what it clocks |
| Mpsse.ChunkCommands | ftdiJTAG.c:536-638 | the stream `shiftChunk` queues starts with 0x84 when loopback is on, then with a TMS command when the piece has any bits, and is the loopback command alone otherwise; `RunChunk` states what the engine does with it |
| Mpsse.Counts | ftdiJTAG.c:579-618 | each group records one or two `rxBitcounts` entries; `CountsCover` states that they sum to the piece length |
| Mpsse.Run | ftdiJTAG.c:524-675 | the reference MPSSE engine: a stream it carries out clocks exactly as many TMS and TDI bits as TDO bits it is given; `RunTms`, `RunBytes`, `RunBits` and `RunChunk` state what each command does |
| Mpsse.TmsCommandForm | ftdiJTAG.c:565-578 | a TMS command is 0x6B, n - 1, data: data bits 0..n-1 are the group's TMS bits in order, bit n repeats the last one, bits n+1..6 are 0, bit 7 is the TDI level |
| Mpsse.TmsDataBit | ftdiJTAG.c:570-578 | each bit of the TMS data byte, position by position |
| Mpsse.RunTms | ftdiJTAG.c:565-578 | the chip clocks a TMS command as n TMS bits all with the one TDI level, answers one byte whose top n bits are the sampled TDO bits, and then leaves the TMS pin at data bit n, which the encoder sets to the last TMS bit, so TMS holds for the TDI commands that follow |
| Mpsse.RunBytes | ftdiJTAG.c:619-629 | the chip clocks a 0x39 command as 8k TDI bits with TMS held, and answers the k packed TDO bytes |
| Mpsse.RunBits | ftdiJTAG.c:631-636 | the chip clocks a 0x3B command as r < 8 TDI bits with TMS held, and answers one byte holding the r sampled bits at its top |
| Mpsse.RunTdi | ftdiJTAG.c:616-636 | the commands of a TDI run clock the run with TMS held and answer its response entry |
| Mpsse.RunCommands | ftdiJTAG.c:542-638 | the commands of any list of well-formed groups clock their TMS and TDI bits in order and answer one entry per recorded count |
| Mpsse.RunChunk | ftdiJTAG.c:537-638 | the whole command stream of a piece, with 0x84 first in loopback mode, clocks exactly the piece's TMS and TDI bits; the answer carries the TDI bits in loopback mode and the sampled TDO bits otherwise |
| Mpsse.TdiCommandsLength | ftdiJTAG.c:616-636 | a TDI run takes 3 + k bytes for k whole bytes and 3 more for leftover bits |
| Mpsse.Unpack | ftdiJTAG.c:643-673 | decoding the answer gives one TDO bit per recorded bit; `UnpackRespond` states that it gives back the answered bits |
| Mpsse.EntryRoundTrip | ftdiJTAG.c:644-672 | a response entry has one byte per whole 8 bits plus one for leftover bits, and decoding it gives back its bits, a partial byte from its top bits |
| Mpsse.UnpackRespond | ftdiJTAG.c:643-673 | decoding the answer to recorded counts gives back the bits answered, and the answer has rxWanted bytes: one per TMS command, per whole TDI byte and per TDI tail |
| Mpsse.ChunkReadBack | ftdiJTAG.c:524-675 | the engine's answer to a piece's commands has the expected length and decodes to the TDI bits in loopback mode and to the sampled TDO bits otherwise |
| Mpsse.EntriesBound | ftdiJTAG.c:535-636 | from any buffer state with 3 queued bytes per entry, `shiftChunk` records at most USB_BUFSIZE / 3 + 1 entries before it queues everything or stops on a full buffer |
| Mpsse.RxCountsOverrun | ftdiJTAG.c:535-618 | for 667 alternating one-bit TMS and TDI groups, the recorded entries number one more than the 1333 slots of `rxBitcounts` |
| Clock.DivisorForFrequency | ftdiJTAG.c:402-417 | `divisorForFrequency` as written, with zero taken as 1 and the 32-bit wrapping sum at :410, stays within 1..0x10000; `DivisorCorrect` and `WrappedQuotient` state which divisor it picks |
| Clock.DivisorCorrect | ftdiJTAG.c:402-417 | for every 32-bit frequency, with 0 taken as 1, the divisor is the least d with 30 MHz / d <= f, clamped to 1..0x10000, even when the sum at line 410 wraps |
| Clock.DivisorUnique | ftdiJTAG.c:402-417 | only one divisor meets that definition |
| Clock.WrappedQuotient | ftdiJTAG.c:410 | when the rounding-up sum wraps modulo 2^32, the wrapped quotient is 0, which the clamp turns into 1 |
| Clock.EffectiveFrequency | ftdiJTAG.c:433-435 | a non-zero `lockedSpeed` replaces the requested frequency |
| Clock.ClockCommand | ftdiJTAG.c:436-440 | the clock command is four bytes, 0x8A then 0x86 first |
| Clock.ClockCommandDivisor | ftdiJTAG.c:429-442 | bytes 2 and 3 of the clock command, little-endian, plus 1 are the right divisor for the effective frequency |
| UsbRead.Payload | ftdiJTAG.c:383-389 | a packet of 2 bytes or fewer carries no data; a longer one carries all but its 2 status bytes |
| UsbRead.Reassemble | ftdiJTAG.c:369-398 | the copy loop of `usbReadData` yields exactly nWant bytes and uses no more packets than it receives; `ReassembleCorrect` states which bytes and when it fails |
| UsbRead.ReassembleCorrect | ftdiJTAG.c:369-398 | the read fails exactly when all packets carry fewer than nWant data bytes; otherwise it stores the first nWant data bytes of the packets it takes, drops the surplus of the last one, and takes no packet more than needed |
| Usb.UsbReadData | ftdiJTAG.c:369-398 | the copy loop stores in `rxBuf` what `Reassemble` says and consumes the packets it used; it fails when they run out |
| Usb.CmdByte | ftdiJTAG.c:509-517 | appends one byte to the queued bytes when the buffer holds fewer than 4000, and otherwise stops (exit 4) with nothing queued |
| Usb.UsbWriteData | ftdiJTAG.c:348-367 | the first nSend bytes of `ioBuf` go out as one transfer, and nothing goes out for nSend = 0 |
| Usb.ConcatTransfers | ftdiJTAG.c:356-365 | the transfers made for some bytes carry exactly those bytes, one transfer when there are any and none otherwise |
| Usb.AddBits | ftdiJTAG.c:691 | `bitCount += nBits` on a `uint64_t` is the sum when it fits and the sum less 2^64 when it overflows |
| Usb.UsbInfo.constructor | ftdiJTAG.c:1014-1018 | the start-up state: vendor 0x0403, product 0x6011, no serial number, zeroed counters, nothing queued or sent |
| Usb.Tick | ftdiJTAG.c:537 | an unsigned 32-bit `++` gives the next value, and 0 after the largest |
| Chunk.StashTms | ftdiJTAG.c:546-563 | the do-while loop stashes exactly the group's TMS bits, packed LSB-first, and ends with the cursor after them |
| Chunk.SendTms | ftdiJTAG.c:565-581 | queues the group's TMS command, records its count, wants one byte more, and takes the held TMS level from the last bit; it fails only on a full buffer |
| Chunk.StashTdi | ftdiJTAG.c:583-611 | the TDI loop stashes the maximal run where TMS keeps `tmsState`, packed into `cmdBuf`, and moves the cursor past it |
| Chunk.QueueBytes | ftdiJTAG.c:627-629 | the first n bytes of `cmdBuf` are appended, or the buffer overflows |
| Chunk.SendTdiBytes | ftdiJTAG.c:619-629 | queues 0x39, the count - 1 as two little-endian bytes, and the packed whole bytes |
| Chunk.SendTdiBits | ftdiJTAG.c:631-636 | queues 0x3B, r - 1, and the byte holding the r leftover bits |
| Chunk.SendTdi | ftdiJTAG.c:616-636 | queues exactly the run's commands and adds one wanted byte per whole byte and one for leftover bits |
| Chunk.SendRun | ftdiJTAG.c:612-637 | records the run's count and queues its commands |
| Chunk.ShiftTms | ftdiJTAG.c:545-581 | the TMS half of a group: the command of `GroupAt` is queued and its count recorded |
| Chunk.ShiftRun | ftdiJTAG.c:583-637 | the TDI half of a group: the run's commands are queued, with counts and wanted bytes as `RunCounts` and `RunWanted` say |
| Chunk.ShiftGroup | ftdiJTAG.c:541-638 | one pass of the outer loop queues the group's commands, records its counts and moves the cursor past it, or fails on a full buffer |
| Transfer.QueueGroups | ftdiJTAG.c:542-638 | the outer loop queues `Commands(Groups(tms, tdi))`, records `Counts` in `rxBitcounts` and sets `rxWanted` to their answer length; it fails exactly when the commands do not fit |
| Transfer.QueueChunk | ftdiJTAG.c:536-638 | the chunk counter ticks, the buffer is emptied and the piece's whole command stream is queued, 0x84 first in loopback mode |
| Transfer.PutTdoBit | ftdiJTAG.c:651-671 | storing one TDO bit extends the decoded stream by that bit at the TDO cursor and moves the cursor; every byte outside those begun keeps its value (a byte is cleared when its first bit is stored, where line 667 clears it ahead: `TdoClearsAsWritten`) |
| Transfer.CursorStep | ftdiJTAG.c:646-660 | the `rxBit` cursor starts at the top bits of a partial byte and moves to the next byte after bit 7 |
| Transfer.DecodeEntry | ftdiJTAG.c:645-672 | the inner loop stores the bits of one entry's response bytes at the TDO cursor |
| Transfer.DecodeTdo | ftdiJTAG.c:643-673 | the bytes written from `base` on are the packed TDO stream decoded from the answer, and no other byte of the piece's span changes |
| Transfer.Transact | ftdiJTAG.c:639-673 | the queued commands are sent as one transfer (none when nothing is queued), rxWanted bytes are read and decoded, or the read fails |
| Transfer.ShiftChunk | ftdiJTAG.c:524-675 | `shiftChunk` on a piece: overflow with nothing sent, or the command stream sent and the answer read and decoded, as `ChunkEffect` says |
| Transfer.ChunkRoundTrip | ftdiJTAG.c:524-675 | when the chip answers the bytes the call sent as the engine does, the chunk succeeds, the chip clocks exactly the piece's TMS and TDI bits, and the TDO span holds the TDI bits in loopback mode and the sampled TDO bits otherwise |
| Transfer.TdoClearsAsWritten | ftdiJTAG.c:643-668 | as written, decoding nBits bits clears bytes base .. base + nBits / 8 |
| Transfer.TdoClearsPastPiece | ftdiJTAG.c:643-668 | a byte past the decoded piece is cleared exactly when nBits is a multiple of 8 |
| Transfer.TdoOverrun | ftdiJTAG.c:664-668 | the last piece of a 16384-bit shift makes the source clear byte 2048 of the 2048-byte TDO buffer |
| Framing.Fetch32 | ftdiJTAG.c:199-215 | the value of four little-endian bytes is below 2^32 and the rest of the input follows them |
| Framing.LeRoundTrip | ftdiJTAG.c:772-783 | `fetch32` reads back the value `reply32` writes |
| Framing.LeBytesOfValue | ftdiJTAG.c:795-808 | writing the value read from four bytes gives the same four bytes, so `settck:` echoes its period exactly |
| Framing.LeValueBound | ftdiJTAG.c:199-215 | n bytes hold a value below 256^n |
| Framing.Consumed | ftdiJTAG.c:741-757 | `matchInput` reads at most the word's length and at most the input |
| Framing.ConsumedMatch | ftdiJTAG.c:741-757 | when the input starts with the word, `matchInput` reads exactly the word |
| Framing.InfoText | ftdiJTAG.c:839 | the `getinfo:` answer for 2048-byte buffers is "xvcServer_v1.0:2048\n" |
| Xvc.PieceBytes | ftdiJTAG.c:710-714 | a piece takes at most 1000 bytes, never a byte more than the bits left need, and all of them unless it is a whole 1000-byte piece |
| Xvc.PieceBits | ftdiJTAG.c:715-718 | a piece clocks all the bits left or, when more are left, exactly 8000 |
| Xvc.ChunkAfter | ftdiJTAG.c:524-675 | a piece leaves the TDO buffer's length unchanged and ticks the chunk counter |
| Xvc.ShiftFrom | ftdiJTAG.c:708-726 | the piece loop keeps the TDO buffer's length and the counter in range |
| Xvc.ShiftFromStep | ftdiJTAG.c:708-726 | a piece that is not `Shifted` ends the loop with its outcome; a shifted one leaves the rest to the next piece, with the cursors one piece on |
| Xvc.LargestShiftPieces | ftdiJTAG.c:708-726 | 16384 bits go out as pieces of 8000, 8000 and 384 bits, and the last one clears byte 2048 |
| Xvc.ShiftBytesAsWritten | ftdiJTAG.c:693 | the 32-bit `(nBits + 7) / 8` is ceil(nBits/8) except for the seven largest counts, where it wraps to 0 |
| Xvc.ShiftBytesAgree | ftdiJTAG.c:693 | below 2^32 - 7 the wrapped `(nBits + 7) / 8` is ceil(nBits / 8) |
| Xvc.ShiftSizeWraps | ftdiJTAG.c:693-726 | for the 7 largest counts the wrapped byte count is 0, every piece has 0 bits, and the true count exceeds 2048 bytes |
| Xvc.ShiftCommand | ftdiJTAG.c:680-736 | `shift` after its keyword keeps the buffer sizes and counter widths, reads only input and returns at most 2048; `ShiftCommandCases` and `ShiftAnswer` state the short-count case and the answer |
| Xvc.Counted | ftdiJTAG.c:691-692 | the two counters `shift` keeps: one more shift wrapping at 2^32 and nBits more bits in 64 bits; the buffers and the link are unchanged |
| Xvc.ShiftCounted | ftdiJTAG.c:693-736 | after the count, `shift` keeps the counters, reads only input, and returns at most 2048 |
| Xvc.ShiftLoaded | ftdiJTAG.c:708-735 | once the payloads are read, only the USB link and TDO buffer change |
| Xvc.ShiftCountedAnswer | ftdiJTAG.c:693-736 | a request over 2048 bytes is refused with nothing read; a returned count is ceil(nBits / 8), after reading that many TMS and then TDI bytes into the buffers |
| Xvc.Keywords | ftdiJTAG.c:796-833 | the byte constants spell "settck:", "shift:" and "getinfo:" |
| Xvc.InfoBytes | ftdiJTAG.c:839 | the `getinfo:` reply bytes spell the formatted version text |
| Xvc.Mismatch | ftdiJTAG.c:741-757 | a keyword that does not follow ends the session with no reply and no state change |
| Xvc.TckFrequency | ftdiJTAG.c:803 | 10^9 / period is at most 10^9, and at least 1 for a period up to 10^9 |
| Xvc.TckPeriod | ftdiJTAG.c:803 | that frequency is the largest whose period is not below the requested one |
| Xvc.SetTck | ftdiJTAG.c:795-808 | `settck:` changes neither counters nor buffers, and replies once exactly when it goes on |
| Xvc.ShiftReply | ftdiJTAG.c:810-818 | `shift:` replies once exactly when it goes on |
| Xvc.GetInfo | ftdiJTAG.c:830-843 | `getinfo:` changes nothing, and replies once exactly when it goes on |
| Xvc.Step | ftdiJTAG.c:792-856 | a command reads only input, consumes some when it goes on, and replies once exactly when it goes on |
| Xvc.GetInfoAnswer | ftdiJTAG.c:830-843 | `getinfo:` is answered with "xvcServer_v1.0:2048\n" and nothing else changes |
| Xvc.SetTckAnswer | ftdiJTAG.c:795-808 | `settck:` with a non-zero period sends the clock command for 10^9 / period Hz and echoes the four period bytes |
| Xvc.SettckZeroPeriod | ftdiJTAG.c:801-803 | a zero period reaches the division with a zero divisor; the model ends the session with no reply |
| Xvc.ShiftAnswer | ftdiJTAG.c:810-818 | `shift:` ticks `shiftCount` and adds nBits to `bitCount` with 64-bit wrap-around; over 2048 bytes it ends the session; when it goes on, the reply is the first ceil(nBits / 8) TDO bytes, after that many TMS and then TDI bytes |
| Xvc.OneByteFrame | ftdiJTAG.c:686-736 | a `shift:` of 1 to 8 bits counts them and, when it goes on, gets one TDO byte, with its TMS and TDI bytes at the start of the buffers and nothing more of the input read |
| Xvc.ResetTapFrame | readJTAG.py:38 | the client's reset frame (6 bits, TMS 0x1F, TDI 0x3F) counts 6 bits and, when it goes on, gets one TDO byte with the payload at the start of the buffers |
| Xvc.Serve | ftdiJTAG.c:788-857 | a session always ends with a status other than `Continue` |
| Xvc.ServeStep | ftdiJTAG.c:792-856 | the session is the first command's replies followed by the session on the rest of the input, or ends with that command |
| Server.Reply | ftdiJTAG.c:759-767 | the bytes are appended to the replies |
| Server.Fetch32 | ftdiJTAG.c:199-215 | succeeds exactly when four bytes remain, with their little-endian value, and otherwise reads everything and fails |
| Server.Reply32 | ftdiJTAG.c:772-783 | replies with the value's four bytes, least significant first |
| Server.MatchInput | ftdiJTAG.c:741-757 | succeeds exactly when the input starts with the word, having read `Consumed` bytes |
| Server.Fread | ftdiJTAG.c:701-702 | reads min(n, available) bytes to the start of the buffer |
| Server.CommandBytes | ftdiJTAG.c:436-440 | the stored bytes are the clock command |
| Server.FtdiSetClockSpeed | ftdiJTAG.c:429-442 | stores and sends the clock command for the effective frequency, leaving the rest of `ioBuf` alone |
| Server.ShiftPiece | ftdiJTAG.c:719 | a `shiftChunk` call does what `ChunkAfter` says |
| Server.ShiftPieces | ftdiJTAG.c:708-726 | the piece loop does what `ShiftFrom` says |
| Server.Shift | ftdiJTAG.c:680-736 | `shift` does what `ShiftCommand` says to the counters, buffers, link and input |
| Server.ShiftPayload | ftdiJTAG.c:693-735 | the rest of `shift` does what `ShiftCounted` says |
| Server.SetTckCommand | ftdiJTAG.c:795-808 | `settck:` does what `SetTck` says |
| Server.ShiftReplyCommand | ftdiJTAG.c:810-818 | `shift:` does what `ShiftReply` says |
| Server.GetInfoCommand | ftdiJTAG.c:830-843 | `getinfo:` does what `GetInfo` says |
| Server.ProcessCommand | ftdiJTAG.c:792-856 | one pass of the loop does what `Step` says |
| Server.ProcessCommands | ftdiJTAG.c:788-857 | the loop ends with the status, state and replies `Serve` gives for the whole input |
| Parsers.StrToL | ftdiJTAG.c:455-461 | `strtol(.., 16)` as the calls at 455, 458 and 966 use it: `endp` is the end of the hex-digit span; `HexSpanMeaning` and `StrToLHex` state the span and the value |
| Parsers.HexSpanMeaning | ftdiJTAG.c:966 | the parsed span is all hex digits, and what follows it is not one |
| Parsers.StrToLHex | ftdiJTAG.c:966 | parsing the hex spelling of v followed by a non-digit gives v and the spelling's length |
| Parsers.DeviceConfig | ftdiJTAG.c:961-984 | `deviceConfig`'s parse: an accepted argument has both ids at most 0xFFFF; `DeviceConfigRoundTrip` and `DeviceConfigRange` state what it accepts |
| Parsers.ProductPart | ftdiJTAG.c:967-979 | the part after the vendor's ':' accepts only ids at most 0xFFFF |
| Parsers.DeviceConfigRoundTrip | ftdiJTAG.c:961-984 | `vendor:product[:serial]` in hex with ids up to 0xFFFF parses back to the same ids and serial |
| Parsers.DeviceConfigRange | ftdiJTAG.c:971-974 | an id above 0xFFFF is refused |
| Parsers.GpioWrite | ftdiJTAG.c:464-466 | a GPIO write is 0x80, value * 16 + 0x08, direction * 16 + 0x0B |
| Parsers.GpioValues | ftdiJTAG.c:455-474 | the value loop of `ftdiGPIO` makes at most one 3-byte 0x80 write per character, and succeeds only after at least one write |
| Parsers.Gpio | ftdiJTAG.c:444-477 | `ftdiGPIO`'s writes are 3-byte 0x80 commands, fewer than the argument's characters, and success needs at least one; `GpioRoundTrip` and `GpioDirectionRange` state which |
| Parsers.GpioRoundTrip | ftdiJTAG.c:444-477 | `direction:value[:value...]` with fields up to 0xF makes one write per value, in order, and succeeds |
| Parsers.GpioDirectionRange | ftdiJTAG.c:461-463 | a direction above 0xF makes no write and fails |
| Parsers.DeviceString | ftdiJTAG.c:218-233 | an unreadable descriptor gives "", a readable one its first 99 characters at most |
| Parsers.LastBulkMeaning | ftdiJTAG.c:246-266 | the address kept is that of the last bulk endpoint of the direction, and 0 when there is none |
| Setup.DeviceConfigure | ftdiJTAG.c:961-984 | sets the ids, and the serial when one follows, exactly when the argument parses; otherwise (exit 2) nothing changes |
| Setup.GetDeviceString | ftdiJTAG.c:218-233 | copies the descriptor as `DeviceString` says, under 100 characters |
| Setup.GetDeviceStrings | ftdiJTAG.c:235-241 | the three strings are set from their descriptors |
| Setup.GetEndpoints | ftdiJTAG.c:246-266 | the loop leaves the last bulk IN and last bulk OUT addresses, 0 for a missing one |
| Setup.GpioLoop | ftdiJTAG.c:452-474 | the loop sends the writes `GpioValues` lists and succeeds exactly when it does |
| Setup.FtdiGpio | ftdiJTAG.c:444-477 | `ftdiGPIO` sends exactly the writes `Gpio` lists, in order, and succeeds exactly when the whole argument is read |
| Setup.WritePins | ftdiJTAG.c:464-467 | the two pin bytes follow 0x80 and the three bytes go out as one transfer |

## Left out

- Sockets and process plumbing (`createSocket`, `main`'s accept loop, `usage`,
  `convertInt`) are left out. The client's bytes are a sequence. Every `reply`
  write succeeds: a failing socket write is not modelled.
- libusb discovery and set-up (`findDevice`, `connectUSB`, `usbControl`,
  `ftdiInit`) are left out because they are foreign calls. Descriptors and
  endpoint lists are parameters.
- Usb.UsbWriteData: a failing bulk OUT transfer is not modelled, so every
  write succeeds. A partial write is sent as one transfer.
- Usb.UsbReadData: the source receives each packet into `ioBuf`, over the
  commands it has just sent. The model takes the packets without writing to
  `ioBuf`. Every `shiftChunk` queues from the start of `ioBuf` again, so no
  modelled step reads the overwritten bytes.
- Server.FtdiSetClockSpeed: always succeeds, because `UsbWriteData` does.
- Setup.FtdiGpio: the 100 ms `nanosleep` between writes is left out because it
  is timing only.
- Floating point is left out: the accuracy and slow-clock warnings of
  `divisorForFrequency`, and `clockSpeed`'s `strtod`.
- Console output is left out: `showBuf`, the `-x`/`-u` traces, the
  "Loopback failed." message of `shift` (its `memcmp` has no other effect),
  statistics, and the messages printed before each exit.
- Parsers.StrToL: `strtol` is modelled as a plain hex-digit parser. Leading
  white space, a sign, a `0x` prefix and saturation at LONG_MAX are not
  modelled.
- Framing.Fetch32: `c << i` at line 211 shifts a signed `int`. For a byte of
  128 or more at i = 24 that is undefined in C. The model takes the intended
  unsigned value.
- Xvc.SetTck: a zero period divides by zero at line 803, which is undefined.
  The model ends the session there without a reply (see Findings). The
  source does not end it cleanly: on common platforms the process dies of
  the arithmetic fault, so no later client is served, whereas the model's
  `Close` lets the loop in `main` accept the next one.
- Transfer.ShiftChunk: the decoder writes only the bytes of the piece. The
  extra cleared byte of line 667 is modelled separately, as
  `Transfer.TdoClearsAsWritten` (see Findings).
- Transfer.ChunkRoundTrip: the loopback promise (TDO equals TDI) is proved
  for each piece `shiftChunk` sends. It is not restated for a whole `shift`
  spread over several pieces.
- The `rxBitcounts` array is modelled with USB_BUFSIZE / 3 + 1 entries, the
  corrected size (see Findings). Its elements are `nat`; the source's
  `unsigned short` holds every count that occurs (at most 8000).

## Findings

| source | as written | input that shows it | evidently intended | confidence | as-written member | corrected member |
|---|---|---|---|---|---|---|
| ftdiJTAG.c:618 | `rxBitcounts` has USB_BUFSIZE / 3 = 1333 entries. A TDI entry is recorded before any of its bytes are queued, so one more entry is written before `cmdByte` stops the program | a piece of 667 groups, each one TMS bit and one TDI bit, with alternating TMS (tms = 1,1,0,0,1,1,…; tdi = 1,0,1,0,…): entry index 1333 is written when 3999 bytes are queued | room for every entry written before the exit, that is 1334 | not executed | Mpsse.RxCountsOverrun | Mpsse.EntriesBound |
| ftdiJTAG.c:693 | `(nBits + 7) / 8` is computed in 32 bits and wraps | `shift:` with nBits = 0xFFFFFFF9 .. 0xFFFFFFFF: nBytes is 0, passes the 2048 check, and every piece has 0 bits, so the loop never ends | ceil(nBits / 8), which is above 2048, so the request is refused | not executed | Xvc.ShiftSizeWraps | Xvc.ShiftCountedAnswer |
| ftdiJTAG.c:664-668 | after each completed TDO byte the next byte is cleared, including after the last bit | a 16384-bit `shift:` (2048 bytes): the last piece, 384 bits at byte 2000, clears `tdoBuf[2048]`, one past the buffer | clear only bytes the piece fills | not executed | Transfer.TdoOverrun | Transfer.DecodeTdo |
| ftdiJTAG.c:803 | `1000000000 / num` with the client's `num` | `settck:` followed by four zero bytes | refuse a zero period | not executed | Xvc.TckFrequency | Xvc.SettckZeroPeriod |
