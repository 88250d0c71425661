# hidmsr in Dafny

This project models the two parts of `hidmsr` that do computation:

- **The magnetic-stripe track decoder** (`hidmsr/convert.py`). A hex dump
  of a track becomes a string of '0'/'1' characters (`hex_to_bin`). That
  bit string is cut into frames, 7 bits wide for tracks 1 and 3
  (`decode_sixdec`) or 5 bits wide for track 2 (`decode_aba`). The last bit
  of each frame is a parity bit; a frame whose '1' count is even gets a
  warning, but decoding goes on. The other bits are read least significant
  bit first and index the 64-character SIXDEC alphabet or the 16-character
  ABA alphabet. The last decoded character is dropped.
- **Report framing and response buffering of the MSR605X reader**
  (`hidmsr/commands.py`).
  - Outbound, a command is zero-padded to 64 bytes (`_extend_command`).
    It then goes into a `c_ubyte` report behind the interface byte 0x00
    (`_create_report_data`, called from `__send_command`).
  - Inbound, `_data_handler` strips the report ID from each chunk and
    appends the chunk to the device's `_responses` buffer.
  - `_send_command_wait` clears the buffer, sends, waits for replies, then
    copies the buffer out and clears it. `_send_command_nowait` only sends.
  - The public commands send fixed byte strings through these two.
  - `_decode_hex` turns a list of hex strings back into integers.

Modules:

- `Results` (results.dfy): `Option` and `Result`.
- `Hex` (hex.dfy): `int(c, 16)` on a string and the `"{:02X}"` format.
- `Convert` (convert.dfy): the decoder.
- `ConvertExamples` (worked_examples.dfy): two worked decodings.
- `Commands` (commands.dfy): the report layer and the `MsrDevice` class.

How the model is built:

- The decoding loop is the method `Convert.Decode`. It is proved equal to
  the function `Convert.DecodeSpec`, and the properties are proved about
  that function.
- The device is a class. `active` stands for `self._dev.is_active()`,
  `responses` is `self._responses`, and `sent` records every report passed
  to `send_feature_report`.
- Python exceptions become `Err` values or outcome values:
  - `int(x, 2)` on a frame whose data bits are not all '0'/'1';
  - `int(ch, 16)` on a character that is not a hex digit;
  - `_create_report_data` with a length that leaves no room for the data;
  - `__send_command` on an inactive device.

Behaviour worth noting. In each case the model follows the code as written:

- `_send_command_wait` ends in `finally: ... return responses`. That
  `return` discards the RuntimeError that `__send_command` raises for an
  inactive device. The method returns `[]` instead of failing, and nothing
  is sent.
- A KeyboardInterrupt during the wait returns `[]`, not the replies that
  had arrived. The buffer is not cleared, so those chunks stay in
  `_responses` until the next command clears it.
- `_send_command_nowait` has no `return` in its `finally`, so an inactive
  device's RuntimeError reaches the caller. This is `DeviceInactive` in the
  model.
- The parity check of a frame runs before its data bits are read, so a
  frame whose data bits are not all '0'/'1' still has its parity warning
  printed. Then `int(..., 2)` raises a ValueError that ends the decoding.
- Parity warnings are printed as the loop runs. The model returns them as
  one flag per frame, including the flag of the dropped last character.

## Model

| member | source | states |
|---|---|---|
| Hex.ParseHex | hidmsr/commands.py:58 | `int(c, 16)` succeeds exactly on a non-empty string of hex digits, and n digits give a value below 16^n |
| Hex.ParseHexDigit | hidmsr/commands.py:58 | a single hex digit parses to its own value, upper or lower case |
| Hex.ParseHexSnoc | hidmsr/commands.py:58 | appending a digit shifts the parsed value one hex place left and adds that digit |
| Hex.ParseFormatByte | hidmsr/commands.py:64 | a byte formatted as `"{:02X}"` parses back with `int(c, 16)` to the same byte |
| Convert.AlphabetSize | hidmsr/convert.py:20-21 | each alphabet has exactly one character per value of the data bits (64 and 16) |
| Convert.SixdecIsAsciiRun | hidmsr/convert.py:20 | SIXDEC_CHARS is the 64 ASCII characters 0x20..0x5F in order |
| Convert.AbaIsAsciiRun | hidmsr/convert.py:21 | ABA_CHARS is the 16 characters '0'..'?' in order |
| Convert.BinaryValue | hidmsr/convert.py:44 | `int(s, 2)` of n binary digits is below 2^n |
| Convert.LsbFirstValue | hidmsr/convert.py:44 | the value of n bits read least significant first is below 2^n |
| Convert.ReversedValue | hidmsr/convert.py:44 | `int(s[::-1], 2)` equals the value of `s` read least significant bit first |
| Convert.NibbleValue | hidmsr/convert.py:25 | the four digits `'{:04b}'` writes for v < 16 read back as v |
| Convert.NibbleOfValue | hidmsr/convert.py:25 | any four binary digits are reproduced by `'{:04b}'` of their value |
| Convert.HexToBin | hidmsr/convert.py:23-26 | the output is a '0'/'1' string four times as long as the input; an error points at a character that is not a hex digit |
| Convert.HexToBinFails | hidmsr/convert.py:23-26 | hex_to_bin fails exactly when some character is not a hex digit, and reports the first such position |
| Convert.HexToBinLayout | hidmsr/convert.py:23-26 | on hex digits the output is binary, 4 bits per digit, and bits 4i..4i+3 are digit i's value most significant bit first |
| Convert.BinToHex | hidmsr/convert.py:23-26 | the inverse direction: one hex digit per four bits |
| Convert.HexToBinOfBinToHex | hidmsr/convert.py:23-26 | hex_to_bin reproduces every bit string of whole nibbles from its hex form |
| Convert.FrameBounds | hidmsr/convert.py:30-33 | every counted frame lies inside the bit string |
| Convert.TrailingBitsIgnored | hidmsr/convert.py:30-33 | bits after the last whole frame are never read: adding fewer than a frame's worth of bits leaves the result unchanged |
| Convert.FrameOrder | hidmsr/convert.py:32-33 | frames are consecutive and do not overlap |
| Convert.FrameAt | hidmsr/convert.py:33 | a frame is 7 (or 5) bits wide |
| Convert.ParityWarning | hidmsr/convert.py:34-42 | a parity character that is neither '0' nor '1' always warns; otherwise the frame warns exactly when the data bits' '1' count plus the parity bit is even |
| Convert.ParityWarningIffEven | hidmsr/convert.py:34-42 | with a '0'/'1' parity bit, the warning is raised exactly when the frame's total '1' count is even, so odd parity is expected |
| Convert.FrameIndex | hidmsr/convert.py:44-45 | the index a frame's data bits give is always inside the alphabet |
| Convert.FrameIndexInRange | hidmsr/convert.py:44-45 | `int(bin_val[::-1], 2)` is that index, so `SIXDEC_CHARS[...]` / `ABA_CHARS[...]` never goes out of range |
| Convert.DecodeFrame | hidmsr/convert.py:33-46 | one loop iteration: the warning flag, a character exactly when the data bits are binary, and that character is the frame's symbol |
| Convert.CollectSnoc | hidmsr/convert.py:46 | a binary frame appends its character and its flag |
| Convert.CollectSnocNone | hidmsr/convert.py:44 | a non-binary frame after binary ones raises with its own index |
| Convert.CollectErrPersists | hidmsr/convert.py:32-46 | once a frame raises, later frames change nothing |
| Convert.CollectOk | hidmsr/convert.py:32-46 | the loop completes exactly when no frame raises |
| Convert.CollectError | hidmsr/convert.py:32-46 | the error names the first frame that raises |
| Convert.CollectShape | hidmsr/convert.py:32-46 | on success, character k and flag k come from frame k, one of each per frame |
| Convert.CollectLengths | hidmsr/convert.py:32-46 | the loop yields one character and one flag per frame, or the index of a frame that exists |
| Convert.FrameSymbols | hidmsr/convert.py:30-32 | there is one frame result per whole frame |
| Convert.CollectNextFrame | hidmsr/convert.py:32-46 | one step of the loop: frame k raises with index k or extends the text and the flags |
| Convert.DropLast | hidmsr/convert.py:49 | `output[:-1]` is the output without its last character, and the empty string stays empty |
| Convert.DecodeSpec | hidmsr/convert.py:28-49 | the decoder returns one flag per frame and one character fewer than there are frames, or names a frame that exists |
| Convert.Decode | hidmsr/convert.py:28-49 | the loop over frames computes the decoder's specification, errors included |
| Convert.DecodeSixdec | hidmsr/convert.py:28-49 | decode_sixdec computes the specification for 7-bit frames, and every character it returns is in ASCII 0x20..0x5F |
| Convert.DecodeAba | hidmsr/convert.py:51-72 | decode_aba computes the specification for 5-bit frames, and every character it returns is in '0'..'?' |
| Convert.FrameSymbolsPresent | hidmsr/convert.py:44 | frame k has a result exactly when its data bits are binary |
| Convert.DecodeFails | hidmsr/convert.py:44 | decoding fails exactly when some frame's data bits are not binary, and then the error names the first such frame |
| Convert.BinaryDecodes | hidmsr/convert.py:44 | a '0'/'1' string, such as hex_to_bin's output, always decodes |
| Convert.DecodeShape | hidmsr/convert.py:30-49 | the text has max(frames - 1, 0) characters, character k is frame k's, and there is one parity flag per frame |
| Convert.ShortInputDecodesEmpty | hidmsr/convert.py:49 | fewer than two whole frames decode to the empty string |
| Convert.EmptyInput | hidmsr/convert.py:30-49 | the empty bit string decodes to no text and no warnings |
| Convert.DecodeInAlphabet | hidmsr/convert.py:45 | every decoded character belongs to the scheme's alphabet |
| Convert.FlipParity | hidmsr/convert.py:34 | inverting one parity bit keeps the length |
| Convert.FlipParityFrames | hidmsr/convert.py:33-35 | inverting frame k's parity bit changes only that bit of that frame |
| Convert.FlipParityWarning | hidmsr/convert.py:36-42 | inverting a '0'/'1' parity bit inverts the frame's warning |
| Convert.FlipParitySymbol | hidmsr/convert.py:33-46 | after inverting frame k's parity bit, every frame keeps its character, and only frame k's flag can change |
| Convert.CollectSameChars | hidmsr/convert.py:32-46 | frame results with the same characters give the same text |
| Convert.FlipParityKeepsText | hidmsr/convert.py:34-46 | parity is reported, not enforced: inverting a parity bit leaves the decoded text and the other flags unchanged and toggles that frame's flag |
| ConvertExamples.WorkedExampleBits | hidmsr/convert.py:23-26 | hex_to_bin("004142") is 000000000100000101000010 |
| ConvertExamples.WorkedExample | hidmsr/convert.py:28-49 | decode_sixdec of those bits gives " $" with parity warnings on frames 0 and 2 |
| ConvertExamples.DigitZeroBits | hidmsr/convert.py:23-26 | hex_to_bin("0804") is 0000100000000100 |
| ConvertExamples.DecodesDigitZero | hidmsr/convert.py:28-49 | the frame for index 16 with correct parity decodes to '0' with no warning |
| Commands.ToByte | hidmsr/commands.py:53 | a `c_ubyte` keeps byte values and otherwise keeps the value modulo 256 |
| Commands.Bytes | hidmsr/commands.py:53 | a `c_ubyte` array keeps each item's position and its value modulo 256, and stores a list of byte values unchanged |
| Commands.Zeros | hidmsr/commands.py:27 | `[0x00] * n` has max(n, 0) zeros |
| Commands.ExtendCommand | hidmsr/commands.py:25-29 | the result starts with the command, is padded with zeros, and has max(length, len(command)) items |
| Commands.ExtendLongCommand | hidmsr/commands.py:25-29 | a command at least `length` long is returned unchanged |
| Commands.ExtendCommandIdempotent | hidmsr/commands.py:25-29 | extending twice to the same length is extending once |
| Commands.CreateReportData | hidmsr/commands.py:31-54 | ValueError exactly when 0 < length < len(data) + 1; otherwise `length` items (len(data) + 1 by default): the interface byte, the data, then zeros, each modulo 256 |
| Commands.ReportLayout | hidmsr/commands.py:52-53 | a report is the interface byte, then the data bytes, then zero padding |
| Commands.ReportPayload | hidmsr/commands.py:52-53 | byte data is read back unchanged from report bytes 1..len(data) |
| Commands.CommandReport | hidmsr/commands.py:139 | the report `__send_command` builds is always created without error |
| Commands.CommandReportLayout | hidmsr/commands.py:139 | a command of at most 64 bytes goes out as 65 bytes: 0x00, the command, then zeros; a longer command goes out whole behind 0x00 |
| Commands.CommandReportPayload | hidmsr/commands.py:139 | a command of byte values is read back from its report |
| Commands.FixedCommandsAreShort | hidmsr/commands.py:142-177 | every fixed command is at most 64 byte values |
| Commands.FixedCommandReport | hidmsr/commands.py:139-177 | a fixed command goes out as exactly 65 bytes: 0x00, the command byte for byte, then zeros |
| Commands.DecodeHex | hidmsr/commands.py:56-58 | `_decode_hex` succeeds exactly when every string is hex, and keeps length and order; otherwise it names the first bad string |
| Commands.HexStrings | hidmsr/commands.py:64 | one `"{:02X}"` string per byte |
| Commands.DecodeHexOfHexStrings | hidmsr/commands.py:56-64 | `_decode_hex` reads back exactly the bytes `_data_handler` formats |
| Commands.StripReportId | hidmsr/commands.py:62-63 | the result is a suffix of the chunk, one item shorter exactly when a payload follows the report ID, empty only for an empty chunk, and putting the ID back gives the chunk |
| Commands.StripReportIdOfPrefixed | hidmsr/commands.py:62-63 | a report ID in front of a non-empty payload is removed again |
| Commands.StrippedAppend | hidmsr/commands.py:60-68 | stripping a run of chunks is stripping each part in turn, so delivery in several batches buffers the same as in one |
| Commands.MsrDevice.constructor | hidmsr/commands.py:89-91 | a newly opened device has an empty response buffer and has sent nothing |
| Commands.MsrDevice.DataHandler | hidmsr/commands.py:60-68 | a chunk of bytes, as the HID layer delivers it, is appended to the buffer without its report ID, and nothing else changes |
| Commands.MsrDevice.Deliver | hidmsr/commands.py:107-110 | chunks delivered one by one are appended, stripped and in order |
| Commands.MsrDevice.SendCommand | hidmsr/commands.py:135-140 | an inactive device sends nothing and fails; otherwise exactly the command's report is sent, and the buffer is untouched |
| Commands.MsrDevice.SendCommandWait | hidmsr/commands.py:97-120 | an active device sends the report. After a reply it returns the stripped arrivals in order and leaves the buffer empty. An interrupted wait returns [] and leaves the arrivals in the buffer. An inactive device returns [] with an empty buffer |
| Commands.MsrDevice.SendCommandNowait | hidmsr/commands.py:122-133 | it sends like `__send_command`, leaves the buffer alone, and passes an inactive device's error on |
| Commands.MsrDevice.FirmwareVersion | hidmsr/commands.py:142-144 | it sends C5 1B 76 and waits for the replies |
| Commands.MsrDevice.Reset | hidmsr/commands.py:146-148 | it sends C2 1B 61 44 F8 19 without waiting |
| Commands.MsrDevice.ReadRaw | hidmsr/commands.py:150-152 | it sends C5 1B 6D and waits for the replies |
| Commands.MsrDevice.Read | hidmsr/commands.py:154-156 | it sends C5 1B 72 and waits for the replies |
| Commands.MsrDevice.SetHico | hidmsr/commands.py:167-169 | it sends C2 1B 78, waits, and discards the replies |
| Commands.MsrDevice.SetLoco | hidmsr/commands.py:171-173 | it sends C2 1B 79, waits, and discards the replies |
| Commands.MsrDevice.RamTest | hidmsr/commands.py:175-177 | it sends C2 1B 87 and waits for the replies |

## Left out

- Opening the device is not modelled: HID enumeration, the `RuntimeError` when no device is found, `device.open`, handler registration and `close_device`. These are calls into pywinusb; the model starts from an opened device whose `active` flag stands for `is_active()`.
- `send_feature_report` is not modelled beyond recording each report in `sent`, because it is foreign I/O.
- The lock is left out. A single-threaded model has nothing to exclude, and the code releases the lock in `finally` on every path.
- Commands.MsrDevice.DataHandler: inbound chunks are bytes, as the HID layer delivers them. A chunk holding an int outside 0..0x10FFFF would make `"{:c}".format(c)` raise OverflowError before the append; the model does not cover such chunks.
- The reader thread is not modelled. Chunks arrive only during the wait, as the `Wait` parameter says.
- Timing is left out: `time.sleep`, `wait_time` and how many chunks arrive within the final sleep. The `Wait` parameter gives the arrivals instead.
- A wait that never ends is left out. With no reply and no interrupt, the poll loop never returns; `Wait` has only the two ways the wait can end.
- A KeyboardInterrupt outside the poll loop (during the clear or the send) is left out.
- `set_bpi` is left out. It calls the undefined `self.__send_command_wait`, which Python mangles to `_MSRDevice__send_command_wait`, so it raises AttributeError and does nothing else.
- `write` only logs, and is left out.
- `unknown1` to `unknown6` are left out. They send undocumented commands through `__send_command` in the same way as `Commands.MsrDevice.SendCommand`.
- Logging and printing are left out, including the parity messages. The parity messages are modelled as the returned flags.
- Convert.DecodeSpec: when a frame raises, the error names the frame but does not carry the parity flags of frames 0 to k. The source prints those warnings before the ValueError, so the model drops them on the error path.
- `_data_handler` builds hex and character strings of each chunk only to log them. Those strings are left out; `Commands.HexStrings` models the hex format alone.
- The `hex(...)` / `eval(...)` round trip in the decoders is the identity on a non-negative int, and the model uses the int directly.
- The command-line entry point of convert.py is left out: it only parses arguments and prints. hidmsr/__init__.py is not part of this model.
- Convert.HexToBin: `int(ch, 16)` also accepts characters the model treats as errors: Unicode decimal digits other than ASCII, for example. The model accepts only 0-9, a-f and A-F.
- Convert.Decode: `int(bin_val[::-1], 2)` also accepts a sign, surrounding whitespace, underscores between digits, a `0b` prefix and non-ASCII decimal digits, so some frames that the model rejects decode in Python. A bit string from hex_to_bin never contains them.
- Hex.ParseHex: Python's `int(c, 16)` also accepts a sign, whitespace, underscores, a `0x` prefix and non-ASCII decimal digits; the model accepts ASCII hex digits only.
- Commands.CreateReportData: items that are not ints would make ctypes raise TypeError. The model takes lists of ints only.
