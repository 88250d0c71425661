/**
 * Report framing and response buffering of hidmsr/commands.py.
 *
 * Outbound, a command is zero-padded to 64 bytes and prefixed with the
 * interface byte 0x00, giving the 65-byte feature report the MSR605X
 * expects. Inbound, each chunk the HID layer delivers loses its leading
 * report byte and is appended to a response buffer, which the waiting
 * command clears before sending and drains afterwards.
 */
module Commands {
  import opened Results
  import opened Hex

  // ---------------------------------------------------------------------
  // Bytes
  // ---------------------------------------------------------------------

  /** The value of a `ctypes.c_ubyte`. */
  type byte = b: int | 0 <= b < 256

  /** Storing an int into a `c_ubyte` keeps it modulo 256, without an overflow check. */
  function ToByte(x: int): (b: byte)
    ensures 0 <= x < 256 ==> b == x
    ensures (x - b) % 256 == 0
  {
    x % 256
  }

  /** A list of ints that are all already byte values. */
  predicate AllBytes(xs: seq<int>) {
    forall i :: 0 <= i < |xs| ==> 0 <= xs[i] < 256
  }

  /**
   * Every item stored into a `c_ubyte` array: each keeps its position and
   * its value modulo 256, and a list of byte values is stored unchanged.
   */
  function Bytes(xs: seq<int>): (bs: seq<byte>)
    ensures |bs| == |xs|
    ensures forall i :: 0 <= i < |xs| ==> bs[i] == ToByte(xs[i])
    ensures forall i :: 0 <= i < |xs| ==> (xs[i] - bs[i]) % 256 == 0
    ensures AllBytes(xs) ==> bs == xs
  {
    seq(|xs|, i requires 0 <= i < |xs| => ToByte(xs[i]))
  }

  // ---------------------------------------------------------------------
  // _extend_command
  // ---------------------------------------------------------------------

  /** `[0x00] * n`: n zeros, and none when n is zero or negative. */
  function Zeros(n: int): (z: seq<int>)
    ensures |z| == (if n > 0 then n else 0)
    ensures forall i :: 0 <= i < |z| ==> z[i] == 0
  {
    if n <= 0 then [] else [0] + Zeros(n - 1)
  }

  /** `_extend_command`: the command followed by 0x00 up to `length` items. */
  function ExtendCommand(command: seq<int>, length: int): (r: seq<int>)
    ensures |r| == (if length > |command| then length else |command|)
    ensures r[..|command|] == command
    ensures forall i :: |command| <= i < |r| ==> r[i] == 0
  {
    command + Zeros(length - |command|)
  }

  /** A command that already has `length` items is returned as it is. */
  lemma {:induction false} ExtendLongCommand(command: seq<int>, length: int)
    requires length <= |command|
    ensures ExtendCommand(command, length) == command
  {
    assert Zeros(length - |command|) == [];
  }

  /** Extending twice to the same length is extending once. */
  lemma ExtendCommandIdempotent(command: seq<int>, length: int)
    ensures ExtendCommand(ExtendCommand(command, length), length) == ExtendCommand(command, length)
  {
    ExtendLongCommand(ExtendCommand(command, length), length);
  }

  // ---------------------------------------------------------------------
  // _create_report_data
  // ---------------------------------------------------------------------

  /** `ValueError('The length must be longer than the data!')`. */
  datatype ReportError = LengthTooShort(length: int, needed: nat)

  /**
   * `_create_report_data`: a `c_ubyte` array of `length` items (by default
   * one more than the data) holding the interface byte, then the data, then
   * zeros; an explicit length that leaves no room for them is a ValueError.
   */
  function CreateReportData(iface: int, data: seq<int>, length: int): (r: Result<seq<byte>, ReportError>)
    ensures r.Err? <==> 0 < length < |data| + 1
    ensures r.Err? ==> r.error == LengthTooShort(length, |data| + 1)
    ensures r.Ok? ==> |r.value| == (if length <= 0 then |data| + 1 else length)
    ensures r.Ok? ==> r.value[0] == ToByte(iface)
    ensures r.Ok? ==> forall i :: 0 <= i < |data| ==> r.value[1 + i] == ToByte(data[i])
    ensures r.Ok? ==> forall i :: |data| + 1 <= i < |r.value| ==> r.value[i] == 0
  {
    var n := if length <= 0 then |data| + 1 else length;
    if length > 0 && length < |data| + 1 then
      Err(LengthTooShort(length, |data| + 1))
    else
      var report := [iface] + data;
      Ok(seq(n, i requires 0 <= i < n => if i < |report| then ToByte(report[i]) else 0))
  }

  /** Bytes laid out as a first byte, then the data bytes, then zeros, are that concatenation. */
  lemma {:induction false} LayoutConcat(report: seq<byte>, first: byte, data: seq<int>)
    requires |report| >= |data| + 1 && report[0] == first
    requires forall i :: 0 <= i < |data| ==> report[1 + i] == ToByte(data[i])
    requires forall i :: |data| + 1 <= i < |report| ==> report[i] == 0
    ensures report == [first] + Bytes(data) + Zeros(|report| - |data| - 1)
  {
    var head, body, tail := [first], Bytes(data), Zeros(|report| - |data| - 1);
    var layout := head + body + tail;
    assert |layout| == |report|;
    forall i | 0 <= i < |report|
      ensures report[i] == layout[i]
    {
      if i == 0 {
        assert layout[i] == head[0];
      } else if i < |data| + 1 {
        assert layout[i] == body[i - 1];
        assert report[1 + (i - 1)] == ToByte(data[i - 1]);
      } else {
        assert layout[i] == tail[i - |data| - 1];
      }
    }
  }

  /** A report is the interface byte, the data bytes and zero padding, in that order. */
  lemma ReportLayout(iface: int, data: seq<int>, length: int)
    requires CreateReportData(iface, data, length).Ok?
    ensures var report := CreateReportData(iface, data, length).value;
      report == [ToByte(iface)] + Bytes(data) + Zeros(|report| - |data| - 1)
  {
    LayoutConcat(CreateReportData(iface, data, length).value, ToByte(iface), data);
  }

  /** The data of a report is read back from bytes 1..len(data). */
  lemma ReportPayload(iface: int, data: seq<int>, length: int)
    requires AllBytes(data) && CreateReportData(iface, data, length).Ok?
    ensures CreateReportData(iface, data, length).value[1 .. |data| + 1] == data
  {
  }

  // ---------------------------------------------------------------------
  // The report of __send_command
  // ---------------------------------------------------------------------

  /** `_create_report_data(0x00, _extend_command(command))`, which always succeeds. */
  function CommandReport(command: seq<int>): (report: seq<byte>)
    ensures CreateReportData(0, ExtendCommand(command, 64), 0) == Ok(report)
  {
    CreateReportData(0, ExtendCommand(command, 64), 0).value
  }

  /**
   * A command of at most 64 bytes goes out as 65 bytes: 0x00, the command,
   * then zeros. A longer command goes out whole behind the 0x00.
   */
  lemma CommandReportLayout(command: seq<int>)
    ensures var report := CommandReport(command);
      && |report| == (if |command| <= 64 then 65 else |command| + 1)
      && report[0] == 0
      && (forall i :: 0 <= i < |command| ==> report[1 + i] == ToByte(command[i]))
      && (forall i :: |command| + 1 <= i < |report| ==> report[i] == 0)
  {
    var extended := ExtendCommand(command, 64);
    forall i | 0 <= i < |command|
      ensures extended[i] == command[i]
    {
      assert extended[..|command|][i] == command[i];
    }
  }

  /** A command made of byte values is read back from the report it is sent in. */
  lemma CommandReportPayload(command: seq<int>)
    requires AllBytes(command)
    ensures CommandReport(command)[1 .. |command| + 1] == command
  {
    CommandReportLayout(command);
  }

  // ---------------------------------------------------------------------
  // The fixed commands
  // ---------------------------------------------------------------------

  /** `reset`: ESC a, with its C2 prefix and two trailing bytes. */
  const ResetCommand: seq<int> := [0xC2, 0x1B, 0x61, 0x44, 0xF8, 0x19]
  /** `firmware_version`: ESC v. */
  const FirmwareVersionCommand: seq<int> := [0xC5, 0x1B, 0x76]
  /** `read_raw`: ESC m. */
  const ReadRawCommand: seq<int> := [0xC5, 0x1B, 0x6D]
  /** `read`: ESC r. */
  const ReadIsoCommand: seq<int> := [0xC5, 0x1B, 0x72]
  /** `set_hico`: ESC x. */
  const SetHicoCommand: seq<int> := [0xC2, 0x1B, 0x78]
  /** `set_loco`: ESC y. */
  const SetLocoCommand: seq<int> := [0xC2, 0x1B, 0x79]
  /** `ram_test`: ESC 0x87. */
  const RamTestCommand: seq<int> := [0xC2, 0x1B, 0x87]

  /** Each fixed command is at most 64 byte values. */
  predicate FixedCommand(c: seq<int>) {
    |c| <= 64 && AllBytes(c)
  }

  /** The fixed commands are all short byte strings. */
  lemma FixedCommandsAreShort()
    ensures FixedCommand(ResetCommand) && FixedCommand(FirmwareVersionCommand)
    ensures FixedCommand(ReadRawCommand) && FixedCommand(ReadIsoCommand)
    ensures FixedCommand(SetHicoCommand) && FixedCommand(SetLocoCommand) && FixedCommand(RamTestCommand)
  {
  }

  /** Such a command is sent byte for byte, behind 0x00 and padded to 65 bytes. */
  lemma FixedCommandReport(c: seq<int>)
    requires FixedCommand(c)
    ensures |CommandReport(c)| == 65 && CommandReport(c)[0] == 0 && CommandReport(c)[1 .. |c| + 1] == c
    ensures forall i :: |c| + 1 <= i < 65 ==> CommandReport(c)[i] == 0
  {
    CommandReportLayout(c);
    CommandReportPayload(c);
  }

  // ---------------------------------------------------------------------
  // _decode_hex
  // ---------------------------------------------------------------------

  /** `int(c, 16)` raised ValueError on item `index`. */
  datatype HexListError = NotHex(index: nat)

  /** `_decode_hex`: `int(c, 16)` of every string, in order; the first string that is not hex raises. */
  function DecodeHex(data: seq<string>): (r: Result<seq<nat>, HexListError>)
    ensures r.Ok? <==> forall i :: 0 <= i < |data| ==> ParseHex(data[i]).Some?
    ensures r.Ok? ==> |r.value| == |data| && forall i :: 0 <= i < |data| ==> ParseHex(data[i]) == Some(r.value[i])
    ensures r.Err? ==>
      && r.error.index < |data| && ParseHex(data[r.error.index]).None?
      && forall i :: 0 <= i < r.error.index ==> ParseHex(data[i]).Some?
    decreases |data|
  {
    if data == [] then Ok([])
    else
      match ParseHex(data[0])
      case None => Err(NotHex(0))
      case Some(v) =>
        match DecodeHex(data[1..])
        case Err(NotHex(i)) => Err(NotHex(i + 1))
        case Ok(vs) => Ok([v] + vs)
  }

  /** `"{:02X}".format(c)` of every byte, as `_data_handler` formats a chunk. */
  function HexStrings(data: seq<byte>): (s: seq<string>)
    ensures |s| == |data|
  {
    seq(|data|, i requires 0 <= i < |data| => FormatByte(data[i]))
  }

  /** `_decode_hex` reads back the bytes `_data_handler` formats. */
  lemma DecodeHexOfHexStrings(data: seq<byte>)
    ensures DecodeHex(HexStrings(data)) == Ok(data)
  {
    var strings := HexStrings(data);
    forall i | 0 <= i < |data|
      ensures ParseHex(strings[i]) == Some(data[i] as nat)
    {
      ParseFormatByte(data[i]);
    }
    var r := DecodeHex(strings);
    assert r.Ok? && |r.value| == |data|;
    assert forall i :: 0 <= i < |data| ==> r.value[i] == data[i] as nat;
    assert r.value == data;
  }

  // ---------------------------------------------------------------------
  // _data_handler
  // ---------------------------------------------------------------------

  /**
   * `data[1:]` when the chunk is longer than one byte: the report ID goes.
   * The result is a suffix of the chunk, one item shorter exactly when there
   * is a payload behind the ID, and empty only for an empty chunk; putting
   * the ID back gives the chunk again.
   */
  function StripReportId(data: seq<byte>): (r: seq<byte>)
    ensures |r| == (if |data| > 1 then |data| - 1 else |data|)
    ensures r == data[|data| - |r|..]
    ensures r == [] <==> data == []
    ensures |data| > 1 ==> [data[0]] + r == data
  {
    if |data| > 1 then data[1..] else data
  }

  /** A report ID in front of a non-empty payload is taken off again. */
  lemma StripReportIdOfPrefixed(id: byte, payload: seq<byte>)
    requires payload != []
    ensures StripReportId([id] + payload) == payload
  {
  }

  /** What the handler appends for each chunk, in arrival order. */
  function Stripped(chunks: seq<seq<byte>>): (r: seq<seq<byte>>)
    ensures |r| == |chunks|
    ensures forall i :: 0 <= i < |chunks| ==> r[i] == StripReportId(chunks[i])
  {
    seq(|chunks|, i requires 0 <= i < |chunks| => StripReportId(chunks[i]))
  }

  /** Stripping a run of chunks is stripping each part of it in turn. */
  lemma StrippedAppend(a: seq<seq<byte>>, b: seq<seq<byte>>)
    ensures Stripped(a + b) == Stripped(a) + Stripped(b)
  {
    var left, right := Stripped(a + b), Stripped(a) + Stripped(b);
    assert |left| == |right|;
    forall i | 0 <= i < |left|
      ensures left[i] == right[i]
    {
      if i < |a| {
        assert (a + b)[i] == a[i];
      } else {
        assert (a + b)[i] == b[i - |a|];
      }
    }
  }

  // ---------------------------------------------------------------------
  // MSRDevice
  // ---------------------------------------------------------------------

  /** Whether `__send_command` got as far as `send_feature_report`. */
  datatype SendOutcome = Sent | DeviceInactive

  /**
   * How the wait in `_send_command_wait` ends: replies arrived (the first
   * one ends the poll loop, the rest arrive during the final sleep), or a
   * KeyboardInterrupt stopped it after the given chunks had arrived.
   */
  datatype Wait = Replied(first: seq<byte>, rest: seq<seq<byte>>) | Interrupted(arrived: seq<seq<byte>>)

  /** The chunks delivered while waiting. */
  function Arrivals(wait: Wait): seq<seq<byte>> {
    match wait
    case Replied(first, rest) => [first] + rest
    case Interrupted(arrived) => arrived
  }

  /**
   * An opened MSR device: whether the HID device is active, the
   * `_responses` buffer, and the reports sent to it so far.
   */
  class MsrDevice {
    /** What `self._dev.is_active()` reports. */
    var active: bool
    /** `self._responses`. */
    var responses: seq<seq<byte>>
    /** Every report passed to `send_feature_report`, oldest first. */
    var sent: seq<seq<byte>>

    /** An opened device with an empty response buffer. */
    constructor (active: bool)
      ensures this.active == active && responses == [] && sent == []
    {
      this.active := active;
      responses := [];
      sent := [];
    }

    /**
     * `_data_handler`: one inbound chunk, without its report ID, joins the
     * buffer. The HID layer delivers bytes, so formatting each item for the
     * log cannot fail before the append.
     */
    method DataHandler(data: seq<byte>)
      modifies this
      ensures responses == old(responses) + [StripReportId(data)]
      ensures active == old(active) && sent == old(sent)
    {
      var chunk := data;
      if |chunk| > 1 {
        chunk := chunk[1..];
      }
      responses := responses + [chunk];
    }

    /** The HID reader thread calling the handler once per chunk, in order. */
    method Deliver(chunks: seq<seq<byte>>)
      modifies this
      ensures responses == old(responses) + Stripped(chunks)
      ensures active == old(active) && sent == old(sent)
    {
      var i := 0;
      while i < |chunks|
        invariant 0 <= i <= |chunks|
        invariant responses == old(responses) + Stripped(chunks[..i])
        invariant active == old(active) && sent == old(sent)
      {
        DataHandler(chunks[i]);
        assert chunks[..i + 1] == chunks[..i] + [chunks[i]];
        StrippedAppend(chunks[..i], [chunks[i]]);
        i := i + 1;
      }
      assert chunks[..i] == chunks;
    }

    /** `__send_command`: an inactive device raises; otherwise the command's report is sent. */
    method SendCommand(command: seq<int>) returns (outcome: SendOutcome)
      modifies this
      ensures outcome == (if old(active) then Sent else DeviceInactive)
      ensures sent == if old(active) then old(sent) + [CommandReport(command)] else old(sent)
      ensures active == old(active) && responses == old(responses)
    {
      if !active {
        return DeviceInactive;
      }
      var report := CreateReportData(0, ExtendCommand(command, 64), 0);
      sent := sent + [report.value];
      outcome := Sent;
    }

    /**
     * `_send_command_wait`: clear the buffer, send, wait for replies, then
     * copy the buffer out and clear it. The `return` in its `finally`
     * swallows the error of an inactive device, and an interrupted wait
     * returns nothing and leaves what arrived in the buffer.
     */
    method SendCommandWait(command: seq<int>, wait: Wait) returns (replies: seq<seq<byte>>)
      modifies this
      ensures sent == if old(active) then old(sent) + [CommandReport(command)] else old(sent)
      ensures replies == if old(active) && wait.Replied? then Stripped(Arrivals(wait)) else []
      ensures responses == if old(active) && wait.Interrupted? then Stripped(Arrivals(wait)) else []
      ensures active == old(active)
    {
      replies := [];
      responses := [];
      var outcome := SendCommand(command);
      if outcome == DeviceInactive {
        return;
      }
      Deliver(Arrivals(wait));
      if wait.Interrupted? {
        return;
      }
      replies := responses;
      responses := [];
    }

    /** `_send_command_nowait`: send without touching the buffer; an inactive device's error propagates. */
    method SendCommandNowait(command: seq<int>) returns (outcome: SendOutcome)
      modifies this
      ensures outcome == (if old(active) then Sent else DeviceInactive)
      ensures sent == if old(active) then old(sent) + [CommandReport(command)] else old(sent)
      ensures active == old(active) && responses == old(responses)
    {
      outcome := SendCommand(command);
    }

    /** `firmware_version`. */
    method FirmwareVersion(wait: Wait) returns (replies: seq<seq<byte>>)
      modifies this
      ensures sent == if old(active) then old(sent) + [CommandReport(FirmwareVersionCommand)] else old(sent)
      ensures replies == if old(active) && wait.Replied? then Stripped(Arrivals(wait)) else []
      ensures responses == if old(active) && wait.Interrupted? then Stripped(Arrivals(wait)) else []
      ensures active == old(active)
    {
      replies := SendCommandWait(FirmwareVersionCommand, wait);
    }

    /** `reset`. */
    method Reset() returns (outcome: SendOutcome)
      modifies this
      ensures outcome == (if old(active) then Sent else DeviceInactive)
      ensures sent == if old(active) then old(sent) + [CommandReport(ResetCommand)] else old(sent)
      ensures active == old(active) && responses == old(responses)
    {
      outcome := SendCommandNowait(ResetCommand);
    }

    /** `read_raw`. */
    method ReadRaw(wait: Wait) returns (replies: seq<seq<byte>>)
      modifies this
      ensures sent == if old(active) then old(sent) + [CommandReport(ReadRawCommand)] else old(sent)
      ensures replies == if old(active) && wait.Replied? then Stripped(Arrivals(wait)) else []
      ensures responses == if old(active) && wait.Interrupted? then Stripped(Arrivals(wait)) else []
      ensures active == old(active)
    {
      replies := SendCommandWait(ReadRawCommand, wait);
    }

    /** `read`. */
    method Read(wait: Wait) returns (replies: seq<seq<byte>>)
      modifies this
      ensures sent == if old(active) then old(sent) + [CommandReport(ReadIsoCommand)] else old(sent)
      ensures replies == if old(active) && wait.Replied? then Stripped(Arrivals(wait)) else []
      ensures responses == if old(active) && wait.Interrupted? then Stripped(Arrivals(wait)) else []
      ensures active == old(active)
    {
      replies := SendCommandWait(ReadIsoCommand, wait);
    }

    /** `set_hico`: the replies are discarded. */
    method SetHico(wait: Wait)
      modifies this
      ensures sent == if old(active) then old(sent) + [CommandReport(SetHicoCommand)] else old(sent)
      ensures responses == if old(active) && wait.Interrupted? then Stripped(Arrivals(wait)) else []
      ensures active == old(active)
    {
      var _ := SendCommandWait(SetHicoCommand, wait);
    }

    /** `set_loco`: the replies are discarded. */
    method SetLoco(wait: Wait)
      modifies this
      ensures sent == if old(active) then old(sent) + [CommandReport(SetLocoCommand)] else old(sent)
      ensures responses == if old(active) && wait.Interrupted? then Stripped(Arrivals(wait)) else []
      ensures active == old(active)
    {
      var _ := SendCommandWait(SetLocoCommand, wait);
    }

    /** `ram_test`. */
    method RamTest(wait: Wait) returns (replies: seq<seq<byte>>)
      modifies this
      ensures sent == if old(active) then old(sent) + [CommandReport(RamTestCommand)] else old(sent)
      ensures replies == if old(active) && wait.Replied? then Stripped(Arrivals(wait)) else []
      ensures responses == if old(active) && wait.Interrupted? then Stripped(Arrivals(wait)) else []
      ensures active == old(active)
    {
      replies := SendCommandWait(RamTestCommand, wait);
    }
  }
}
