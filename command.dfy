// The frame codec: a frame is [dest][sender][cmd], four payload bytes
// [analog][digit][difficulty][status] only when cmd is Set (3), then a 16-bit
// checksum over header and payload, low byte first.
//
// The checksum routine itself is not part of this model: every operation
// takes it as a parameter `calculate`, and every property is proved for all
// checksum functions.

module Codec {
  import opened ByteExt
  import opened StatusData
  import opened Optional

  /** The checksum of the bytes it covers: the source routine is taken to read
      only the first `len` bytes of the buffer it is handed. */
  type Checksum = seq<byte> -> bv16

  const ServerAddress: byte := 0x80
  const BroadcastAddress: byte := 0xF0

  /** The command kinds with their wire codes; Unknown is -1. */
  datatype CommandType = Unknown | Ack | NAck | Set | Get

  const AckCode: byte := 0
  const NAckCode: byte := 1
  const SetCode: byte := 3
  const GetCode: byte := 4

  /** The byte a command kind is written as; -1 casts to 0xFF. */
  function Code(t: CommandType): byte
  {
    match t
    case Unknown => 0xFF
    case Ack => AckCode
    case NAck => NAckCode
    case Set => SetCode
    case Get => GetCode
  }

  /** The kind a wire code names; None is an integer outside the enumeration. */
  function CmdType(code: byte): (t: Option<CommandType>)
    ensures t != Some(Unknown)
    ensures t.Some? <==> code in {AckCode, NAckCode, SetCode, GetCode}
    ensures t.Some? ==> Code(t.value) == code
  {
    if code == AckCode then Some(Ack)
    else if code == NAckCode then Some(NAck)
    else if code == SetCode then Some(Set)
    else if code == GetCode then Some(Get)
    else None
  }

  /** Header-and-payload length for a wire code: 7 for Set, 3 for anything else. */
  function GetCmdLen(code: byte): (len: nat)
    ensures len == 7 <==> code == SetCode
    ensures len == 3 <==> code != SetCode
  {
    if code == SetCode then 7 else 3
  }

  datatype Command = Command(addr: byte, Sender: byte, cmd: byte,
                             analog: byte, digit: byte, dific: byte, status: byte)
  {
    /** Header plus payload, the bytes the checksum covers. */
    function Body(): (b: seq<byte>)
      ensures |b| == GetCmdLen(cmd)
      ensures b[0] == addr && b[1] == Sender && b[2] == cmd
      ensures cmd == SetCode ==> b[3..] == [analog, digit, dific, status]
    {
      [addr, Sender, cmd] + if cmd == SetCode then [analog, digit, dific, status] else []
    }

    /** The wire bytes: body, then checksum low byte, then high byte. */
    function Encode(calculate: Checksum): (w: seq<byte>)
      ensures |w| == GetCmdLen(cmd) + 2
      ensures w[..GetCmdLen(cmd)] == Body()
      ensures GetCrcFromBuffer(w, GetCmdLen(cmd)) == calculate(Body())
    {
      var crc := calculate(Body());
      var w := Body() + [(crc & 0xFF) as byte, (crc >> 8) as byte];
      assert w[..GetCmdLen(cmd)] == Body();
      w
    }

    /** Fills a fresh array of frame length + 2 slot by slot. */
    method ToBytes(calculate: Checksum) returns (buf: array<byte>)
      ensures fresh(buf)
      ensures buf[..] == Encode(calculate)
    {
      var len := GetCmdLen(cmd);
      buf := new byte[len + 2];
      buf[0] := addr;
      buf[1] := Sender;
      buf[2] := cmd;
      if cmd == SetCode {
        buf[3] := analog;
        buf[4] := digit;
        buf[5] := dific;
        buf[6] := status;
      }
      assert buf[..len] == Body();
      var crc := calculate(buf[..len]);
      buf[len + 1] := (crc >> 8) as byte;
      buf[len] := (crc & 0xFF) as byte;
      assert buf[..len] == Body();
    }
  }

  /** A command as the factories build it: no payload unless it is a Set. */
  predicate WellFormed(c: Command)
  {
    c.cmd != SetCode ==> c.analog == 0 && c.digit == 0 && c.dific == 0 && c.status == 0
  }

  /** The outgoing-command constructor: sender is always the server. */
  function NewCommand(addr: byte, t: CommandType, analog: byte, digit: byte, dific: byte, status: byte): (c: Command)
    ensures c.Sender == ServerAddress && c.addr == addr && c.cmd == Code(t)
    ensures c.analog == analog && c.digit == digit && c.dific == dific && c.status == status
  {
    Command(addr, ServerAddress, Code(t), analog, digit, dific, status)
  }

  /** The constructor from received bytes: payload only for frames longer than 3 bytes. */
  function FromBytes(command: seq<byte>): (c: Command)
    requires |command| == 3 || |command| >= 7
    ensures c.addr == command[0] && c.Sender == command[1] && c.cmd == command[2]
    ensures |command| == 3 ==> c.analog == 0 && c.digit == 0 && c.dific == 0 && c.status == 0
    ensures |command| >= 7 ==> c.analog == command[3] && c.digit == command[4] && c.dific == command[5] && c.status == command[6]
  {
    if |command| > 3 then
      Command(command[0], command[1], command[2], command[3], command[4], command[5], command[6])
    else
      Command(command[0], command[1], command[2], 0, 0, 0, 0)
  }

  /** The checksum as stored in a frame: low byte at `cmdLen`, high byte right after it. */
  function GetCrcFromBuffer(buffer: seq<byte>, cmdLen: nat): (crc: bv16)
    requires cmdLen + 2 <= |buffer|
    ensures (crc & 0xFF) as byte == buffer[cmdLen]
    ensures (crc >> 8) as byte == buffer[cmdLen + 1]
  {
    ((buffer[cmdLen + 1] as bv16) << 8) | (buffer[cmdLen] as bv16)
  }

  function CreateGet(address: byte): (c: Command)
    ensures c.addr == address && c.Sender == ServerAddress && c.cmd == GetCode
    ensures WellFormed(c)
  {
    NewCommand(address, Get, 0, 0, 0, 0)
  }

  /** A Set carries the resistor code as analog and the jumper pattern as digit. */
  function CreateSet(jvalue: byte, rvalue: byte, dificulty: byte, address: byte): (c: Command)
    ensures c.addr == address && c.Sender == ServerAddress && c.cmd == SetCode
    ensures c.analog == rvalue && c.digit == jvalue && c.dific == dificulty && c.status == 0
    ensures WellFormed(c)
  {
    NewCommand(address, Set, rvalue, jvalue, dificulty, 0)
  }

  function CreateBroadCastGet(): (c: Command)
    ensures c.addr == BroadcastAddress && c.Sender == ServerAddress && c.cmd == GetCode
    ensures WellFormed(c)
  {
    CreateGet(0xF0)
  }

  function CreateSetFromSavedData(data: UnitStatusData, defaultDifficulty: byte): (c: Command)
    ensures c.addr == data.Address && c.Sender == ServerAddress && c.cmd == SetCode
    ensures c.analog == data.Rvalue && c.digit == data.Jvalue
    ensures c.dific == defaultDifficulty && c.status == 0
    ensures WellFormed(c)
  {
    CreateSet(data.Jvalue, data.Rvalue, defaultDifficulty, data.Address)
  }

  // ---------------------------------------------------------------------
  // Parsing

  /** The buffer is long enough to hold the frame its third byte announces. */
  predicate Complete(buffer: seq<byte>)
  {
    |buffer| >= 3 && |buffer| >= GetCmdLen(buffer[2]) + 2
  }

  /** A complete frame at the head of the buffer whose checksum matches. */
  predicate Intact(calculate: Checksum, buffer: seq<byte>)
  {
    Complete(buffer) &&
    var len := GetCmdLen(buffer[2]);
    GetCrcFromBuffer(buffer, len) == calculate(buffer[..len])
  }

  datatype ParseResult = ParseResult(command: Option<Command>, rest: seq<byte>)

  /** What TryParseCommand returns and leaves in the buffer: the source's recursion. */
  function Parse(calculate: Checksum, buffer: seq<byte>): (r: ParseResult)
    ensures |r.rest| <= |buffer| && r.rest == buffer[|buffer| - |r.rest|..]
    ensures !Complete(buffer) ==> r == ParseResult(None, buffer)
    ensures r.command.None? ==> !Complete(r.rest)
    decreases |buffer|
  {
    if |buffer| < 3 then ParseResult(None, buffer)
    else
      var cmdLen := GetCmdLen(buffer[2]);
      if |buffer| < cmdLen + 2 then ParseResult(None, buffer)
      else if GetCrcFromBuffer(buffer, cmdLen) != calculate(buffer[..cmdLen]) then
        Parse(calculate, buffer[1..])
      else
        ParseResult(Some(FromBytes(buffer[..cmdLen])), buffer[cmdLen + 2..])
  }

  /** Pulls at most one checksum-valid frame off the front of the buffer,
      dropping one leading byte per checksum mismatch. */
  method TryParseCommand(calculate: Checksum, buffer: seq<byte>) returns (command: Option<Command>, rest: seq<byte>)
    ensures ParseResult(command, rest) == Parse(calculate, buffer)
  {
    rest := buffer;
    while true
      invariant Parse(calculate, rest) == Parse(calculate, buffer)
      decreases |rest|
    {
      if |rest| < 3 {
        return None, rest;
      }
      var cmdLen := GetCmdLen(rest[2]);
      if |rest| < cmdLen + 2 {
        return None, rest;
      }
      var crc := GetCrcFromBuffer(rest, cmdLen);
      var commandBuffer := rest[..cmdLen];
      var calcCrc := calculate(commandBuffer);
      if crc != calcCrc {
        rest := rest[1..];
      } else {
        return Some(FromBytes(commandBuffer)), rest[cmdLen + 2..];
      }
    }
  }

  /** One parse attempt at the head of the buffer, with no resynchronisation. */
  function ParseHead(buffer: seq<byte>): ParseResult
  {
    if !Complete(buffer) then ParseResult(None, buffer)
    else
      var len := GetCmdLen(buffer[2]);
      ParseResult(Some(FromBytes(buffer[..len])), buffer[len + 2..])
  }

  /** How many leading bytes a parse discards before it stops. */
  function Skipped(calculate: Checksum, buffer: seq<byte>): (k: nat)
    ensures k <= |buffer|
    decreases |buffer|
  {
    if Complete(buffer) && !Intact(calculate, buffer) then 1 + Skipped(calculate, buffer[1..]) else 0
  }

  lemma {:induction false} SkippedAreCorrupt(calculate: Checksum, buffer: seq<byte>, j: nat)
    requires j < Skipped(calculate, buffer)
    ensures Complete(buffer[j..]) && !Intact(calculate, buffer[j..])
    decreases j
  {
    if j > 0 {
      SkippedAreCorrupt(calculate, buffer[1..], j - 1);
      assert buffer[1..][j - 1..] == buffer[j..];
    }
  }

  lemma {:induction false} ParseIsHeadAfterSkip(calculate: Checksum, buffer: seq<byte>)
    ensures var k := Skipped(calculate, buffer);
      Parse(calculate, buffer) == ParseHead(buffer[k..])
      && (Complete(buffer[k..]) ==> Intact(calculate, buffer[k..]))
    decreases |buffer|
  {
    if Complete(buffer) && !Intact(calculate, buffer) {
      ParseIsHeadAfterSkip(calculate, buffer[1..]);
      assert buffer[1..][Skipped(calculate, buffer[1..])..] == buffer[Skipped(calculate, buffer)..];
    } else {
      assert buffer[0..] == buffer;
    }
  }

  /** `r` is what a parse of `buffer` should give when it resumes at position
      k: every earlier position holds a complete frame with a bad checksum,
      and at k the buffer is either incomplete and kept whole, or starts with
      an intact frame that is returned while everything after it is kept. */
  predicate ResyncAt(calculate: Checksum, buffer: seq<byte>, k: nat, r: ParseResult)
  {
    && k <= |buffer|
    && (forall j :: 0 <= j < k ==> Complete(buffer[j..]) && !Intact(calculate, buffer[j..]))
    && (r.command.None? ==> r.rest == buffer[k..] && !Complete(buffer[k..]))
    && (r.command.Some? ==>
          Intact(calculate, buffer[k..])
          && var len := GetCmdLen(buffer[k + 2]);
          r.command.value == FromBytes(buffer[k..k + len])
          && r.rest == buffer[k + len + 2..])
  }

  /** Parsing drops a leading byte only where a complete frame fails its
      checksum, so it stops after at most |buffer| drops. */
  lemma ParseResync(calculate: Checksum, buffer: seq<byte>)
    ensures exists k :: ResyncAt(calculate, buffer, k, Parse(calculate, buffer))
  {
    var k := Skipped(calculate, buffer);
    forall j | 0 <= j < k
      ensures Complete(buffer[j..]) && !Intact(calculate, buffer[j..])
    {
      SkippedAreCorrupt(calculate, buffer, j);
    }
    ParseIsHeadAfterSkip(calculate, buffer);
    HeadAt(calculate, buffer, k);
    assert ResyncAt(calculate, buffer, k, Parse(calculate, buffer));
  }

  /** The head parse at position k, in terms of the whole buffer. */
  lemma HeadAt(calculate: Checksum, buffer: seq<byte>, k: nat)
    requires k <= |buffer| && (Complete(buffer[k..]) ==> Intact(calculate, buffer[k..]))
    ensures var r := ParseHead(buffer[k..]);
      && (r.command.None? ==> r.rest == buffer[k..] && !Complete(buffer[k..]))
      && (r.command.Some? ==>
            Intact(calculate, buffer[k..])
            && var len := GetCmdLen(buffer[k + 2]);
            r.command.value == FromBytes(buffer[k..k + len])
            && r.rest == buffer[k + len + 2..])
  {
    if Complete(buffer[k..]) {
      var len := GetCmdLen(buffer[k + 2]);
      assert buffer[k..][..len] == buffer[k..k + len];
      assert buffer[k..][len + 2..] == buffer[k + len + 2..];
    }
  }

  /** Round trip: the encoding of a factory-built command, followed by any
      further bytes, parses back to that command and leaves the further bytes. */
  lemma EncodeThenParse(calculate: Checksum, c: Command, rest: seq<byte>)
    requires WellFormed(c)
    ensures Parse(calculate, c.Encode(calculate) + rest) == ParseResult(Some(c), rest)
  {
    var w := c.Encode(calculate);
    var buffer := w + rest;
    var len := GetCmdLen(c.cmd);
    assert buffer[..len] == c.Body();
    assert buffer[len] == w[len] && buffer[len + 1] == w[len + 1];
    assert GetCrcFromBuffer(buffer, len) == GetCrcFromBuffer(w, len);
    assert buffer[len + 2..] == rest;
    assert FromBytes(c.Body()) == c;
  }

  // ---------------------------------------------------------------------
  // The unit-test vectors, under the checksum values they rely on

  /** A Get to unit 5 is written 05 80 04 A1 D0 and parses back to itself. */
  lemma GetVector(calculate: Checksum)
    requires calculate([0x05, 0x80, 0x04]) == 0xD0A1
    ensures CreateGet(5).Encode(calculate) == [0x05, 0x80, 0x04, 0xA1, 0xD0]
    ensures Parse(calculate, [0x05, 0x80, 0x04, 0xA1, 0xD0]) == ParseResult(Some(CreateGet(5)), [])
  {
    assert CreateGet(5).Body() == [0x05, 0x80, 0x04];
    EncodeThenParse(calculate, CreateGet(5), []);
    assert CreateGet(5).Encode(calculate) + [] == [0x05, 0x80, 0x04, 0xA1, 0xD0];
  }

  /** 80 05 00 88 94 parses as an Ack from unit 5. */
  lemma AckVector(calculate: Checksum)
    requires calculate([0x80, 0x05, 0x00]) == 0x9488
    ensures var r := Parse(calculate, [0x80, 0x05, 0x00, 0x88, 0x94]);
      r.command.Some? && CmdType(r.command.value.cmd) == Some(Ack)
      && r.command.value.Sender == 5 && r.rest == []
  {
    var b: seq<byte> := [0x80, 0x05, 0x00, 0x88, 0x94];
    assert b[..3] == [0x80, 0x05, 0x00];
  }

  /** The Set echo 80 05 03 68 F2 04 80 9B 8E parses with its whole payload. */
  lemma SetVector(calculate: Checksum)
    requires calculate([0x80, 0x05, 0x03, 0x68, 0xF2, 0x04, 0x80]) == 0x8E9B
    ensures Parse(calculate, [0x80, 0x05, 0x03, 0x68, 0xF2, 0x04, 0x80, 0x9B, 0x8E])
         == ParseResult(Some(Command(0x80, 0x05, 0x03, 0x68, 0xF2, 0x04, 0x80)), [])
  {
    var b: seq<byte> := [0x80, 0x05, 0x03, 0x68, 0xF2, 0x04, 0x80, 0x9B, 0x8E];
    assert b[..7] == [0x80, 0x05, 0x03, 0x68, 0xF2, 0x04, 0x80];
  }

  /** With its last byte removed the Get frame is incomplete: nothing is returned
      and the buffer is kept byte for byte, whatever the checksum. */
  lemma IncompleteVector(calculate: Checksum)
    ensures Parse(calculate, [0x05, 0x80, 0x04, 0xA1]) == ParseResult(None, [0x05, 0x80, 0x04, 0xA1])
  {
  }

  /** One extra byte after the Get frame stays in the buffer. */
  lemma TrailingByteVector(calculate: Checksum)
    requires calculate([0x05, 0x80, 0x04]) == 0xD0A1
    ensures Parse(calculate, [0x05, 0x80, 0x04, 0xA1, 0xD0, 0x00]) == ParseResult(Some(CreateGet(5)), [0x00])
  {
    GetVector(calculate);
    EncodeThenParse(calculate, CreateGet(5), [0x00]);
    assert CreateGet(5).Encode(calculate) + [0x00] == [0x05, 0x80, 0x04, 0xA1, 0xD0, 0x00];
  }
}
