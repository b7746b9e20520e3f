/**
 * The OpenGD77 programming protocol as implemented by the C++ emulator:
 * 'C' commands (ping, screen control, text display, radio control), 'R'
 * reads and 'W'/'X' writes (set flash sector, write flash sector, write data
 * to a buffer or the EEPROM), framed out of a receive buffer by nested
 * decoders; replies are appended to a transmit buffer.
 *
 * Several decoders read fixed header bytes without checking that the
 * buffer holds them. Such a read is undefined in the source; the model reads
 * 0 instead and reports it by clearing the frame's `inBounds` flag.
 */
module Opengd77Protocol {
  import opened Bytes

  const COMMAND_TYPE: byte := 0x43  // 'C'
  const READ_TYPE: byte := 0x52     // 'R'
  const W_TYPE: byte := 0x57        // 'W'
  const X_TYPE: byte := 0x58        // 'X'

  // Command codes.
  const SHOW_CPS_SCREEN: byte := 0
  const CLEAR_SCREEN: byte := 1
  const DISPLAY: byte := 2
  const RENDER_CPS: byte := 3
  const CLOSE_CPS_SCREEN: byte := 5
  const CONTROL: byte := 6
  const PING: byte := 0xfe

  // Write sections.
  const SET_FLASH_SECTOR: byte := 1
  const WRITE_SECTOR_BUFFER: byte := 2
  const WRITE_FLASH_SECTOR: byte := 3
  const WRITE_EEPROM: byte := 4
  const WRITE_WAV_BUFFER: byte := 7

  const READ_SIZE: nat := 8

  datatype WriteType = WRequest | XRequest

  datatype Request =
    | PingRequest
    | ShowCpsScreenRequest
    | ClearScreenRequest
    | DisplayRequest(x: byte, y: byte, font: byte, alignment: byte, inverted: bool, text: seq<byte>)
    | RenderScreenRequest
    | ResetScreenRequest
    | ControlRequest(option: byte)
    | ReadRequest(section: byte, address: u32, length: u16)
    | SetSectorRequest(kind: WriteType, sector: u32)
    | WriteSectorRequest(kind: WriteType)
    | WriteDataRequest(kind: WriteType, section: byte, address: u32, data: seq<byte>)

  datatype Response =
    | CommandResponse(success: bool)
    | WriteResponse(kind: WriteType, section: byte)
    | ReadResponse(data: seq<byte>)

  /**
   * What one call of the framer does: the request found, how many bytes it
   * removes from the head of the buffer, the value it assigns to ok (None
   * when it leaves ok alone) and whether every byte it read was there.
   */
  datatype Parsed = Parsed(request: Option<Request>, consumed: nat, ok: Option<bool>, inBounds: bool)

  /** The command code passed as ENABLE_GPS, which the source handles like a ping. */
  predicate IsGpsCode(enableGps: byte)
  {
    enableGps !in {SHOW_CPS_SCREEN, CLEAR_SCREEN, DISPLAY, RENDER_CPS, CLOSE_CPS_SCREEN, CONTROL, PING}
  }

  /** buffer.at(i) where i may be past the end: 0 then. */
  function At(buffer: seq<byte>, i: nat): byte
  {
    if i < |buffer| then buffer[i] else 0
  }

  function TypeOf(first: byte): WriteType
  {
    if first == W_TYPE then WRequest else XRequest
  }

  /** (uint32_t) of a signed char: bytes from 0x80 on are sign-extended. */
  function SignExtend(b: byte): u32
  {
    if b < 0x80 then b else 0xffff_ff00 + b as int
  }

  /** The set-sector decoder as written: each sign-extended byte shifted into place, wrapping at 2^32. */
  function SectorAsWritten(b2: byte, b3: byte, b4: byte): u32
  {
    (SignExtend(b2) as int * 0x1_0000 + SignExtend(b3) as int * 0x100 + SignExtend(b4) as int) % 0x1_0000_0000
  }

  /** The 24-bit big-endian sector number the three bytes spell. */
  function Sector(b2: byte, b3: byte, b4: byte): (s: u32)
    ensures s < 0x100_0000
  {
    b2 as int * 0x1_0000 + b3 as int * 0x100 + b4 as int
  }

  /** OpenGD77CommandRequest::fromBuffer and the command decoders it dispatches to. */
  function ParseCommand(buffer: seq<byte>, enableGps: byte): (p: Parsed)
    requires |buffer| >= 1 && buffer[0] == COMMAND_TYPE
    ensures p.consumed <= |buffer|
  {
    if |buffer| < 2 then Parsed(None, 0, Some(true), true)
    else
      var cmd := buffer[1];
      if cmd == SHOW_CPS_SCREEN then Parsed(Some(ShowCpsScreenRequest), 2, None, true)
      else if cmd == CLEAR_SCREEN then Parsed(Some(ClearScreenRequest), 2, None, true)
      else if cmd == DISPLAY then
        Parsed(Some(DisplayRequest(At(buffer, 2), At(buffer, 3), At(buffer, 4), At(buffer, 5), At(buffer, 6) != 0,
                                   if |buffer| >= 7 then buffer[7..] else [])),
               |buffer|, None, |buffer| >= 7)
      else if cmd == RENDER_CPS then Parsed(Some(RenderScreenRequest), 2, None, true)
      else if cmd == CLOSE_CPS_SCREEN then Parsed(Some(ResetScreenRequest), 2, None, true)
      else if cmd == CONTROL then Parsed(Some(ControlRequest(At(buffer, 2))), |buffer|, None, |buffer| >= 3)
      else if cmd == enableGps || cmd == PING then Parsed(Some(PingRequest), 2, None, true)
      else Parsed(None, |buffer|, Some(false), true)
  }

  /** OpenGD77ReadRequest::fromBuffer: waits for eight bytes, then section, 32-bit address and 16-bit length. */
  function ParseRead(buffer: seq<byte>): (p: Parsed)
    requires |buffer| >= 1 && buffer[0] == READ_TYPE
    ensures p.consumed <= |buffer|
  {
    if |buffer| < READ_SIZE then Parsed(None, 0, Some(true), true)
    else Parsed(Some(ReadRequest(buffer[1], BE32(buffer[2..6]), BE16(buffer[6..8]))), READ_SIZE, Some(true), true)
  }

  /**
   * OpenGD77WriteRequest::fromBuffer and the write decoders: the data write
   * takes as many payload bytes as have arrived, up to the announced length.
   */
  function ParseWrite(buffer: seq<byte>): (p: Parsed)
    requires |buffer| >= 1 && (buffer[0] == W_TYPE || buffer[0] == X_TYPE)
    ensures p.consumed <= |buffer|
  {
    if |buffer| < 2 then Parsed(None, 0, Some(true), true)
    else
      var kind := TypeOf(buffer[0]);
      var section := buffer[1];
      if section == SET_FLASH_SECTOR then
        Parsed(Some(SetSectorRequest(kind, SectorAsWritten(At(buffer, 2), At(buffer, 3), At(buffer, 4)))),
               Min(5, |buffer|), Some(true), |buffer| >= 5)
      else if section == WRITE_FLASH_SECTOR then Parsed(Some(WriteSectorRequest(kind)), 2, Some(true), true)
      else if section in {WRITE_SECTOR_BUFFER, WRITE_EEPROM, WRITE_WAV_BUFFER} then
        var address := BE32([At(buffer, 2), At(buffer, 3), At(buffer, 4), At(buffer, 5)]);
        var length := BE16([At(buffer, 6), At(buffer, 7)]) as nat;
        var end := Min(8 + length, |buffer|);
        Parsed(Some(WriteDataRequest(kind, section, address, if |buffer| > 8 then buffer[8..end] else [])),
               end, Some(true), |buffer| >= 8)
      else Parsed(None, |buffer|, Some(false), true)
  }

  /** OpenGD77Request::fromBuffer: dispatch on the first byte. */
  function Parse(buffer: seq<byte>, enableGps: byte): (p: Parsed)
    ensures p.consumed <= |buffer|
  {
    if |buffer| == 0 then Parsed(None, 0, None, true)
    else if buffer[0] == COMMAND_TYPE then ParseCommand(buffer, enableGps)
    else if buffer[0] == READ_TYPE then ParseRead(buffer)
    else if buffer[0] == W_TYPE || buffer[0] == X_TYPE then ParseWrite(buffer)
    else Parsed(None, 0, Some(false), true)
  }

  /** The outcome of one decoder call as the caller sees it: the request, the buffer afterwards, ok. */
  datatype Outcome = Outcome(request: Option<Request>, rest: seq<byte>, ok: Option<bool>)

  /** The outcome a framing decision describes. */
  function OutcomeOf(buffer: seq<byte>, p: Parsed): Outcome
    requires p.consumed <= |buffer|
  {
    Outcome(p.request, buffer[p.consumed..], p.ok)
  }

  /** OpenGD77CommandRequest::fromBuffer. */
  method CommandFromBuffer(buffer: seq<byte>, enableGps: byte) returns (o: Outcome)
    requires |buffer| >= 1 && buffer[0] == COMMAND_TYPE
    ensures o == OutcomeOf(buffer, ParseCommand(buffer, enableGps))
  {
    if |buffer| < 2 {
      return Outcome(None, buffer, Some(true));
    }
    var cmd := buffer[1];
    if cmd == SHOW_CPS_SCREEN {
      o := Outcome(Some(ShowCpsScreenRequest), buffer[2..], None);
    } else if cmd == CLEAR_SCREEN {
      o := Outcome(Some(ClearScreenRequest), buffer[2..], None);
    } else if cmd == DISPLAY {
      var x, y, font, alignment := At(buffer, 2), At(buffer, 3), At(buffer, 4), At(buffer, 5);
      var inverted := At(buffer, 6) != 0;
      var text := if |buffer| >= 7 then buffer[7..] else [];
      o := Outcome(Some(DisplayRequest(x, y, font, alignment, inverted, text)), [], None);
    } else if cmd == RENDER_CPS {
      o := Outcome(Some(RenderScreenRequest), buffer[2..], None);
    } else if cmd == CLOSE_CPS_SCREEN {
      o := Outcome(Some(ResetScreenRequest), buffer[2..], None);
    } else if cmd == CONTROL {
      o := Outcome(Some(ControlRequest(At(buffer, 2))), [], None);
    } else if cmd == enableGps || cmd == PING {
      o := Outcome(Some(PingRequest), buffer[2..], None);
    } else {
      o := Outcome(None, [], Some(false));
    }
  }

  /** OpenGD77ReadRequest::fromBuffer. */
  method ReadFromBuffer(buffer: seq<byte>) returns (o: Outcome)
    requires |buffer| >= 1 && buffer[0] == READ_TYPE
    ensures o == OutcomeOf(buffer, ParseRead(buffer))
  {
    if |buffer| < READ_SIZE {
      return Outcome(None, buffer, Some(true));
    }
    var section := buffer[1];
    var address := BE32(buffer[2..6]);
    var length := BE16(buffer[6..8]);
    o := Outcome(Some(ReadRequest(section, address, length)), buffer[READ_SIZE..], Some(true));
  }

  /** OpenGD77WriteRequest::fromBuffer. */
  method WriteFromBuffer(buffer: seq<byte>) returns (o: Outcome)
    requires |buffer| >= 1 && (buffer[0] == W_TYPE || buffer[0] == X_TYPE)
    ensures o == OutcomeOf(buffer, ParseWrite(buffer))
  {
    if |buffer| < 2 {
      return Outcome(None, buffer, Some(true));
    }
    var kind := if W_TYPE == buffer[0] then WRequest else XRequest;
    var section := buffer[1];
    if section == SET_FLASH_SECTOR {
      var sector := SectorAsWritten(At(buffer, 2), At(buffer, 3), At(buffer, 4));
      o := Outcome(Some(SetSectorRequest(kind, sector)), buffer[Min(5, |buffer|)..], Some(true));
    } else if section == WRITE_FLASH_SECTOR {
      o := Outcome(Some(WriteSectorRequest(kind)), buffer[2..], Some(true));
    } else if section == WRITE_SECTOR_BUFFER || section == WRITE_EEPROM || section == WRITE_WAV_BUFFER {
      var address := BE32([At(buffer, 2), At(buffer, 3), At(buffer, 4), At(buffer, 5)]);
      var length := BE16([At(buffer, 6), At(buffer, 7)]) as nat;
      var end := Min(8 + length, |buffer|);
      var data := if |buffer| > 8 then buffer[8..end] else [];
      o := Outcome(Some(WriteDataRequest(kind, section, address, data)), buffer[end..], Some(true));
    } else {
      o := Outcome(None, [], Some(false));
    }
  }

  /** OpenGD77Request::fromBuffer. */
  method FromBuffer(buffer: seq<byte>, enableGps: byte) returns (o: Outcome)
    ensures o == OutcomeOf(buffer, Parse(buffer, enableGps))
  {
    if 0 == |buffer| {
      return Outcome(None, buffer, None);
    }
    if COMMAND_TYPE == buffer[0] {
      o := CommandFromBuffer(buffer, enableGps);
    } else if READ_TYPE == buffer[0] {
      o := ReadFromBuffer(buffer);
    } else if W_TYPE == buffer[0] || X_TYPE == buffer[0] {
      o := WriteFromBuffer(buffer);
    } else {
      o := Outcome(None, buffer, Some(false));
    }
  }

  /** The bytes each reply's serialize appends; the read length is the data size cut to 16 bits. */
  function Encoding(response: Response): seq<byte>
  {
    match response
    case CommandResponse(success) => [if success then 0x2d else 0x45]
    case WriteResponse(kind, section) => [if kind == WRequest then W_TYPE else X_TYPE, section]
    case ReadResponse(data) => [READ_TYPE] + BE16Bytes(|data| % 0x1_0000) + data
  }

  /** serialize: appends the reply to the transmit buffer and succeeds. */
  method Serialize(response: Response, buffer: seq<byte>) returns (out: seq<byte>, ok: bool)
    ensures ok && out == buffer + Encoding(response)
  {
    ok := true;
    match response
    case CommandResponse(success) =>
      if success {
        out := buffer + [0x2d];
      } else {
        out := buffer + [0x45];
      }
    case WriteResponse(kind, section) =>
      if WRequest == kind {
        out := buffer + [W_TYPE];
      } else {
        out := buffer + [X_TYPE];
      }
      out := out + [section];
    case ReadResponse(data) =>
      out := buffer + ([READ_TYPE] + BE16Bytes(|data| % 0x1_0000) + data);
  }

  // ---------------------------------------------------------------------------
  // Properties of the framer
  // ---------------------------------------------------------------------------

  /** An empty buffer yields nothing and leaves ok alone; an unknown request type fails without consuming. */
  lemma DispatchEdges(buffer: seq<byte>, enableGps: byte)
    ensures |buffer| == 0 ==> Parse(buffer, enableGps) == Parsed(None, 0, None, true)
    ensures |buffer| >= 1 && buffer[0] !in {COMMAND_TYPE, READ_TYPE, W_TYPE, X_TYPE} ==>
      Parse(buffer, enableGps) == Parsed(None, 0, Some(false), true)
  {
  }

  /** A lone 'C', 'W' or 'X', or a read shorter than eight bytes, waits with ok set. */
  lemma PartialFramesWait(buffer: seq<byte>, enableGps: byte)
    requires |buffer| >= 1
    requires (|buffer| < 2 && buffer[0] in {COMMAND_TYPE, W_TYPE, X_TYPE}) || (|buffer| < READ_SIZE && buffer[0] == READ_TYPE)
    ensures Parse(buffer, enableGps) == Parsed(None, 0, Some(true), true)
  {
  }

  /** Ping, the ENABLE_GPS code and the screen commands consume exactly their two bytes and leave ok alone. */
  lemma TwoByteCommands(buffer: seq<byte>, enableGps: byte)
    requires IsGpsCode(enableGps)
    requires |buffer| >= 2 && buffer[0] == COMMAND_TYPE
    requires buffer[1] in {SHOW_CPS_SCREEN, CLEAR_SCREEN, RENDER_CPS, CLOSE_CPS_SCREEN, PING, enableGps}
    ensures var p := Parse(buffer, enableGps);
      && p.consumed == 2 && p.ok == None && p.inBounds
      && p.request == Some(
        if buffer[1] == SHOW_CPS_SCREEN then ShowCpsScreenRequest
        else if buffer[1] == CLEAR_SCREEN then ClearScreenRequest
        else if buffer[1] == RENDER_CPS then RenderScreenRequest
        else if buffer[1] == CLOSE_CPS_SCREEN then ResetScreenRequest
        else PingRequest)
  {
  }

  /**
   * Display and control requests clear the whole buffer; the display's five
   * header bytes and the control option are read whether or not they have
   * arrived, and the display text is everything after them.
   */
  lemma DisplayAndControlClear(buffer: seq<byte>, enableGps: byte)
    requires IsGpsCode(enableGps)
    requires |buffer| >= 2 && buffer[0] == COMMAND_TYPE && (buffer[1] == DISPLAY || buffer[1] == CONTROL)
    ensures var p := Parse(buffer, enableGps);
      && p.consumed == |buffer| && p.ok == None
      && (buffer[1] == DISPLAY ==> (p.inBounds <==> |buffer| >= 7))
      && (buffer[1] == CONTROL ==> (p.inBounds <==> |buffer| >= 3))
      && (buffer[1] == DISPLAY && |buffer| >= 7 ==>
            p.request == Some(DisplayRequest(buffer[2], buffer[3], buffer[4], buffer[5], buffer[6] != 0, buffer[7..])))
      && (buffer[1] == CONTROL && |buffer| >= 3 ==> p.request == Some(ControlRequest(buffer[2])))
  {
  }

  /** An unknown command or write section fails and discards the whole buffer. */
  lemma UnknownCodesClear(buffer: seq<byte>, enableGps: byte)
    requires |buffer| >= 2
    requires (buffer[0] == COMMAND_TYPE && buffer[1] !in {SHOW_CPS_SCREEN, CLEAR_SCREEN, DISPLAY, RENDER_CPS, CLOSE_CPS_SCREEN, CONTROL, PING, enableGps})
          || (buffer[0] in {W_TYPE, X_TYPE} && buffer[1] !in {SET_FLASH_SECTOR, WRITE_SECTOR_BUFFER, WRITE_FLASH_SECTOR, WRITE_EEPROM, WRITE_WAV_BUFFER})
    ensures Parse(buffer, enableGps) == Parsed(None, |buffer|, Some(false), true)
  {
  }

  /** The frames a programming host sends for reads and writes. */
  function RequestEncoding(request: Request): seq<byte>
    requires request.ReadRequest? || request.WriteDataRequest? || request.SetSectorRequest? || request.WriteSectorRequest?
    requires request.WriteDataRequest? ==> request.section in {WRITE_SECTOR_BUFFER, WRITE_EEPROM, WRITE_WAV_BUFFER} && |request.data| <= 0xffff
    requires request.SetSectorRequest? ==> request.sector < 0x100_0000
  {
    match request
    case ReadRequest(section, address, length) => [READ_TYPE, section] + BE32Bytes(address) + BE16Bytes(length)
    case SetSectorRequest(kind, sector) =>
      [if kind == WRequest then W_TYPE else X_TYPE, SET_FLASH_SECTOR, sector / 0x1_0000, sector / 0x100 % 0x100, sector % 0x100]
    case WriteSectorRequest(kind) => [if kind == WRequest then W_TYPE else X_TYPE, WRITE_FLASH_SECTOR]
    case WriteDataRequest(kind, section, address, data) =>
      [if kind == WRequest then W_TYPE else X_TYPE, section] + BE32Bytes(address) + BE16Bytes(|data|) + data
  }

  /**
   * Reads, flash-sector writes and data writes frame back whole, with ok
   * set, whatever follows them.
   */
  lemma RequestRoundTrip(request: Request, tail: seq<byte>, enableGps: byte)
    requires request.ReadRequest? || request.WriteDataRequest? || request.WriteSectorRequest?
    requires request.WriteDataRequest? ==> request.section in {WRITE_SECTOR_BUFFER, WRITE_EEPROM, WRITE_WAV_BUFFER} && |request.data| <= 0xffff
    ensures var e := RequestEncoding(request);
      Parse(e + tail, enableGps) == Parsed(Some(request), |e|, Some(true), true)
  {
    var e := RequestEncoding(request);
    var b := e + tail;
    assert b[..|e|] == e;
    match request {
      case ReadRequest(section, address, length) =>
        assert b[2..6] == BE32Bytes(address);
        assert b[6..8] == BE16Bytes(length);
      case WriteSectorRequest(kind) =>
      case WriteDataRequest(kind, section, address, data) =>
        var a := BE32Bytes(address);
        var n := BE16Bytes(|data|);
        assert [At(b, 2), At(b, 3), At(b, 4), At(b, 5)] == a;
        assert [At(b, 6), At(b, 7)] == n;
        assert b[8..8 + |data|] == data;
    }
  }

  /** A data write announcing more bytes than have arrived still takes what is there and empties the buffer. */
  lemma WriteDataTakesWhatArrived(buffer: seq<byte>, enableGps: byte)
    requires |buffer| >= 8 && buffer[0] in {W_TYPE, X_TYPE} && buffer[1] in {WRITE_SECTOR_BUFFER, WRITE_EEPROM, WRITE_WAV_BUFFER}
    requires |buffer| < 8 + BE16(buffer[6..8])
    ensures var p := Parse(buffer, enableGps);
      p.consumed == |buffer| && p.ok == Some(true) && p.request.value.data == buffer[8..]
  {
    assert [At(buffer, 6), At(buffer, 7)] == buffer[6..8];
  }

  // ---------------------------------------------------------------------------
  // The set-sector decoder
  // ---------------------------------------------------------------------------

  /** The sector frame consumes five bytes; its three sector bytes are read whether or not they have arrived. */
  lemma SetSectorFrame(buffer: seq<byte>, enableGps: byte)
    requires |buffer| >= 2 && buffer[0] in {W_TYPE, X_TYPE} && buffer[1] == SET_FLASH_SECTOR
    ensures var p := Parse(buffer, enableGps);
      && p.consumed == Min(5, |buffer|) && p.ok == Some(true) && (p.inBounds <==> |buffer| >= 5)
      && (|buffer| >= 5 ==> p.request == Some(SetSectorRequest(TypeOf(buffer[0]), SectorAsWritten(buffer[2], buffer[3], buffer[4]))))
  {
  }

  /** The as-written decoder agrees with the 24-bit sector number when no byte has its top bit set. */
  lemma SectorAsWrittenAgrees(b2: byte, b3: byte, b4: byte)
    ensures b2 < 0x80 && b3 < 0x80 && b4 < 0x80 ==> SectorAsWritten(b2, b3, b4) == Sector(b2, b3, b4)
  {
  }

  /** Sector bytes 00 00 80 decode as 0xffffff80 instead of 0x80. */
  lemma SectorAsWrittenSignExtends()
    ensures SectorAsWritten(0, 0, 0x80) == 0xffff_ff80
    ensures Sector(0, 0, 0x80) == 0x80
  {
  }

  /** Every 24-bit sector number survives encoding into three bytes and decoding. */
  lemma SectorRoundTrip(sector: u32)
    requires sector < 0x100_0000
    ensures Sector(sector / 0x1_0000, sector / 0x100 % 0x100, sector % 0x100) == sector
  {
  }

  // ---------------------------------------------------------------------------
  // Properties of the replies
  // ---------------------------------------------------------------------------

  /** Command replies are '-' on success and 'E' otherwise; write replies echo the type letter and section. */
  lemma ShortReplies(success: bool, kind: WriteType, section: byte)
    ensures Encoding(CommandResponse(success)) == (if success then Ascii("-") else Ascii("E"))
    ensures Encoding(WriteResponse(kind, section)) == (if kind == WRequest then Ascii("W") else Ascii("X")) + [section]
  {
  }

  /** A read reply is 'R', the 16-bit big-endian data size and the data; the size reads back below 65536 bytes. */
  lemma ReadReplyLayout(data: seq<byte>)
    ensures var e := Encoding(ReadResponse(data));
      && |e| == 3 + |data| && e[0] == READ_TYPE && e[3..] == data
      && BE16(e[1..3]) == |data| % 0x1_0000
      && (|data| < 0x1_0000 ==> BE16(e[1..3]) == |data|)
  {
    var e := Encoding(ReadResponse(data));
    assert e[1..3] == BE16Bytes(|data| % 0x1_0000);
  }
}
