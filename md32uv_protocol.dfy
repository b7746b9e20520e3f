/**
 * The MD-32UV programming protocol as implemented by the C++ emulator:
 * seven-letter commands, a one-byte ping, value, info and memory reads
 * ('V', 'G', 'R') and memory writes ('W'), framed out of a receive buffer;
 * replies are appended to a transmit buffer.
 */
module Md32uvProtocol {
  import opened Bytes

  const ACK: byte := 0x06
  /** "PSEARCH", "PASSSTA", "SYSINFO" and "PROGRAM" in ASCII. */
  const PSEARCH: seq<byte> := [0x50, 0x53, 0x45, 0x41, 0x52, 0x43, 0x48]
  const PASSSTA: seq<byte> := [0x50, 0x41, 0x53, 0x53, 0x53, 0x54, 0x41]
  const SYSINFO: seq<byte> := [0x53, 0x59, 0x53, 0x49, 0x4e, 0x46, 0x4f]
  const PROGRAM: seq<byte> := [0x50, 0x52, 0x4f, 0x47, 0x52, 0x41, 0x4d]
  const VALUE: byte := 0x56      // 'V'
  const READ_INFO: byte := 0x47  // 'G'
  const READ: byte := 0x52       // 'R'
  const WRITE: byte := 0x57      // 'W'
  const SYS_INFO_REPLY: byte := 0x53  // 'S'
  /** 0xff, the signed char -1 the framer drops (a signed char target is assumed). */
  const FILLER: byte := 0xff

  /** Offset of the 16-bit length in a 'G', 'R' or 'W' frame as the framer reads it. */
  const LENGTH_AT: nat := 3
  /** Offset of the length in the same frames as the read reply lays it out, after the 16-bit field. */
  const LENGTH_AT_INTENDED: nat := 4

  datatype Request =
    | PingRequest
    | SearchRequest
    | PasswordRequest
    | StartSystemInfoRequest
    | StartProgramRequest
    | ValueRequest(valueFlags: u16, valueLength: byte, valueField: byte)
    | ReadInfoRequest(flags: byte, field: u16, length: u16)
    | ReadRequest(flags: byte, field: u16, length: u16)
    | WriteRequest(flags: byte, field: u16, payload: seq<byte>)

  datatype Response =
    | Ack
    | SearchResponse(model: seq<byte>)
    | PasswordResponse
    | ValueResponse(valueField: byte, payload: seq<byte>)
    | ReadInfoResponse(flags: byte, field: u16, payload: seq<byte>)
    | ReadResponse(flags: byte, field: u16, payload: seq<byte>)

  /** The request found at the head of the buffer (None for a null pointer) and the bytes removed. */
  datatype Parsed = Parsed(request: Option<Request>, consumed: nat)

  /**
   * The framing decision with the 16-bit length of 'G', 'R' and 'W' frames
   * read at `lengthAt`. Branches are tried in the source's order; a write
   * frame is consumed only once its payload has arrived; a leading 0xff is
   * dropped and anything else is left in place.
   */
  function Frame(buffer: seq<byte>, lengthAt: nat): (p: Parsed)
    requires lengthAt <= 4
    ensures p.consumed <= |buffer|
  {
    if |buffer| >= 1 && buffer[0] == ACK then Parsed(Some(PingRequest), 1)
    else if StartsWith(buffer, PSEARCH) then Parsed(Some(SearchRequest), 7)
    else if StartsWith(buffer, PASSSTA) then Parsed(Some(PasswordRequest), 7)
    else if StartsWith(buffer, SYSINFO) then Parsed(Some(StartSystemInfoRequest), 7)
    else if StartsWith(buffer, PROGRAM) then Parsed(Some(StartProgramRequest), 7)
    else if |buffer| >= 5 && buffer[0] == VALUE then
      Parsed(Some(ValueRequest(LE16(buffer[1..3]), buffer[3], buffer[4])), 5)
    else if |buffer| >= 6 && buffer[0] == READ_INFO then
      Parsed(Some(ReadInfoRequest(buffer[1], LE16(buffer[2..4]), LE16(buffer[lengthAt..lengthAt + 2]))), 6)
    else if |buffer| >= 6 && buffer[0] == READ then
      Parsed(Some(ReadRequest(buffer[1], LE16(buffer[2..4]), LE16(buffer[lengthAt..lengthAt + 2]))), 6)
    else if |buffer| >= 6 && buffer[0] == WRITE then
      var length := LE16(buffer[lengthAt..lengthAt + 2]) as nat;
      if |buffer| < length + 6 then Parsed(None, 0)
      else Parsed(Some(WriteRequest(buffer[1], LE16(buffer[2..4]), buffer[6..6 + length])), 6 + length)
    else if |buffer| >= 1 && buffer[0] == FILLER then Parsed(None, 1)
    else Parsed(None, 0)
  }

  /** The framer as written: the length shares byte 3 with the field's high byte. */
  function Parse(buffer: seq<byte>): Parsed
  {
    Frame(buffer, LENGTH_AT)
  }

  /**
   * MD32UVRequest::fromBuffer: removes the recognised frame from the head of
   * the buffer and returns it; ok is always set.
   */
  method FromBuffer(buffer: seq<byte>) returns (request: Option<Request>, rest: seq<byte>, ok: bool)
    ensures ok
    ensures request == Parse(buffer).request
    ensures rest == buffer[Parse(buffer).consumed..]
  {
    ok := true;
    request, rest := None, buffer;
    if |buffer| >= 1 && buffer[0] == ACK {
      request, rest := Some(PingRequest), buffer[1..];
    } else if |buffer| >= 7 && StartsWith(buffer, PSEARCH) {
      request, rest := Some(SearchRequest), buffer[7..];
    } else if |buffer| >= 7 && StartsWith(buffer, PASSSTA) {
      request, rest := Some(PasswordRequest), buffer[7..];
    } else if |buffer| >= 7 && StartsWith(buffer, SYSINFO) {
      request, rest := Some(StartSystemInfoRequest), buffer[7..];
    } else if |buffer| >= 7 && StartsWith(buffer, PROGRAM) {
      request, rest := Some(StartProgramRequest), buffer[7..];
    } else if |buffer| >= 5 && buffer[0] == VALUE {
      var flags := LE16(buffer[1..3]);
      var len := buffer[3];
      var field := buffer[4];
      request, rest := Some(ValueRequest(flags, len, field)), buffer[5..];
    } else if |buffer| >= 6 && buffer[0] == READ_INFO {
      var flags := buffer[1];
      var field := LE16(buffer[2..4]);
      var len := LE16(buffer[3..5]);
      request, rest := Some(ReadInfoRequest(flags, field, len)), buffer[6..];
    } else if |buffer| >= 6 && buffer[0] == READ {
      var flags := buffer[1];
      var field := LE16(buffer[2..4]);
      var len := LE16(buffer[3..5]);
      request, rest := Some(ReadRequest(flags, field, len)), buffer[6..];
    } else if |buffer| >= 6 && buffer[0] == WRITE {
      var flags := buffer[1];
      var field := LE16(buffer[2..4]);
      var len := LE16(buffer[3..5]) as nat;
      if |buffer| < len + 6 {
        return;
      }
      var payload := buffer[6..6 + len];
      request, rest := Some(WriteRequest(flags, field, payload)), buffer[6 + len..];
    } else if |buffer| >= 1 && buffer[0] == FILLER {
      rest := buffer[1..];
    }
  }

  /** The search reply's model name: zero-padded or cut to exactly seven bytes. */
  function SearchModel(model: seq<byte>): (m: seq<byte>)
    ensures |m| == 7
    ensures forall i | 0 <= i < 7 :: m[i] == (if i < |model| then model[i] else 0)
  {
    if |model| < 7 then model + Zeros(7 - |model|) else model[..7]
  }

  /** At most `cap` payload bytes are kept. */
  function Capped(payload: seq<byte>, cap: nat): (p: seq<byte>)
    ensures |p| == Min(|payload|, cap) && p == payload[..|p|]
  {
    if |payload| > cap then payload[..cap] else payload
  }

  /** The bytes each reply's serialize appends; the constructors' caps are applied here. */
  function Encoding(response: Response): seq<byte>
  {
    match response
    case Ack => [ACK]
    case SearchResponse(model) => [ACK] + SearchModel(model)
    case PasswordResponse => [0x50, 0, 0]
    case ValueResponse(field, payload) =>
      var p := Capped(payload, 255);
      [VALUE, field, |p|] + p
    case ReadInfoResponse(flags, field, payload) =>
      var p := Capped(payload, 0xffff);
      [SYS_INFO_REPLY, flags] + LE16Bytes(field) + LE16Bytes(|p|) + p
    case ReadResponse(flags, field, payload) =>
      var p := Capped(payload, 0xffff);
      [WRITE, flags] + LE16Bytes(field) + LE16Bytes(|p|) + p
  }

  /** serialize: appends the reply to the transmit buffer and succeeds. */
  method Serialize(response: Response, buffer: seq<byte>) returns (out: seq<byte>, ok: bool)
    ensures ok && out == buffer + Encoding(response)
  {
    ok := true;
    match response
    case Ack =>
      out := buffer + [ACK];
    case SearchResponse(model) =>
      var m := if |model| < 7 then model + Zeros(7 - |model|) else model[..7];
      out := buffer + [ACK] + m;
    case PasswordResponse =>
      out := buffer + [0x50, 0, 0];
    case ValueResponse(field, payload) =>
      var p := if |payload| > 255 then payload[..255] else payload;
      assert p == Capped(payload, 255);
      out := buffer + ([VALUE, field, |p|] + p);
    case ReadInfoResponse(flags, field, payload) =>
      var p := if |payload| > 0xffff then payload[..0xffff] else payload;
      assert p == Capped(payload, 0xffff);
      out := buffer + ([SYS_INFO_REPLY, flags] + LE16Bytes(field) + LE16Bytes(|p|) + p);
    case ReadResponse(flags, field, payload) =>
      var p := if |payload| > 0xffff then payload[..0xffff] else payload;
      assert p == Capped(payload, 0xffff);
      out := buffer + ([WRITE, flags] + LE16Bytes(field) + LE16Bytes(|p|) + p);
  }

  // ---------------------------------------------------------------------------
  // Properties of the framer
  // ---------------------------------------------------------------------------

  /** A ping consumes one byte; each seven-letter command consumes exactly its seven bytes. */
  lemma CommandFrames(buffer: seq<byte>)
    ensures |buffer| >= 1 && buffer[0] == ACK ==> Parse(buffer) == Parsed(Some(PingRequest), 1)
    ensures StartsWith(buffer, PSEARCH) ==> Parse(buffer) == Parsed(Some(SearchRequest), 7)
    ensures StartsWith(buffer, PASSSTA) ==> Parse(buffer) == Parsed(Some(PasswordRequest), 7)
    ensures StartsWith(buffer, SYSINFO) ==> Parse(buffer) == Parsed(Some(StartSystemInfoRequest), 7)
    ensures StartsWith(buffer, PROGRAM) ==> Parse(buffer) == Parsed(Some(StartProgramRequest), 7)
  {
  }

  /** A value request consumes five bytes: 16-bit little-endian flags, then length, then field. */
  lemma ValueFrame(buffer: seq<byte>)
    requires |buffer| >= 5 && buffer[0] == VALUE
    ensures Parse(buffer) == Parsed(Some(ValueRequest(buffer[1] as int + 0x100 * buffer[2] as int, buffer[3], buffer[4])), 5)
  {
  }

  /**
   * Info and memory reads consume six bytes; the field is bytes 2-3 and the
   * length bytes 3-4, both little-endian, so byte 3 counts in both.
   */
  lemma ReadFrames(buffer: seq<byte>)
    requires |buffer| >= 6 && (buffer[0] == READ_INFO || buffer[0] == READ)
    ensures var field := buffer[2] as int + 0x100 * buffer[3] as int;
      var length := buffer[3] as int + 0x100 * buffer[4] as int;
      && Parse(buffer).consumed == 6
      && Parse(buffer).request == Some(if buffer[0] == READ_INFO then ReadInfoRequest(buffer[1], field, length)
                                       else ReadRequest(buffer[1], field, length))
  {
  }

  /** A write frame waits until its whole payload has arrived, then consumes header and payload. */
  lemma WriteFrame(buffer: seq<byte>)
    requires |buffer| >= 6 && buffer[0] == WRITE
    ensures var length := buffer[3] as int + 0x100 * buffer[4] as int;
      && (|buffer| < length + 6 ==> Parse(buffer) == Parsed(None, 0))
      && (|buffer| >= length + 6 ==>
            Parse(buffer) == Parsed(Some(WriteRequest(buffer[1], buffer[2] as int + 0x100 * buffer[3] as int, buffer[6..6 + length])), 6 + length))
  {
  }

  /** A leading 0xff is dropped without a request; an unrecognised byte or a partial frame leaves the buffer alone. */
  lemma FillerAndLeftovers(buffer: seq<byte>)
    requires |buffer| >= 1
    requires buffer[0] !in {ACK, VALUE, READ_INFO, READ, WRITE, 0x50, 0x53}
    ensures Parse(buffer) == (if buffer[0] == FILLER then Parsed(None, 1) else Parsed(None, 0))
  {
  }

  /**
   * A frame whose header has not fully arrived consumes nothing and yields no
   * request: a value frame needs 5 bytes, read, read-info and write frames 6.
   */
  lemma PartialFramesWait(buffer: seq<byte>)
    requires |buffer| >= 1
    requires (buffer[0] == VALUE && |buffer| < 5) || (buffer[0] in {READ_INFO, READ, WRITE} && |buffer| < 6)
    ensures Parse(buffer) == Parsed(None, 0)
  {
  }

  // ---------------------------------------------------------------------------
  // Properties of the replies
  // ---------------------------------------------------------------------------

  /** The search reply is an acknowledge followed by the seven-byte model name. */
  lemma SearchReplyLayout(model: seq<byte>)
    ensures var e := Encoding(SearchResponse(model));
      && |e| == 8 && e[0] == ACK
      && (|model| <= 7 ==> e[1..1 + |model|] == model && e[1 + |model|..] == Zeros(7 - |model|))
      && (|model| >= 7 ==> e[1..] == model[..7])
  {
    var e := Encoding(SearchResponse(model));
    assert e[1..] == SearchModel(model);
    if |model| <= 7 {
      assert e[1..1 + |model|] == SearchModel(model)[..|model|];
    }
  }

  /** The value reply carries the field, the length and at most 255 payload bytes. */
  lemma ValueReplyLayout(field: byte, payload: seq<byte>)
    ensures var e := Encoding(ValueResponse(field, payload));
      && e[..2] == [VALUE, field]
      && e[2] as int == Min(|payload|, 255)
      && e[3..] == payload[..Min(|payload|, 255)]
  {
  }

  /**
   * Memory and info reads are answered with a six-byte header ('W' or 'S',
   * flags, 16-bit little-endian field and length) and at most 65535 payload
   * bytes, and each header field reads back.
   */
  lemma ReadReplyLayout(response: Response)
    requires response.ReadResponse? || response.ReadInfoResponse?
    ensures var e := Encoding(response);
      var n := Min(|response.payload|, 0xffff);
      && |e| == 6 + n
      && e[0] == (if response.ReadResponse? then WRITE else SYS_INFO_REPLY)
      && e[1] == response.flags
      && LE16(e[2..4]) == response.field
      && LE16(e[4..6]) == n
      && e[6..] == response.payload[..n]
  {
    var e := Encoding(response);
    var p := Capped(response.payload, 0xffff);
    assert e[2..4] == LE16Bytes(response.field);
    assert e[4..6] == LE16Bytes(|p|);
  }

  /**
   * With the length read where the read reply puts it, a read reply
   * followed by anything frames back as the write request carrying the same
   * flags, field and payload.
   */
  lemma WriteReplyRoundTrip(flags: byte, field: u16, payload: seq<byte>, tail: seq<byte>)
    requires |payload| <= 0xffff
    ensures Frame(Encoding(ReadResponse(flags, field, payload)) + tail, LENGTH_AT_INTENDED)
         == Parsed(Some(WriteRequest(flags, field, payload)), 6 + |payload|)
  {
    var e := Encoding(ReadResponse(flags, field, payload));
    ReadReplyLayout(ReadResponse(flags, field, payload));
    var b := e + tail;
    assert b[0] == WRITE && b[1] == flags;
    assert b[4..6] == e[4..6] && b[2..4] == e[2..4];
    assert LE16(b[4..6]) == |payload|;
    assert b[6..6 + |payload|] == e[6..];
  }

  /**
   * As written, a read reply whose field has a non-zero high byte does not
   * frame back: field 0x0100 with no payload is taken to announce one
   * payload byte, and the six-byte frame waits forever.
   */
  lemma WriteReplyAsWrittenWaits()
    ensures Encoding(ReadResponse(0, 0x0100, [])) == [WRITE, 0, 0x00, 0x01, 0x00, 0x00]
    ensures Parse(Encoding(ReadResponse(0, 0x0100, []))) == Parsed(None, 0)
  {
    assert Encoding(ReadResponse(0, 0x0100, [])) == [WRITE, 0, 0x00, 0x01, 0x00, 0x00];
  }
}
