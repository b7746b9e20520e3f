/**
 * The Radtel programming protocol as implemented by the C++ emulator: every
 * frame ends in an additive checksum, the sum modulo 256 of all its other
 * bytes. Requests are commands (0x34), page reads (0x52) and 1024-byte page
 * writes (0x90 to 0x9f, the low nibble selecting the segment).
 */
module RadtelProtocol {
  import opened Bytes

  const COMMAND: byte := 0x34
  const READ: byte := 0x52
  const WRITE_BASE: byte := 0x90
  const ACK: byte := 0x06
  const PAGE_SIZE: nat := 1024
  const WRITE_FRAME: nat := 1028

  datatype Command = EnterProgrammingMode | LeaveProgrammingMode

  datatype Request =
    | CommandRequest(command: Command)
    | ReadRequest(page: u16)
    | WriteRequest(segment: byte, page: u16, payload: seq<byte>)

  datatype Response = Ack | ReadResponse(page: u16, payload: seq<byte>)

  /**
   * What one call of the framer does: the request found, how many bytes it
   * removes from the head of the buffer, and the ok flag.
   */
  datatype Parsed = Parsed(request: Option<Request>, consumed: nat, ok: bool)

  /** checkCRC's verdict: the last byte is the sum of the others modulo 256. */
  predicate CrcOk(frame: seq<byte>)
    requires |frame| >= 1
  {
    Sum(frame[..|frame| - 1]) % 0x100 == frame[|frame| - 1] as int
  }

  /** Whether the first byte selects a page write: its high nibble is 9. */
  predicate IsWrite(b: byte)
  {
    b / 0x10 == 9
  }

  /**
   * The framing decision. A frame is taken only when complete and its
   * checksum holds; a bad checksum fails without consuming anything; an
   * unknown first byte or command fails and discards the whole buffer.
   */
  function Parse(buffer: seq<byte>): (p: Parsed)
    ensures p.consumed <= |buffer|
    ensures p.request.Some? ==> p.ok && p.consumed > 0
  {
    if |buffer| < 1 then Parsed(None, 0, true)
    else if buffer[0] == COMMAND && |buffer| < 5 then Parsed(None, 0, true)
    else if buffer[0] == COMMAND && !CrcOk(buffer[..5]) then Parsed(None, 0, false)
    else if buffer[0] == COMMAND && buffer[2] == 0x05 && buffer[3] == 0x10 then
      Parsed(Some(CommandRequest(EnterProgrammingMode)), 5, true)
    else if buffer[0] == COMMAND && buffer[2] == 0x05 && buffer[3] == 0xee then
      Parsed(Some(CommandRequest(LeaveProgrammingMode)), 5, true)
    else if buffer[0] == READ && |buffer| < 4 then Parsed(None, 0, true)
    else if buffer[0] == READ && !CrcOk(buffer[..4]) then Parsed(None, 0, false)
    else if buffer[0] == READ then Parsed(Some(ReadRequest(BE16(buffer[1..3]))), 4, true)
    else if IsWrite(buffer[0]) && |buffer| < WRITE_FRAME then Parsed(None, 0, true)
    else if IsWrite(buffer[0]) && !CrcOk(buffer[..WRITE_FRAME]) then Parsed(None, 0, false)
    else if IsWrite(buffer[0]) then
      Parsed(Some(WriteRequest(buffer[0] % 0x10, BE16(buffer[1..3]), buffer[3..3 + PAGE_SIZE])), WRITE_FRAME, true)
    else Parsed(None, |buffer|, false)
  }

  /** checkCRC: sums all but the last byte in a wrapping uint8_t and compares with the last. */
  method CheckCrc(frame: seq<byte>) returns (r: bool)
    requires |frame| >= 1
    ensures r <==> CrcOk(frame)
  {
    var b: byte := 0;
    var i := 0;
    while i < |frame| - 1
      invariant 0 <= i <= |frame| - 1
      invariant b as int == Sum(frame[..i]) % 0x100
    {
      assert frame[..i + 1][..i] == frame[..i];
      b := (b + frame[i]) % 0x100;
      i := i + 1;
    }
    r := b == frame[|frame| - 1];
  }

  /** RadtelRequest::fromBuffer: takes a complete, checksummed frame off the head of the buffer. */
  method FromBuffer(buffer: seq<byte>) returns (request: Option<Request>, rest: seq<byte>, ok: bool)
    ensures request == Parse(buffer).request
    ensures rest == buffer[Parse(buffer).consumed..]
    ensures ok == Parse(buffer).ok
  {
    ok := true;
    request, rest := None, buffer;
    if 1 > |buffer| {
      return;
    }
    if COMMAND == buffer[0] {
      if 5 > |buffer| {
        return;
      }
      var crc := CheckCrc(buffer[..5]);
      if !crc {
        ok := false;
        return;
      }
      var f1, f2 := buffer[2], buffer[3];
      if 0x05 == f1 && 0x10 == f2 {
        request, rest := Some(CommandRequest(EnterProgrammingMode)), buffer[5..];
        return;
      } else if 0x05 == f1 && 0xee == f2 {
        request, rest := Some(CommandRequest(LeaveProgrammingMode)), buffer[5..];
        return;
      }
    } else if READ == buffer[0] {
      if 4 > |buffer| {
        return;
      }
      var crc := CheckCrc(buffer[..4]);
      if !crc {
        ok := false;
        return;
      }
      var page := BE16(buffer[1..3]);
      request, rest := Some(ReadRequest(page)), buffer[4..];
      return;
    } else if 0x90 == buffer[0] / 0x10 * 0x10 {
      if WRITE_FRAME > |buffer| {
        return;
      }
      var crc := CheckCrc(buffer[..WRITE_FRAME]);
      if !crc {
        ok := false;
        return;
      }
      var segment := buffer[0] % 0x10;
      var page := BE16(buffer[1..3]);
      var payload := buffer[3..3 + PAGE_SIZE];
      request, rest := Some(WriteRequest(segment, page, payload)), buffer[WRITE_FRAME..];
      return;
    }
    ok := false;
    rest := [];
  }

  /** RadtelReadRequest::address: the page's byte address. */
  function ReadAddress(page: u16): (a: u32)
    ensures a % PAGE_SIZE == 0 && a / PAGE_SIZE == page
  {
    PAGE_SIZE * page
  }

  /** RadtelWriteRequest::address: segment shifted to bits 24 and up plus the page shifted by 10. */
  function WriteAddress(segment: byte, page: u16): u32
    requires segment < 0x10
  {
    segment as int * 0x100_0000 + page as int * PAGE_SIZE
  }

  /** For pages below 0x4000 the write address splits back into its segment and page. */
  lemma WriteAddressSplits(segment: byte, page: u16)
    requires segment < 0x10 && page < 0x4000
    ensures WriteAddress(segment, page) / 0x100_0000 == segment
    ensures WriteAddress(segment, page) % 0x100_0000 == ReadAddress(page)
  {
  }

  /** From page 0x4000 on the page's top bits reach the segment's: page 0x4000 of segment 0 is segment 1's page 0. */
  lemma WriteAddressOverlap()
    ensures WriteAddress(0, 0x4000) == WriteAddress(1, 0)
  {
  }

  /** The read reply's page payload: zero-padded or cut to exactly 1024 bytes. */
  function PagePayload(payload: seq<byte>): (p: seq<byte>)
    ensures |p| == PAGE_SIZE
    ensures forall i | 0 <= i < PAGE_SIZE :: p[i] == (if i < |payload| then payload[i] else 0)
  {
    if |payload| < PAGE_SIZE then payload + Zeros(PAGE_SIZE - |payload|) else payload[..PAGE_SIZE]
  }

  /** The bytes each reply's serialize appends. */
  function Encoding(response: Response): seq<byte>
  {
    match response
    case Ack => [ACK]
    case ReadResponse(page, payload) =>
      var body := [READ] + BE16Bytes(page) + PagePayload(payload);
      body + [Sum8(body)]
  }

  /**
   * serialize: appends the reply; for a read reply the checksum loop sums
   * the 1027 bytes just appended.
   */
  method Serialize(response: Response, buffer: seq<byte>) returns (out: seq<byte>, ok: bool)
    ensures ok && out == buffer + Encoding(response)
  {
    ok := true;
    match response
    case Ack =>
      out := buffer + [ACK];
    case ReadResponse(page, payload) =>
      var p := if PAGE_SIZE > |payload| then payload + Zeros(PAGE_SIZE - |payload|) else payload[..PAGE_SIZE];
      assert p == PagePayload(payload);
      var body := [READ] + BE16Bytes(page) + p;
      var startIdx := |buffer|;
      var endIdx := startIdx + 1027;
      out := buffer + body;
      assert out[startIdx..endIdx] == body;
      var crc := ChecksumRange(out, startIdx, endIdx);
      out := out + [crc];
  }

  /** The uint8_t checksum loop of serialize over buffer bytes from..to-1. */
  method ChecksumRange(data: seq<byte>, from: nat, to: nat) returns (crc: byte)
    requires from <= to <= |data|
    ensures crc == Sum8(data[from..to])
  {
    crc := 0;
    var i := from;
    while i < to
      invariant from <= i <= to
      invariant crc as int == Sum(data[from..i]) % 0x100
    {
      assert data[from..i + 1][..i - from] == data[from..i];
      crc := (crc + data[i]) % 0x100;
      i := i + 1;
    }
  }

  // ---------------------------------------------------------------------------
  // Properties of the framer
  // ---------------------------------------------------------------------------

  /** The frames a programming host sends, each with its checksum byte appended. */
  function RequestEncoding(request: Request, filler: byte): seq<byte>
    requires request.WriteRequest? ==> request.segment < 0x10 && |request.payload| == PAGE_SIZE
  {
    var body := match request
      case CommandRequest(EnterProgrammingMode) => [COMMAND, filler, 0x05, 0x10]
      case CommandRequest(LeaveProgrammingMode) => [COMMAND, filler, 0x05, 0xee]
      case ReadRequest(page) => [READ] + BE16Bytes(page)
      case WriteRequest(segment, page, payload) => [WRITE_BASE + segment] + BE16Bytes(page) + payload;
    body + [Sum8(body)]
  }

  /**
   * Every request a host sends is framed back whole, with ok set, whatever
   * follows it in the buffer; the command frame's second byte is not looked at.
   */
  lemma RequestRoundTrip(request: Request, filler: byte, tail: seq<byte>)
    requires request.WriteRequest? ==> request.segment < 0x10 && |request.payload| == PAGE_SIZE
    ensures var e := RequestEncoding(request, filler);
      Parse(e + tail) == Parsed(Some(request), |e|, true)
  {
    var e := RequestEncoding(request, filler);
    var b := e + tail;
    assert b[..|e|] == e;
    assert e[..|e| - 1] + [e[|e| - 1]] == e;
    match request {
      case CommandRequest(_) =>
        assert b[..5] == e;
      case ReadRequest(page) =>
        assert b[..4] == e && b[1..3] == e[1..3] == BE16Bytes(page);
      case WriteRequest(segment, page, payload) =>
        assert b[..WRITE_FRAME] == e;
        assert b[1..3] == e[1..3] == BE16Bytes(page);
        assert b[3..3 + PAGE_SIZE] == e[3..3 + PAGE_SIZE] == payload;
    }
  }

  /** An empty buffer or an incomplete frame waits: nothing consumed, ok stays set. */
  lemma ShortFramesWait(buffer: seq<byte>)
    requires |buffer| == 0
      || (buffer[0] == COMMAND && |buffer| < 5)
      || (buffer[0] == READ && |buffer| < 4)
      || (IsWrite(buffer[0]) && |buffer| < WRITE_FRAME)
    ensures Parse(buffer) == Parsed(None, 0, true)
  {
  }

  /** A complete frame with a bad checksum fails and consumes nothing. */
  lemma BadChecksumKeepsBuffer(buffer: seq<byte>, n: nat)
    requires |buffer| >= 1
    requires n == (if buffer[0] == COMMAND then 5 else if buffer[0] == READ then 4 else WRITE_FRAME)
    requires buffer[0] == COMMAND || buffer[0] == READ || IsWrite(buffer[0])
    requires |buffer| >= n && !CrcOk(buffer[..n])
    ensures Parse(buffer) == Parsed(None, 0, false)
  {
  }

  /**
   * An unknown first byte, or a checksummed command other than entering or
   * leaving programming mode, fails and discards the whole buffer.
   */
  lemma UnknownDiscardsBuffer(buffer: seq<byte>)
    requires |buffer| >= 1
    requires (buffer[0] != COMMAND && buffer[0] != READ && !IsWrite(buffer[0]))
          || (buffer[0] == COMMAND && |buffer| >= 5 && CrcOk(buffer[..5])
              && !(buffer[2] == 0x05 && (buffer[3] == 0x10 || buffer[3] == 0xee)))
    ensures Parse(buffer) == Parsed(None, |buffer|, false)
  {
  }

  /** Accepted frames have the sizes of the protocol: 5, 4 and 1028 bytes, and a write carries 1024 bytes. */
  lemma AcceptedFrameSizes(buffer: seq<byte>)
    requires Parse(buffer).request.Some?
    ensures var p := Parse(buffer);
      && (p.request.value.CommandRequest? ==> p.consumed == 5 && buffer[0] == COMMAND)
      && (p.request.value.ReadRequest? ==> p.consumed == 4 && buffer[0] == READ)
      && (p.request.value.WriteRequest? ==>
            p.consumed == WRITE_FRAME && |p.request.value.payload| == PAGE_SIZE
            && p.request.value.segment < 0x10 && IsWrite(buffer[0]))
      && CrcOk(buffer[..p.consumed])
  {
  }

  // ---------------------------------------------------------------------------
  // Properties of the replies
  // ---------------------------------------------------------------------------

  /** A read reply is 1028 bytes: 'R', the page, 1024 payload bytes and a checksum that checkCRC accepts. */
  lemma ReadReplyChecks(page: u16, payload: seq<byte>)
    ensures var e := Encoding(ReadResponse(page, payload));
      && |e| == WRITE_FRAME
      && e[0] == READ && BE16(e[1..3]) == page
      && e[3..3 + PAGE_SIZE] == PagePayload(payload)
      && CrcOk(e)
  {
    var e := Encoding(ReadResponse(page, payload));
    var body := [READ] + BE16Bytes(page) + PagePayload(payload);
    assert e[..|e| - 1] == body;
    assert e[1..3] == BE16Bytes(page);
  }
}
