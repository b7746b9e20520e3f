/**
 * The AnyTone serial programming protocol as implemented by the C++ emulator:
 * requests are framed out of a receive buffer that grows as bytes arrive, and
 * replies are appended to a transmit buffer. Read replies carry an additive
 * checksum: the sum of the address, length and payload bytes modulo 256.
 */
module AnytoneProtocol {
  import opened Bytes

  /** "PROGRAM", "END", "QX" and "ID" in ASCII. */
  const PROGRAM: seq<byte> := [0x50, 0x52, 0x4f, 0x47, 0x52, 0x41, 0x4d]
  const END: seq<byte> := [0x45, 0x4e, 0x44]
  const QX: seq<byte> := [0x51, 0x58]
  const ID: seq<byte> := [0x49, 0x44]
  const ACK: byte := 0x06
  const DEVICE_INFO: byte := 0x02
  const READ: byte := 0x52   // 'R'
  const WRITE: byte := 0x57  // 'W'

  datatype Request =
    | ProgramRequest
    | EndRequest
    | DeviceInfoRequest
    | ReadRequest(address: u32, length: byte)
    | WriteRequest(address: u32, payload: seq<byte>)

  datatype Response =
    | ProgramResponse
    | DeviceInfoResponse(model: seq<byte>, hwVersion: seq<byte>)
    | ReadResponse(address: u32, payload: seq<byte>)
    | WriteResponse(address: u32, length: byte)

  /**
   * What one call of the framer finds at the head of the buffer: the request
   * (None for the source's null pointer), how many bytes it removes, and
   * whether the write-frame checksum matched (a mismatch is only logged).
   */
  datatype Parsed = Parsed(request: Option<Request>, consumed: nat, checksumOk: bool)

  /** The checksummed part of a write frame that declares `length` payload bytes. */
  function WriteBody(buffer: seq<byte>, length: nat): seq<byte>
    requires 6 + length <= |buffer|
  {
    buffer[1..6 + length]
  }

  /**
   * The framing decision: the branches are tried in the source's order and
   * only a complete frame is consumed. A device-info request removes up to
   * seven bytes, not one.
   */
  function Parse(buffer: seq<byte>): (p: Parsed)
    ensures p.consumed <= |buffer|
    ensures p.request.None? ==> p.consumed == 0
    ensures !p.checksumOk ==> p.request.Some? && p.request.value.WriteRequest?
  {
    if StartsWith(buffer, PROGRAM) then Parsed(Some(ProgramRequest), 7, true)
    else if StartsWith(buffer, END) then Parsed(Some(EndRequest), 3, true)
    else if |buffer| >= 1 && buffer[0] == DEVICE_INFO then
      Parsed(Some(DeviceInfoRequest), Min(7, |buffer|), true)
    else if |buffer| >= 6 && buffer[0] == READ then
      Parsed(Some(ReadRequest(BE32(buffer[1..5]), buffer[5])), 6, true)
    else if |buffer| >= 8 && buffer[0] == WRITE then
      var length := buffer[5] as nat;
      if |buffer| < length + 8 then Parsed(None, 0, true)
      else
        Parsed(Some(WriteRequest(BE32(buffer[1..5]), buffer[6..6 + length])), 8 + length,
               buffer[6 + length] == Sum8(WriteBody(buffer, length)))
    else Parsed(None, 0, true)
  }

  /** The uint8_t checksum loop: the sum of all bytes modulo 256. */
  method Crc8(data: seq<byte>) returns (crc: byte)
    ensures crc == Sum(data) % 0x100
  {
    crc := 0;
    var i := 0;
    while i < |data|
      invariant 0 <= i <= |data|
      invariant crc == Sum(data[..i]) % 0x100
    {
      assert data[..i + 1][..i] == data[..i];
      crc := (crc + data[i]) % 0x100;
      i := i + 1;
    }
    assert data[..i] == data;
  }

  /**
   * AnytoneRequest::fromBuffer: removes the recognised frame from the head of
   * the buffer and returns it; on a write frame it recomputes the checksum
   * and reports a mismatch, which the source only logs.
   */
  method FromBuffer(buffer: seq<byte>) returns (request: Option<Request>, rest: seq<byte>, crcMismatch: bool)
    ensures request == Parse(buffer).request
    ensures rest == buffer[Parse(buffer).consumed..]
    ensures crcMismatch == !Parse(buffer).checksumOk
  {
    rest, crcMismatch := buffer, false;
    if StartsWith(buffer, PROGRAM) {
      request, rest := Some(ProgramRequest), buffer[7..];
    } else if StartsWith(buffer, END) {
      request, rest := Some(EndRequest), buffer[3..];
    } else if |buffer| >= 1 && buffer[0] == DEVICE_INFO {
      request, rest := Some(DeviceInfoRequest), buffer[Min(7, |buffer|)..];
    } else if |buffer| >= 6 && buffer[0] == READ {
      request, rest := Some(ReadRequest(BE32(buffer[1..5]), buffer[5])), buffer[6..];
    } else if |buffer| >= 8 && buffer[0] == WRITE {
      var length := buffer[5] as nat;
      if |buffer| < length + 8 {
        request := None;
      } else {
        var crc := Crc8(buffer[1..6 + length]);
        crcMismatch := buffer[6 + length] != crc;
        request, rest := Some(WriteRequest(BE32(buffer[1..5]), buffer[6..6 + length])), buffer[8 + length..];
      }
    } else {
      request := None;
    }
  }

  /** The bytes each reply's serialize appends. */
  function Encoding(response: Response): seq<byte>
  {
    match response
    case ProgramResponse => QX + [ACK]
    case DeviceInfoResponse(model, hwVersion) =>
      ID + model[..Min(6, |model|)] + [0] + hwVersion[..Min(6, |hwVersion|)] + [ACK]
    case ReadResponse(address, payload) =>
      var body := BE32Bytes(address) + [|payload| % 0x100] + payload;
      [WRITE] + body + [Sum8(body)] + [ACK]
    case WriteResponse(_, _) => [ACK]
  }

  /** AnytoneResponse::serialize: appends the reply to the transmit buffer. */
  method Serialize(response: Response, buffer: seq<byte>) returns (out: seq<byte>)
    ensures out == buffer + Encoding(response)
  {
    match response
    case ProgramResponse =>
      out := buffer + (QX + [ACK]);
    case DeviceInfoResponse(model, hwVersion) =>
      var reply := ID + model[..Min(6, |model|)] + [0];
      reply := reply + hwVersion[..Min(6, |hwVersion|)] + [ACK];
      out := buffer + reply;
    case ReadResponse(address, payload) =>
      var body := BE32Bytes(address) + [|payload| % 0x100] + payload;
      var reply := [WRITE] + body;
      assert reply[1..] == body;
      var crc := Crc8(reply[1..]);
      reply := reply + [crc] + [ACK];
      assert reply == Encoding(response);
      out := buffer + reply;
    case WriteResponse(_, _) =>
      out := buffer + [ACK];
  }

  // ---------------------------------------------------------------------------
  // Properties of the framer
  // ---------------------------------------------------------------------------

  /** "PROGRAM" and "END" are recognised first and consume exactly their own bytes. */
  lemma ProgramAndEndFrames(buffer: seq<byte>)
    ensures StartsWith(buffer, PROGRAM) ==> Parse(buffer) == Parsed(Some(ProgramRequest), 7, true)
    ensures !StartsWith(buffer, PROGRAM) && StartsWith(buffer, END) ==>
              Parse(buffer) == Parsed(Some(EndRequest), 3, true)
  {
  }

  /** A device-info request swallows up to six bytes that follow its 0x02. */
  lemma DeviceInfoConsumesUpToSeven(buffer: seq<byte>)
    requires |buffer| >= 1 && buffer[0] == DEVICE_INFO
    ensures Parse(buffer).request == Some(DeviceInfoRequest)
    ensures Parse(buffer).consumed == Min(7, |buffer|)
    ensures |buffer| > 1 ==> Parse(buffer).consumed > 1
  {
    assert !StartsWith(buffer, PROGRAM) && !StartsWith(buffer, END);
  }

  /** A read request: big-endian address in bytes 1-4, length in byte 5, six bytes consumed. */
  lemma ReadFrame(buffer: seq<byte>)
    requires |buffer| >= 6 && buffer[0] == READ
    ensures Parse(buffer) == Parsed(Some(ReadRequest(BE32(buffer[1..5]), buffer[5])), 6, true)
  {
    assert !StartsWith(buffer, PROGRAM) && !StartsWith(buffer, END);
  }

  /**
   * A write frame is taken only once all len+8 bytes are there; then the payload
   * is bytes 6..6+len, and a wrong checksum does not stop the request.
   */
  lemma WriteFrame(buffer: seq<byte>, n: nat)
    requires |buffer| >= 8 && buffer[0] == WRITE
    requires n == buffer[5] as int
    ensures |buffer| < n + 8 ==> Parse(buffer) == Parsed(None, 0, true)
    ensures |buffer| >= n + 8 ==>
              && Parse(buffer).request == Some(WriteRequest(BE32(buffer[1..5]), buffer[6..6 + n]))
              && Parse(buffer).consumed == 8 + n
              && (Parse(buffer).checksumOk <==> buffer[6 + n] == Sum8(buffer[1..6 + n]))
  {
    assert !StartsWith(buffer, PROGRAM) && !StartsWith(buffer, END);
  }

  /** Anything unrecognised, and any partial frame, leaves the buffer as it is. */
  lemma UnknownLeavesBuffer(buffer: seq<byte>)
    requires !StartsWith(buffer, PROGRAM) && !StartsWith(buffer, END)
    requires |buffer| == 0 || (buffer[0] != DEVICE_INFO && buffer[0] != READ && buffer[0] != WRITE)
    ensures Parse(buffer) == Parsed(None, 0, true)
  {
  }

  /** Concretely: a device-info byte followed by "PROGRAM" loses the first six bytes of it. */
  lemma DeviceInfoSwallowsProgram()
    ensures Parse([DEVICE_INFO] + PROGRAM) == Parsed(Some(DeviceInfoRequest), 7, true)
    ensures ([DEVICE_INFO] + PROGRAM)[7..] == Ascii("M")
  {
    assert !StartsWith([DEVICE_INFO] + PROGRAM, PROGRAM);
    assert !StartsWith([DEVICE_INFO] + PROGRAM, END);
  }

  // ---------------------------------------------------------------------------
  // Properties of the replies
  // ---------------------------------------------------------------------------

  /** Layout of the read reply: 'W', address, length byte, payload, checksum, ACK. */
  lemma ReadReplyLayout(address: u32, payload: seq<byte>)
    ensures var e := Encoding(ReadResponse(address, payload));
      && |e| == 8 + |payload|
      && e[0] == WRITE && BE32(e[1..5]) == address && e[5] == |payload| % 0x100
      && e[6..6 + |payload|] == payload
      && e[6 + |payload|] == Sum8(e[1..6 + |payload|])
      && e[7 + |payload|] == ACK
  {
    var body := BE32Bytes(address) + [|payload| % 0x100] + payload;
    var e := Encoding(ReadResponse(address, payload));
    assert e == [WRITE] + body + [Sum8(body)] + [ACK];
    assert e[1..6 + |payload|] == body;
    assert e[1..5] == BE32Bytes(address);
  }

  /**
   * The read reply is itself a complete write frame: framing it (with anything
   * after it) gives back the address and payload, with a matching checksum.
   */
  lemma ReadReplyFramesAsWrite(address: u32, payload: seq<byte>, tail: seq<byte>)
    requires |payload| < 0x100
    ensures Parse(Encoding(ReadResponse(address, payload)) + tail)
         == Parsed(Some(WriteRequest(address, payload)), 8 + |payload|, true)
  {
    var e := Encoding(ReadResponse(address, payload));
    ReadReplyLayout(address, payload);
    var buffer := e + tail;
    assert buffer[..|e|] == e;
    assert buffer[0] == WRITE && buffer[5] == |payload|;
    assert buffer[1..5] == e[1..5];
    assert buffer[6..6 + |payload|] == e[6..6 + |payload|];
    assert buffer[1..6 + |payload|] == e[1..6 + |payload|];
    WriteFrame(buffer, |payload|);
  }

  /** The other replies: "QX"+ACK, a lone ACK, and the device-information block. */
  lemma FixedReplies(address: u32, length: byte, model: seq<byte>, hwVersion: seq<byte>)
    ensures Encoding(ProgramResponse) == [0x51, 0x58, ACK]
    ensures Encoding(WriteResponse(address, length)) == [ACK]
    ensures var e := Encoding(DeviceInfoResponse(model, hwVersion));
      var m := Min(6, |model|);
      && |e| == 4 + m + Min(6, |hwVersion|)
      && e[..2] == Ascii("ID") && e[2..2 + m] == model[..m] && e[2 + m] == 0
      && e[3 + m..|e| - 1] == hwVersion[..Min(6, |hwVersion|)] && e[|e| - 1] == ACK
  {
    var m := Min(6, |model|);
    var e := Encoding(DeviceInfoResponse(model, hwVersion));
    assert e == ID + model[..m] + [0] + hwVersion[..Min(6, |hwVersion|)] + [ACK];
    assert e[3 + m..|e| - 1] == hwVersion[..Min(6, |hwVersion|)];
  }
}
