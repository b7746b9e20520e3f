/**
 * The replies of the Rust emulator. Each reply is a packet plus its type. The
 * read reply differs from the C++ one: it carries no length byte and no
 * checksum, and it truncates the payload to 16 bytes.
 */
module RustResponse {
  import opened Bytes
  import AnytoneProtocol

  datatype ResponseType = ProgramOk | DeviceInfo | Read

  datatype Response = Response(responseType: ResponseType, packet: seq<byte>)

  /** Response::program_ok: the fixed packet "QX" ACK. */
  function ProgramOkResponse(): (r: Response)
    ensures r.responseType == ProgramOk
    ensures r.packet == [0x51, 0x58, 0x06]
  {
    Response(ProgramOk, Ascii("QX") + [0x06])
  }

  /**
   * Response::device_info: a 16-byte zero-filled packet with "ID" at 0, at most
   * six model bytes at 2, at most six version bytes at 9 and ACK at 15.
   */
  function DeviceInfoResponse(model: seq<byte>, hwVersion: seq<byte>): (r: Response)
    ensures r.responseType == DeviceInfo
    ensures |r.packet| == 16
    ensures r.packet[..2] == Ascii("ID") && r.packet[15] == 0x06
    ensures forall i | 0 <= i < Min(|model|, 6) :: r.packet[2 + i] == model[i]
    ensures forall i | 0 <= i < Min(|hwVersion|, 6) :: r.packet[9 + i] == hwVersion[i]
    ensures forall i | 2 + Min(|model|, 6) <= i < 9 :: r.packet[i] == 0
    ensures forall i | 9 + Min(|hwVersion|, 6) <= i < 15 :: r.packet[i] == 0
  {
    var n, m := Min(|model|, 6), Min(|hwVersion|, 6);
    Response(DeviceInfo, Ascii("ID") + model[..n] + Zeros(7 - n) + hwVersion[..m] + Zeros(6 - m) + [0x06])
  }

  /**
   * Response::read: 'W', the big-endian address, at most 16 payload bytes and
   * ACK; min(16, |payload|) + 6 bytes in all.
   */
  function ReadResponse(address: u32, payload: seq<byte>): (r: Response)
    ensures r.responseType == Read
    ensures |r.packet| == Min(16, |payload|) + 6
    ensures r.packet[0] == 0x57 && BE32(r.packet[1..5]) == address
    ensures r.packet[5..5 + Min(16, |payload|)] == payload[..Min(16, |payload|)]
    ensures r.packet[|r.packet| - 1] == 0x06
  {
    var n := Min(16, |payload|);
    var packet := [0x57] + BE32Bytes(address) + payload[..n] + [0x06];
    assert packet[1..5] == BE32Bytes(address);
    assert packet[5..5 + n] == payload[..n];
    Response(Read, packet)
  }

  /**
   * The two encoders of a read reply: for payloads of at most 16 bytes, the C++
   * reply is the Rust packet with a length byte inserted after the address and
   * a checksum inserted before the final ACK.
   */
  lemma ReadReplyEncodersDiffer(address: u32, payload: seq<byte>)
    requires |payload| <= 16
    ensures var rust := ReadResponse(address, payload).packet;
      var cpp := AnytoneProtocol.Encoding(AnytoneProtocol.ReadResponse(address, payload));
      && |cpp| == |rust| + 2
      && cpp[..5] == rust[..5]
      && cpp[5] == |payload|
      && cpp[6..6 + |payload|] == rust[5..5 + |payload|]
      && cpp[|cpp| - 1] == rust[|rust| - 1]
  {
    var rust := ReadResponse(address, payload).packet;
    AnytoneProtocol.ReadReplyLayout(address, payload);
    assert rust == [0x57] + BE32Bytes(address) + payload + [0x06];
    assert rust[1..5] == BE32Bytes(address);
  }
}
