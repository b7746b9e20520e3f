/**
 * The emulated AnyTone radio: a two-state session (Initial, Program) fed by a
 * receive buffer. Every complete request at the head of the buffer is taken
 * out and handled; replies are appended to a transmit buffer that drains as
 * the serial interface accepts bytes. Reads are served from the model ROM
 * and writes go to the image collector (Device::read and Device::write); the
 * startProgram and endProgram signals reach the collector's slots.
 */
module AnytoneDevice {
  import opened Bytes
  import opened AnytoneProtocol
  import opened ModelRomModel
  import opened ImageModel
  import opened Model

  /** Device::State; the AnyTone handler never enters Error. */
  datatype State = Initial | Program | Error

  /** Signals emitted towards the image collector, and the collector's own report. */
  datatype Signal = StartProgram | EndProgram | ImageReceived

  /** The state AnyToneDevice::handle leaves: program and end switch, nothing else does. */
  function NextState(state: State, request: Request): (s: State)
    ensures s == Program <==> request.ProgramRequest? || (state == Program && !request.EndRequest?)
    ensures s == Initial <==> request.EndRequest? || (state == Initial && !request.ProgramRequest?)
  {
    match request
    case ProgramRequest => Program
    case EndRequest => Initial
    case _ => state
  }

  /**
   * The reply AnyToneDevice::handle returns (None for its null pointer), from
   * the state before the request, the ROM's segments, and whether the
   * collector holds an image a write can go to.
   */
  function Reply(state: State, request: Request, segments: seq<Segment>, writable: bool,
                 model: seq<byte>, revision: seq<byte>): (r: Option<Response>)
    ensures request.ProgramRequest? ==> r == Some(ProgramResponse)
    ensures r.Some? && !request.ProgramRequest? ==> state == Program
    ensures request.EndRequest? ==> r.None?
    ensures r.Some? && request.ReadRequest? ==>
      r.value.ReadResponse? && r.value.address == request.address && |r.value.payload| <= request.length
    ensures request.WriteRequest? && state == Program ==>
      (r.Some? <==> writable) && (r.Some? ==> r.value == WriteResponse(request.address, |request.payload| % 0x100))
  {
    match request
    case ProgramRequest => Some(ProgramResponse)
    case EndRequest => None
    case DeviceInfoRequest => if state == Program then Some(DeviceInfoResponse(model, revision)) else None
    case ReadRequest(address, length) =>
      var found := Lookup(segments, address, length);
      if state != Program || found.None? then None else Some(ReadResponse(address, found.value))
    case WriteRequest(address, payload) =>
      if state == Program && writable then Some(WriteResponse(address, |payload| % 0x100)) else None
  }

  /**
   * In Program a read is answered exactly when a ROM segment starts at the
   * address and holds the requested length, and then with those bytes.
   */
  lemma ReadReplyIsRomContent(segments: seq<Segment>, address: u32, length: byte, writable: bool,
                              model: seq<byte>, revision: seq<byte>)
    requires ModelRomModel.Sorted(segments) && address + length < ModelRomModel.U32_RANGE
    ensures var r := Reply(Program, ReadRequest(address, length), segments, writable, model, revision);
      var k := CountBelow(segments, address);
      && (r.Some? <==> k < |segments| && segments[k].address == address && length <= |segments[k].content|)
      && (r.Some? ==> r.value == ReadResponse(address, segments[k].content[..length]))
  {
    LookupMeaning(segments, address, length);
  }

  /**
   * The signals AnyToneDevice::handle emits: startProgram on a program
   * request from Initial, endProgram on an end request from Program, and then
   * the collector's image-received report when its last image holds data.
   */
  function Emitted(state: State, request: Request, imageReady: bool): (s: seq<Signal>)
    ensures StartProgram in s <==> request.ProgramRequest? && state == Initial
    ensures EndProgram in s <==> request.EndRequest? && state == Program
    ensures ImageReceived in s <==> request.EndRequest? && state == Program && imageReady
    ensures |s| <= 2
  {
    if request.ProgramRequest? && state == Initial then [StartProgram]
    else if request.EndRequest? && state == Program then [EndProgram] + (if imageReady then [ImageReceived] else [])
    else []
  }

  /** A framed request always consumes bytes, so each round of OnBytesAvailable's loop shrinks the receive buffer. */
  lemma ParseConsumesOnRequest(buffer: seq<byte>)
    ensures Parse(buffer).request.Some? ==> Parse(buffer).consumed > 0
  {
  }

  class AnyToneDevice {
    var state: State
    var inBuffer: seq<byte>
    var outBuffer: seq<byte>
    /** Bytes the serial interface has accepted so far (the transport itself is not modelled). */
    var sent: seq<byte>
    var signals: seq<Signal>
    const model: seq<byte>
    const band: byte
    const revision: seq<byte>
    const rom: ModelRom
    const handler: ImageCollector?

    ghost predicate Valid()
      reads this, rom, handler, if handler == null then {} else handler.Repr
    {
      && state != Error
      && rom.Valid()
      && (handler != null ==> handler.Valid())
    }

    /** The objects a request may change besides the device: the collector and its images. */
    ghost function HandlerFrame(): set<object>
      reads handler
    {
      if handler == null then {} else handler.Repr
    }

    /** The collector holds an image a write can go to. */
    ghost predicate Writable()
      reads handler
    {
      handler != null && |handler.images| > 0
    }

    /** The collector's last image holds data, so endProgram reports an image. */
    ghost predicate ImageReady()
      reads handler, if handler == null then [] else handler.images
    {
      handler != null && |handler.images| > 0 && handler.images[|handler.images| - 1].elements != []
    }

    /**
     * What a request handled in state `before` does to the collector: a
     * program request from Initial starts a session, a write in Program
     * appends to the last image, and no other request changes it.
     */
    twostate predicate ImagesAfter(request: Request, before: State)
      reads handler, if handler == null then [] else handler.images
    {
      handler != null ==>
        if request.ProgramRequest? && before == Initial then handler.Started()
        else if request.WriteRequest? && before == Program then handler.WroteLast(request.address, request.payload)
        else handler.Untouched()
    }

    constructor (rom: ModelRom, handler: ImageCollector?, model: seq<byte>, band: byte, revision: seq<byte>)
      requires rom.Valid() && (handler != null ==> handler.Valid())
      ensures Valid()
      ensures state == Initial && inBuffer == [] && outBuffer == [] && sent == [] && signals == []
      ensures this.rom == rom && this.handler == handler
      ensures this.model == model && this.band == band && this.revision == revision
    {
      this.rom, this.handler := rom, handler;
      this.model, this.band, this.revision := model, band, revision;
      state, inBuffer, outBuffer, sent, signals := Initial, [], [], [], [];
    }

    /** A program request: startProgram fires only when leaving Initial. */
    method HandleProgram()
      requires Valid()
      modifies this, if handler == null then {} else {handler}
      ensures Valid() && state == Program
      ensures signals == old(signals) + (if old(state) == Initial then [StartProgram] else [])
      ensures handler != null ==> if old(state) == Initial then handler.Started() else handler.Untouched()
      ensures fresh(HandlerFrame() - old(HandlerFrame()))
      ensures inBuffer == old(inBuffer) && outBuffer == old(outBuffer) && sent == old(sent)
    {
      if state == Initial {
        if handler != null {
          handler.StartProgram();
        }
        signals := signals + [StartProgram];
      }
      state := Program;
    }

    /** An end request: endProgram fires only when leaving Program; the collector may report an image. */
    method HandleEnd()
      requires Valid()
      modifies this
      ensures Valid() && state == Initial
      ensures old(state) != Program ==> signals == old(signals)
      ensures old(state) == Program ==>
        var received := handler != null && |handler.images| > 0 && handler.images[|handler.images| - 1].elements != [];
        signals == old(signals) + [EndProgram] + (if received then [ImageReceived] else [])
      ensures inBuffer == old(inBuffer) && outBuffer == old(outBuffer) && sent == old(sent)
    {
      if state == Program {
        signals := signals + [EndProgram];
        if handler != null {
          var received := handler.EndProgram();
          if received {
            signals := signals + [ImageReceived];
          }
        }
      }
      state := Initial;
    }

    /** A read request in Program: Device::read consults the ROM; a failed read gives no reply. */
    method HandleRead(address: u32, length: byte) returns (response: Option<Response>)
      requires Valid()
      ensures response == match Lookup(rom.segments, address, length)
                          case None => None
                          case Some(payload) => Some(ReadResponse(address, payload))
    {
      var payload := rom.Read(address, length);
      response := None;
      if payload.Some? {
        response := Some(ReadResponse(address, payload.value));
      }
    }

    /** A write request in Program: Device::write fails without a collector or an open image. */
    method HandleWrite(address: u32, payload: seq<byte>) returns (response: Option<Response>)
      requires Valid()
      modifies if handler == null then {} else {handler.Last()}
      ensures Valid()
      ensures handler != null ==> handler.images == old(handler.images)
      ensures handler != null ==> handler.WroteLast(address, payload)
      ensures var written := handler != null && |handler.images| > 0;
        && (written ==> response == Some(WriteResponse(address, |payload| % 0x100)))
        && (!written ==> response == None)
      ensures handler != null && |handler.images| > 0 ==>
        handler.images[|handler.images| - 1].elements
          == AppendedImage(old(handler.images[|handler.images| - 1].elements), address, payload)
    {
      var ok := false;
      if handler != null {
        ok := handler.Write(address, payload);
      }
      response := if ok then Some(WriteResponse(address, |payload| % 0x100)) else None;
    }

    /**
     * AnyToneDevice::handle. Program is accepted in any state and answered;
     * device info, read and write are answered only in Program; End returns
     * to Initial without a reply; nothing else changes the state.
     */
    method Handle(request: Request) returns (response: Option<Response>)
      requires Valid()
      modifies this, HandlerFrame()
      ensures Valid() && state != Error
      ensures fresh(HandlerFrame() - old(HandlerFrame()))
      ensures inBuffer == old(inBuffer) && outBuffer == old(outBuffer) && sent == old(sent)
      ensures state == NextState(old(state), request)
      ensures response == Reply(old(state), request, rom.segments, old(Writable()), model, revision)
      ensures signals == old(signals) + Emitted(old(state), request, old(ImageReady()))
      ensures ImagesAfter(request, old(state))
      ensures request.ProgramRequest? ==> state == Program && response == Some(ProgramResponse)
      ensures request.EndRequest? ==> state == Initial && response == None
      ensures !request.ProgramRequest? && !request.EndRequest? ==> state == old(state) && signals == old(signals)
      ensures !request.ProgramRequest? && !request.EndRequest? && old(state) != Program ==> response == None
      ensures request.DeviceInfoRequest? && old(state) == Program ==>
        response == Some(DeviceInfoResponse(model, revision))
      ensures request.ReadRequest? && old(state) == Program ==>
        response == match Lookup(rom.segments, request.address, request.length)
                    case None => None
                    case Some(payload) => Some(ReadResponse(request.address, payload))
      ensures request.WriteRequest? && old(state) == Program ==>
        response == (if handler != null && |handler.images| > 0
                     then Some(WriteResponse(request.address, |request.payload| % 0x100)) else None)
    {
      response := None;
      if request.ProgramRequest? {
        HandleProgram();
        response := Some(ProgramResponse);
      } else if state == Program && request.DeviceInfoRequest? {
        response := Some(DeviceInfoResponse(model, revision));
      } else if state == Program && request.ReadRequest? {
        response := HandleRead(request.address, request.length);
      } else if state == Program && request.WriteRequest? {
        response := HandleWrite(request.address, request.payload);
      } else if request.EndRequest? {
        HandleEnd();
      }
    }

    /**
     * AnyToneDevice::onBytesWritten: hands the transmit buffer to the
     * interface, which reports how many bytes it took (negative on error),
     * and drops exactly that many bytes from the head.
     */
    method OnBytesWritten(written: int)
      modifies this
      ensures var n := if written <= 0 then 0 else Min(written, |old(outBuffer)|);
        && outBuffer == old(outBuffer)[n..]
        && sent == old(sent) + old(outBuffer)[..n]
      ensures sent + outBuffer == old(sent) + old(outBuffer)
      ensures state == old(state) && inBuffer == old(inBuffer) && signals == old(signals)
    {
      if |outBuffer| == 0 {
        return;
      }
      var n := if written <= 0 then 0 else Min(written, |outBuffer|);
      sent := sent + outBuffer[..n];
      outBuffer := outBuffer[n..];
    }

    /**
     * The body of the request loop: handle, then serialize any reply and
     * offer it to the interface. The reply, state, signals and collector are
     * those of Handle.
     */
    method Respond(request: Request, transport: seq<byte> -> int) returns (response: Option<Response>)
      requires Valid()
      modifies this, HandlerFrame()
      ensures Valid()
      ensures fresh(HandlerFrame() - old(HandlerFrame()))
      ensures inBuffer == old(inBuffer)
      ensures state == NextState(old(state), request)
      ensures response == Reply(old(state), request, rom.segments, old(Writable()), model, revision)
      ensures signals == old(signals) + Emitted(old(state), request, old(ImageReady()))
      ensures ImagesAfter(request, old(state))
      ensures sent + outBuffer == old(sent) + old(outBuffer) + (if response.Some? then Encoding(response.value) else [])
    {
      response := Handle(request);
      if response.Some? {
        Transmit(response.value, transport);
      }
    }

    /** Serializes a reply into the transmit buffer and offers the buffer to the interface. */
    method Transmit(response: Response, transport: seq<byte> -> int)
      requires Valid()
      modifies this
      ensures Valid()
      ensures sent + outBuffer == old(sent) + old(outBuffer) + Encoding(response)
      ensures state == old(state) && inBuffer == old(inBuffer) && signals == old(signals)
    {
      outBuffer := Serialize(response, outBuffer);
      OnBytesWritten(transport(outBuffer));
    }

    /**
     * One framing step of onBytesAvailable: takes the request at the head of
     * the receive buffer out of it (a checksum mismatch is only logged).
     */
    method NextRequest() returns (request: Option<Request>, ghost consumed: nat)
      requires Valid()
      modifies this
      ensures Valid() && HandlerFrame() == old(HandlerFrame())
      ensures request == Parse(old(inBuffer)).request
      ensures consumed == Parse(old(inBuffer)).consumed && inBuffer == old(inBuffer)[consumed..]
      ensures request.Some? ==> consumed > 0
      ensures request.None? ==> Parse(inBuffer).request.None?
      ensures state == old(state) && outBuffer == old(outBuffer) && sent == old(sent) && signals == old(signals)
    {
      var rest, crcMismatch;
      request, rest, crcMismatch := FromBuffer(inBuffer);
      ParseConsumesOnRequest(inBuffer);
      consumed := Parse(inBuffer).consumed;
      inBuffer := rest;
    }

    /**
     * AnyToneDevice::onBytesAvailable: appends the incoming bytes, then frames
     * and handles requests for as long as the parser finds one; each reply is
     * serialized and offered to the interface (`transport` says how many bytes
     * it accepts from a given transmit buffer).
     */
    method OnBytesAvailable(incoming: seq<byte>, transport: seq<byte> -> int)
      requires Valid()
      modifies this, HandlerFrame()
      ensures Valid()
      ensures Parse(inBuffer).request.None?
      ensures exists k | 0 <= k <= |old(inBuffer) + incoming| :: inBuffer == (old(inBuffer) + incoming)[k..]
      ensures old(sent) + old(outBuffer) <= sent + outBuffer
    {
      inBuffer := inBuffer + incoming;
      ghost var all := inBuffer;
      ghost var before := sent + outBuffer;
      ghost var taken := 0;
      while true
        invariant Valid()
        invariant 0 <= taken <= |all| && inBuffer == all[taken..]
        invariant before <= sent + outBuffer
        invariant fresh(HandlerFrame() - old(HandlerFrame()))
        decreases |inBuffer|
      {
        var request;
        ghost var consumed;
        request, consumed := NextRequest();
        assert inBuffer == all[taken + consumed..];
        taken := taken + consumed;
        if request.None? {
          break;
        }
        var response := Respond(request.value, transport);
      }
    }
  }
}
