/**
 * The Rust device handler for the DJ-MD5X: a fixed identity, a fixed table of
 * sixteen 16-byte blocks from 0x02fa0000 to 0x02fa00f0 answering reads, and
 * writes forwarded to an optional dump writer.
 */
module Djmd5x {
  import opened Bytes
  import opened HexWriterModel

  datatype HandlerError = UnknownAddress | NoWriter | WriterFailed(cause: IoError)

  const TABLE_BASE: u32 := 0x02fa0000

  /** DeviceHandler::model and ::version: six bytes each. */
  function ModelId(): (r: seq<byte>)
    ensures r == [0x4a, 0x4d, 0x44, 0x35, 0x58, 0x00]
  {
    Ascii("JMD5X") + [0]
  }

  function VersionId(): (r: seq<byte>)
    ensures r == [0x56, 0x31, 0x30, 0x30, 0x00, 0x00]
  {
    Ascii("V100") + [0, 0]
  }

  /** Block 0x02fa0010 starts with the radio name "D878UV". */
  const BLOCK_00: seq<byte> := [0x00, 0x00, 0x00, 0x00, 0x01, 0x01, 0x01, 0x00, 0x00, 0x01, 0x01, 0x20, 0x20, 0x20, 0x20, 0xff]
  const BLOCK_10: seq<byte> := [0x44, 0x38, 0x37, 0x38, 0x55, 0x56, 0x00, 0x01, 0x00, 0xff, 0xff, 0xff, 0xff, 0xff, 0xff, 0xff]
  const BLOCK_20: seq<byte> := [0xff, 0xff, 0xff, 0xff, 0x00, 0x00, 0xff, 0xff, 0x00, 0x00, 0x00, 0x00, 0x00, 0x00, 0x00, 0x00]
  const BLOCK_50: seq<byte> := [0x31, 0x32, 0x33, 0x34, 0x35, 0x36, 0x37, 0x38, 0xff, 0xff, 0xff, 0xff, 0xff, 0xff, 0xff, 0xff]

  /** DeviceHandler::read: the table lookup; any other address is an error. */
  function Read(address: u32): Result<seq<byte>, HandlerError>
  {
    if address == 0x02fa0000 then Ok(BLOCK_00)
    else if address == 0x02fa0010 then Ok(BLOCK_10)
    else if address == 0x02fa0020 then Ok(BLOCK_20)
    else if address == 0x02fa0050 then Ok(BLOCK_50)
    else if address in {0x02fa0030, 0x02fa0040, 0x02fa0060, 0x02fa0070, 0x02fa0080, 0x02fa0090,
                        0x02fa00a0, 0x02fa00b0, 0x02fa00c0, 0x02fa00d0, 0x02fa00e0, 0x02fa00f0}
    then Ok(Zeros(16))
    else Err(UnknownAddress)
  }

  /**
   * read succeeds exactly on the sixteen 16-byte-aligned addresses from
   * 0x02fa0000 to 0x02fa00f0, always with 16 bytes; everything else is
   * "Unknown address.".
   */
  lemma ReadDomain(address: u32)
    ensures Read(address).Ok? <==>
      TABLE_BASE <= address <= TABLE_BASE + 0xf0 && (address - TABLE_BASE) % 0x10 == 0
    ensures Read(address).Ok? ==> |Read(address).value| == 16
    ensures Read(address).Err? ==> Read(address).error == UnknownAddress
  {
  }

  class DJMD5X {
    const writer: HexWriter?

    constructor (writer: HexWriter?)
      ensures this.writer == writer
    {
      this.writer := writer;
    }

    /** DeviceHandler::write: "No writer specified." without a writer, else the writer's outcome. */
    method Write(address: u32, payload: seq<byte>, separatorOk: bool, lineOk: bool) returns (r: Result<(), HandlerError>)
      requires |payload| == 16
      modifies writer
      ensures writer == null ==> r == Err(NoWriter)
      ensures writer != null ==> (r.Ok? <==> (old(writer.currentAddress) == address || separatorOk) && lineOk)
      ensures writer != null && r.Err? ==> r == Err(WriterFailed(IoError))
      ensures writer != null && r.Ok? ==>
        writer.output == old(writer.output) + (if old(writer.currentAddress) != address then Separator() else "")
                         + DataLine(address, payload)
      ensures writer != null && r.Err? ==>
        writer.output == old(writer.output) + (if old(writer.currentAddress) != address && separatorOk then Separator() else "")
      ensures writer != null && r.Ok? ==> writer.currentAddress == (address + 16) % 0x1_0000_0000
      ensures writer != null && r.Err? ==> writer.currentAddress == old(writer.currentAddress)
      ensures writer != null ==> writer.counter == old(writer.counter) && writer.filename == old(writer.filename)
    {
      if writer == null {
        return Err(NoWriter);
      }
      var w := writer.Write(address, payload, separatorOk, lineOk);
      if w.Err? {
        return Err(WriterFailed(w.error));
      }
      r := Ok(());
    }

    /** DeviceHandler::end: rotates the dump file once if there is a writer; Ok otherwise. */
    method End(ioOk: bool) returns (r: Result<(), HandlerError>)
      modifies writer
      ensures writer == null ==> r == Ok(())
      ensures writer != null ==> writer.counter == old(writer.counter) + 1
      ensures writer != null ==> (r.Ok? <==> ioOk) && (!ioOk ==> r == Err(WriterFailed(IoError)))
      ensures writer != null && ioOk ==> writer.filename == FileName(writer.prefix, writer.counter) && writer.output == ""
      ensures writer != null && !ioOk ==> writer.filename == old(writer.filename) && writer.output == old(writer.output)
      ensures writer != null ==> writer.currentAddress == old(writer.currentAddress)
    {
      if writer != null {
        var w := writer.Reset(ioOk);
        if w.Err? {
          return Err(WriterFailed(w.error));
        }
      }
      r := Ok(());
    }
  }
}
