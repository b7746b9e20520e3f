/**
 * The Rust dump writer: every 16-byte write becomes one text line
 * "aaaaaaaa:  xx xx ... xx" in the current dump file, preceded by a dashed
 * separator line whenever the write does not continue where the previous one
 * ended. reset starts the next numbered file. The file system is represented
 * by the text of the current file and by an `ioOk` argument that says whether
 * the operating system accepts the call's file operation.
 */
module HexWriterModel {
  import opened Bytes
  import opened Numerals

  datatype IoError = IoError

  // ---------------------------------------------------------------------------
  // Text formatting
  // ---------------------------------------------------------------------------

  /** Rust's `{:0wx}` for a value below 16^w: exactly w lower-case hex digits. */
  function Hex(x: nat, width: nat): (s: string)
    ensures |s| == width
  {
    if width == 0 then "" else Hex(x / 16, width - 1) + [HexDigit(x % 16)]
  }

  /** The hex field reads back as the value it formats. */
  lemma {:induction false} HexRoundTrip(x: nat, width: nat)
    requires x < Pow(16, width)
    ensures DigitsValue(Hex(x, width), 16) == x
  {
    if width > 0 {
      var s := Hex(x, width);
      assert s[..|s| - 1] == Hex(x / 16, width - 1);
      HexRoundTrip(x / 16, width - 1);
    }
  }

  /** Rust's `{:0w}`: at least `width` decimal digits, zero padded. */
  function Decimal(n: nat, width: nat): (s: string)
    ensures |s| >= width && |s| >= 1
    decreases n + width
  {
    if n < 10 && width <= 1 then [DecDigit(n)]
    else Decimal(n / 10, if width == 0 then 0 else width - 1) + [DecDigit(n % 10)]
  }

  /** The decimal field reads back as its value, and is exactly `width` digits below 10^width. */
  lemma {:induction false} DecimalRoundTrip(n: nat, width: nat)
    ensures DigitsValue(Decimal(n, width), 10) == n
    ensures width >= 1 && n < Pow(10, width) ==> |Decimal(n, width)| == width
    decreases n + width
  {
    if !(n < 10 && width <= 1) {
      var s := Decimal(n, width);
      var w' := if width == 0 then 0 else width - 1;
      assert s[..|s| - 1] == Decimal(n / 10, w');
      if width >= 2 && n < Pow(10, width) {
        assert n / 10 < Pow(10, w');
      }
      DecimalRoundTrip(n / 10, w');
    }
  }

  /** The name of the counter-th dump file: prefix, four-digit counter, ".hex". */
  function FileName(prefix: string, counter: nat): string
  {
    prefix + Decimal(counter, 4) + ".hex"
  }

  /**
   * Below 10000 the counter takes exactly four digits, so the name is the
   * prefix, four digits that read back as the counter, and ".hex".
   */
  lemma FileNameLayout(prefix: string, counter: nat)
    requires counter < 10000
    ensures var name := FileName(prefix, counter);
      && |name| == |prefix| + 8
      && name[..|prefix|] == prefix
      && DigitsValue(name[|prefix|..|prefix| + 4], 10) == counter
      && name[|prefix| + 4..] == ".hex"
  {
    assert Pow(10, 4) == 10000;
    DecimalRoundTrip(counter, 4);
    var name := FileName(prefix, counter);
    assert name[|prefix|..|prefix| + 4] == Decimal(counter, 4);
  }

  /** The separator: 56 dashes and a newline. */
  function Separator(): (s: string)
    ensures |s| == 57 && s[56] == '\n' && forall i | 0 <= i < 56 :: s[i] == '-'
  {
    Dashes(56) + "\n"
  }

  function Dashes(n: nat): (s: string)
    ensures |s| == n && forall i | 0 <= i < n :: s[i] == '-'
  {
    if n == 0 then "" else Dashes(n - 1) + "-"
  }

  /** The fold over the bytes: " xx" per byte. */
  function Columns(data: seq<byte>): (s: string)
    ensures |s| == 3 * |data|
  {
    if data == [] then "" else " " + Hex(data[0], 2) + Columns(data[1..])
  }

  lemma {:induction false} ColumnsAt(data: seq<byte>, i: nat)
    requires i < |data|
    ensures Columns(data)[3 * i] == ' ' && Columns(data)[3 * i + 1..3 * i + 3] == Hex(data[i], 2)
  {
    var c, t := Columns(data), Columns(data[1..]);
    assert c == " " + Hex(data[0], 2) + t;
    if i > 0 {
      ColumnsAt(data[1..], i - 1);
      assert data[1..][i - 1] == data[i];
      assert c[3 * i] == t[3 * (i - 1)];
      assert c[3 * i + 1..3 * i + 3] == t[3 * (i - 1) + 1..3 * (i - 1) + 3];
    }
  }

  /** One dump line: the address in eight hex digits, ": ", the columns and a newline. */
  function DataLine(address: u32, data: seq<byte>): string
  {
    Hex(address, 8) + ": " + Columns(data) + "\n"
  }

  /**
   * A 16-byte dump line is 59 characters; its address field and each byte
   * column read back as the address and the byte.
   */
  lemma DataLineLayout(address: u32, data: seq<byte>, i: nat)
    requires |data| == 16 && i < 16
    ensures var line := DataLine(address, data);
      && |line| == 59
      && DigitsValue(line[..8], 16) == address
      && line[8..11] == ":  "
      && DigitsValue(line[11 + 3 * i..13 + 3 * i], 16) == data[i]
      && line[58] == '\n'
  {
    var line := DataLine(address, data);
    Pow16Eight();
    assert line[..8] == Hex(address, 8);
    HexRoundTrip(address, 8);
    ColumnsAt(data, i);
    assert line[10..58] == Columns(data);
    assert line[11 + 3 * i..13 + 3 * i] == Columns(data)[3 * i + 1..3 * i + 3];
    HexRoundTrip(data[i], 2);
    assert line[10] == Columns(data)[0];
    ColumnsAt(data, 0);
  }

  class HexWriter {
    const prefix: string
    var counter: nat
    var currentAddress: u32
    var filename: string
    /** Text of the file currently open for writing. */
    var output: string

    /** The writer HexWriter::new builds: counter 0, address 0, and file prefix + "0000.hex" created empty. */
    constructor (prefix: string)
      ensures this.prefix == prefix && counter == 0 && currentAddress == 0
      ensures filename == FileName(prefix, 0) && output == ""
    {
      this.prefix := prefix;
      counter, currentAddress := 0, 0;
      filename, output := FileName(prefix, 0), "";
    }

    /**
     * HexWriter::new: creating the first file can fail, and then there is no
     * writer. `ioOk` is the outcome of File::create.
     */
    static method Create(prefix: string, ioOk: bool) returns (r: Result<HexWriter, IoError>)
      ensures !ioOk ==> r == Err(IoError)
      ensures ioOk ==> r.Ok? && fresh(r.value)
      ensures ioOk ==> r.value.prefix == prefix && r.value.counter == 0 && r.value.currentAddress == 0
      ensures ioOk ==> r.value.filename == FileName(prefix, 0) && r.value.output == ""
    {
      if !ioOk {
        return Err(IoError);
      }
      var w := new HexWriter(prefix);
      r := Ok(w);
    }

    /**
     * Writer::reset: counts up and opens the next numbered file. When the file
     * cannot be created the counter has still advanced and the old file stays.
     */
    method Reset(ioOk: bool) returns (r: Result<(), IoError>)
      modifies this
      ensures counter == old(counter) + 1 && currentAddress == old(currentAddress)
      ensures ioOk ==> r == Ok(()) && filename == FileName(prefix, counter) && output == ""
      ensures !ioOk ==> r == Err(IoError) && filename == old(filename) && output == old(output)
    {
      counter := counter + 1;
      var name := FileName(prefix, counter);
      if !ioOk {
        return Err(IoError);
      }
      output := "";
      filename := name;
      r := Ok(());
    }

    /**
     * Writer::write: a separator line first iff the address is not where the
     * previous write ended, then the data line; the next expected address is
     * address + 16 in wrapping 32-bit arithmetic. The two file writes fail
     * independently (`separatorOk`, `lineOk`): a failed separator write
     * stops before the line, and a failed line write leaves the separator
     * already written in the file. Either failure keeps the current address.
     */
    method Write(address: u32, data: seq<byte>, separatorOk: bool, lineOk: bool) returns (r: Result<(), IoError>)
      requires |data| == 16
      modifies this
      ensures counter == old(counter) && filename == old(filename)
      ensures r.Ok? <==> (old(currentAddress) == address || separatorOk) && lineOk
      ensures r.Err? ==> r == Err(IoError) && currentAddress == old(currentAddress)
      ensures r.Ok? ==> currentAddress == (address + 16) % 0x1_0000_0000
      ensures r.Ok? ==> output == old(output) + (if old(currentAddress) != address then Separator() else "")
                                  + DataLine(address, data)
      ensures old(currentAddress) != address && !separatorOk ==> output == old(output)
      ensures (old(currentAddress) == address || separatorOk) && !lineOk ==>
                output == old(output) + (if old(currentAddress) != address then Separator() else "")
    {
      if currentAddress != address {
        if !separatorOk {
          return Err(IoError);
        }
        output := output + Separator();
      }
      if !lineOk {
        return Err(IoError);
      }
      output := output + DataLine(address, data);
      currentAddress := (address + 16) % 0x1_0000_0000;
      r := Ok(());
    }
  }
}
