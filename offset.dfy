/**
 * Bit-granular positions in a codeplug. An Address is an unsigned 64-bit bit
 * index whose bit numbering runs from 7 (most significant, first in memory)
 * down to 0 inside each byte; an Offset is a signed 64-bit distance in bits;
 * a Size is an unsigned 64-bit length in bits. The largest value of each
 * representation is the "invalid" sentinel that default construction gives.
 */
module Offsets {
  import opened Numerals

  type u32 = x: int | 0 <= x < 0x1_0000_0000
  type i32 = x: int | -0x8000_0000 <= x < 0x8000_0000
  type u64 = x: int | 0 <= x < 0x1_0000_0000_0000_0000
  type i64 = x: int | -0x8000_0000_0000_0000 <= x < 0x8000_0000_0000_0000

  const U64_MAX: u64 := 0xffff_ffff_ffff_ffff
  const I64_MAX: i64 := 0x7fff_ffff_ffff_ffff

  /** Conversion of any integer to uint64_t: reduction modulo 2^64. */
  function ToU64(x: int): (r: u64)
    ensures (r - x) % 0x1_0000_0000_0000_0000 == 0
  {
    x % 0x1_0000_0000_0000_0000
  }

  /** Conversion to int64_t in two's complement: the representative in [-2^63, 2^63). */
  function ToI64(x: int): (r: i64)
    ensures (r - x) % 0x1_0000_0000_0000_0000 == 0
    ensures -0x8000_0000_0000_0000 <= x < 0x8000_0000_0000_0000 ==> r == x
  {
    var m := x % 0x1_0000_0000_0000_0000;
    if m < 0x8000_0000_0000_0000 then m else m - 0x1_0000_0000_0000_0000
  }

  datatype Address = Address(value: u64)
  datatype Offset = Offset(value: i64)
  datatype Size = Size(value: u64)

  /** What Address(), Offset() and Size() construct. */
  const INVALID_ADDRESS := Address(U64_MAX)
  const INVALID_OFFSET := Offset(I64_MAX)
  const INVALID_SIZE := Size(U64_MAX)

  predicate AddressIsValid(a: Address) { a.value != U64_MAX }
  predicate OffsetIsValid(o: Offset) { o.value != I64_MAX }
  predicate SizeIsValid(s: Size) { s.value != U64_MAX }

  // ---------------------------------------------------------------------------
  // Address
  // ---------------------------------------------------------------------------

  /**
   * Address::byte: the byte index, narrowed to unsigned int, so the byte
   * holding the address once it is reduced below 2^35 bits.
   */
  function AddressByte(a: Address): (r: u32)
    ensures 8 * r <= a.value % 0x8_0000_0000 < 8 * r + 8
    ensures a.value < 0x8_0000_0000 ==> 8 * r <= a.value < 8 * r + 8
  {
    (a.value / 8) % 0x1_0000_0000
  }

  /** Address::bit: 7 for the first (most significant) bit of a byte, 0 for the last. */
  function AddressBit(a: Address): (b: nat)
    ensures b < 8
  {
    7 - a.value % 8
  }

  /** Address::byteAligned: the address is the first bit of its byte. */
  predicate ByteAligned(a: Address)
  {
    a.value % 8 == 0
  }

  /** An address is byte aligned exactly when it names bit 7 of its byte. */
  lemma ByteAlignedIsBitSeven(a: Address)
    ensures ByteAligned(a) <==> AddressBit(a) == 7
  {
  }

  /**
   * Address::fromByte in unsigned int arithmetic: bit numbers of 8 and more
   * carry into the byte, and the byte index wraps modulo 2^29 bytes.
   */
  function AddressFromByte(byte: u32, bit: u32): (a: Address)
    ensures AddressIsValid(a) && a.value < 0x1_0000_0000
  {
    var bytePart := (8 * ((byte + bit / 8) % 0x1_0000_0000)) % 0x1_0000_0000;
    Address(bytePart + (7 - bit % 8))
  }

  /** Below 2^29 bytes and for bit numbers 0 to 7, byte() and bit() give back the arguments. */
  lemma AddressFromByteRoundTrip(byte: u32, bit: u32)
    requires byte < 0x2000_0000 && bit < 8
    ensures AddressByte(AddressFromByte(byte, bit)) == byte
    ensures AddressBit(AddressFromByte(byte, bit)) == bit
    ensures ByteAligned(AddressFromByte(byte, bit)) <==> bit == 7
  {
    AddressFromByteValue(byte, bit);
    var v := 8 * byte + 7 - bit;
    assert v / 8 == byte && v % 8 == 7 - bit;
  }

  lemma AddressFromByteValue(byte: u32, bit: u32)
    requires byte < 0x2000_0000 && bit < 8
    ensures AddressFromByte(byte, bit).value == 8 * byte + 7 - bit
  {
    assert bit / 8 == 0 && bit % 8 == bit;
    assert (8 * byte) % 0x1_0000_0000 == 8 * byte;
  }

  /** The 32-bit wrap of fromByte: byte 2^29 lands on byte 0. */
  lemma AddressFromByteWraps()
    ensures AddressFromByte(0x2000_0000, 7) == AddressFromByte(0, 7) == Address(0)
  {
    assert 7 / 8 == 0 && 7 % 8 == 7;
    assert (8 * ((0x2000_0000 + 0) % 0x1_0000_0000)) % 0x1_0000_0000 == 0;
    assert AddressFromByte(0x2000_0000, 7).value == 0;
    assert (8 * ((0 + 0) % 0x1_0000_0000)) % 0x1_0000_0000 == 0;
    assert AddressFromByte(0, 7).value == 0;
  }

  /**
   * Address + Offset (and +=): invalid when a negative offset reaches below
   * bit 0; otherwise the uint64 sum, which wraps past 2^64.
   */
  function AddressPlus(a: Address, o: Offset): (r: Address)
    ensures a.value + o.value < 0 ==> r == INVALID_ADDRESS
    ensures 0 <= a.value + o.value <= U64_MAX ==> r.value == a.value + o.value
    ensures a.value + o.value > U64_MAX ==> r.value == a.value + o.value - 0x1_0000_0000_0000_0000
  {
    if o.value < 0 && a.value + o.value < 0 then INVALID_ADDRESS
    else Address(ToU64(a.value + o.value))
  }

  /**
   * Address - Offset (and -=): invalid when a positive offset reaches below
   * bit 0; otherwise the uint64 difference, which wraps past 2^64 for a
   * negative offset.
   */
  function AddressMinus(a: Address, o: Offset): (r: Address)
    ensures o.value > a.value ==> r == INVALID_ADDRESS
    ensures 0 <= a.value - o.value <= U64_MAX ==> r.value == a.value - o.value
    ensures a.value - o.value > U64_MAX ==> r.value == a.value - o.value - 0x1_0000_0000_0000_0000
  {
    if o.value > 0 && o.value > a.value then INVALID_ADDRESS
    else Address(ToU64(a.value - o.value))
  }

  /** Address - Address: the signed bit distance, computed in int64. */
  function AddressDiff(a: Address, b: Address): (r: Offset)
    ensures a.value <= I64_MAX && b.value <= I64_MAX ==> r.value == a.value - b.value
  {
    Offset(ToI64(ToI64(a.value) - ToI64(b.value)))
  }

  /** Moving by an offset and back returns to the start, and the distance is the offset. */
  lemma AddressPlusMinus(a: Address, o: Offset)
    requires 0 <= a.value + o.value <= I64_MAX && a.value <= I64_MAX
    ensures AddressMinus(AddressPlus(a, o), o) == a
    ensures AddressDiff(AddressPlus(a, o), a) == o
    ensures AddressPlus(a, o) == AddressMinus(a, Offset(-o.value))
  {
  }

  // ---------------------------------------------------------------------------
  // Offset and Size
  // ---------------------------------------------------------------------------

  /** Offset::fromByte: 8 n + bit in int64; never overflows for int arguments. */
  function OffsetFromByte(n: i32, bit: i32): (o: Offset)
    ensures o.value - bit == 8 * n
    ensures OffsetIsValid(o)
  {
    Offset(8 * n + bit)
  }

  /** Offset::fromBits: an unsigned long reinterpreted as int64. */
  function OffsetFromBits(n: u64): (o: Offset)
    ensures n <= I64_MAX ==> o.value == n
    ensures n > I64_MAX ==> o.value == n - 0x1_0000_0000_0000_0000
  {
    Offset(ToI64(n))
  }

  /** Address(const Offset &): the offset's bits reinterpreted as uint64. */
  function AddressFromOffset(o: Offset): (a: Address)
    ensures o.value >= 0 ==> a.value == o.value
  {
    Address(ToU64(o.value))
  }

  /** Offset(const Address &): the address's bits reinterpreted as int64. */
  function OffsetFromAddress(a: Address): (o: Offset)
    ensures a.value <= I64_MAX ==> o.value == a.value
  {
    Offset(ToI64(a.value))
  }

  /** Offset(const Size &): the size's bits reinterpreted as int64. */
  function OffsetFromSize(s: Size): (o: Offset)
    ensures s.value <= I64_MAX ==> o.value == s.value
  {
    Offset(ToI64(s.value))
  }

  /** Converting an offset to an address and back loses nothing, for every offset. */
  lemma OffsetAddressRoundTrip(o: Offset)
    ensures OffsetFromAddress(AddressFromOffset(o)) == o
  {
  }

  /** Size(const Offset &): the offset if it is positive, otherwise invalid (a zero offset too). */
  function SizeFromOffset(o: Offset): (s: Size)
    ensures SizeIsValid(s) <==> o.value > 0
    ensures SizeIsValid(s) ==> s.value == o.value
  {
    if o.value > 0 then Size(o.value) else INVALID_SIZE
  }

  /** A positive offset survives the trip through Size. */
  lemma SizeOffsetRoundTrip(o: Offset)
    requires o.value > 0
    ensures OffsetFromSize(SizeFromOffset(o)) == o
  {
  }

  /** Size::fromByte: 8 n + bit in unsigned long, which cannot overflow here. */
  function SizeFromByte(n: u32, bit: u32): (s: Size)
    ensures s.value - bit == 8 * n
    ensures SizeIsValid(s)
  {
    Size(8 * n + bit)
  }

  /** Size -= Size: invalid instead of wrapping below zero. */
  function SizeMinus(a: Size, b: Size): (r: Size)
    ensures b.value > a.value ==> r == INVALID_SIZE
    ensures b.value <= a.value ==> r.value + b.value == a.value
  {
    if b.value > a.value then INVALID_SIZE else Size(a.value - b.value)
  }

  /**
   * The difference is valid exactly when the subtrahend fits, except that an
   * invalid size minus zero stays the sentinel.
   */
  lemma SizeMinusValid(a: Size, b: Size)
    ensures SizeIsValid(SizeMinus(a, b)) <==> b.value <= a.value && !(a == INVALID_SIZE && b.value == 0)
  {
  }

  /** The three defaults are invalid; the zeros and every fromByte result are valid. */
  lemma Sentinels(byte: u32, bit: u32)
    ensures !AddressIsValid(INVALID_ADDRESS) && !OffsetIsValid(INVALID_OFFSET) && !SizeIsValid(INVALID_SIZE)
    ensures AddressIsValid(Address(0)) && OffsetIsValid(Offset(0)) && SizeIsValid(Size(0))
    ensures AddressIsValid(AddressFromByte(byte, bit)) && SizeIsValid(SizeFromByte(byte, bit))
  {
  }

  // ---------------------------------------------------------------------------
  // Text form
  // ---------------------------------------------------------------------------

  /** "<hex byte>h", followed by ":<octal bit>" unless the bit is the default one. */
  function PositionString(byte: nat, bit: nat, defaultBit: nat): (s: string)
    requires bit < 8
  {
    Numeral(byte, 16) + "h" + (if bit == defaultBit then "" else ":" + Numeral(bit, 8))
  }

  /** Address::toString: the byte in hex, 'h', and the octal bit unless it is 7. */
  function AddressToString(a: Address): (s: string)
    ensures ReadsAsPosition(s, AddressByte(a), AddressBit(a), 7)
  {
    PositionStringReadsBack(AddressByte(a), AddressBit(a), 7);
    PositionString(AddressByte(a), AddressBit(a), 7)
  }

  /**
   * Offset::toString for non-negative offsets, with byte() = value / 8 and
   * bit() = value % 8: the bit is omitted when it is 0.
   */
  function OffsetToString(o: Offset): (s: string)
    requires o.value >= 0
    ensures ReadsAsPosition(s, o.value / 8, o.value % 8, 0)
  {
    PositionStringReadsBack(o.value / 8, o.value % 8, 0);
    PositionString(o.value / 8, o.value % 8, 0)
  }

  /** Size::toString, with byte() = value / 8 and bit() = value % 8: the bit is omitted when it is 0. */
  function SizeToString(s: Size): (r: string)
    ensures ReadsAsPosition(r, s.value / 8, s.value % 8, 0)
  {
    PositionStringReadsBack(s.value / 8, s.value % 8, 0);
    PositionString(s.value / 8, s.value % 8, 0)
  }

  /**
   * The text reads back: a hex numeral without leading zeros for the byte,
   * the letter 'h', and ":" with one octal digit for the bit exactly when the
   * bit is not the default one.
   */
  predicate ReadsAsPosition(s: string, byte: nat, bit: nat, defaultBit: nat)
  {
    var k := if bit == defaultBit then |s| - 1 else |s| - 3;
    && 1 <= k < |s| && s[k] == 'h'
    && DigitsValue(s[..k], 16) == byte
    && (byte > 0 ==> s[0] != '0')
    && (bit == defaultBit <==> |s| == k + 1)
    && (bit != defaultBit ==> s[k + 1] == ':' && DigitValue(s[k + 2]) == bit)
  }

  /** PositionString's text reads back as the byte and bit it prints. */
  lemma {:induction false} PositionStringReadsBack(byte: nat, bit: nat, defaultBit: nat)
    requires bit < 8
    ensures ReadsAsPosition(PositionString(byte, bit, defaultBit), byte, bit, defaultBit)
  {
    var s := PositionString(byte, bit, defaultBit);
    var hex := Numeral(byte, 16);
    NumeralRoundTrip(byte, 16);
    if bit == defaultBit {
      assert s == hex + "h";
    } else {
      assert Numeral(bit, 8) == [HexDigit(bit)];
      assert s == hex + "h" + ":" + [HexDigit(bit)];
    }
    assert s[..|hex|] == hex;
  }

  /** The examples of the address unit test, with Address::fromByte(n) meaning bit 7 and Offset::fromByte(n) bit 0. */
  lemma AddressTestExamples()
    ensures var addr1, addr2 := AddressFromByte(0x100, 7), AddressFromByte(0x104, 7);
      var offset1, offset2 := OffsetFromByte(1, 3), OffsetFromByte(0, -3);
      && AddressDiff(addr2, addr1) == OffsetFromByte(4, 0)
      && AddressDiff(addr1, addr1) == OffsetFromByte(0, 0)
      && OffsetIsValid(AddressDiff(addr1, addr2))
      && AddressDiff(addr1, addr2) == OffsetFromByte(-4, 0)
      && AddressPlus(addr1, offset1) == AddressFromByte(0x101, 4)
      && AddressMinus(addr1, offset1) == AddressFromByte(0xfe, 2)
      && AddressPlus(addr1, offset2) == AddressFromByte(0xff, 2)
      && AddressMinus(addr1, offset2) == AddressFromByte(0x100, 4)
  {
    AddressFromByteValue(0x100, 7);
    AddressFromByteValue(0x104, 7);
    AddressFromByteValue(0x101, 4);
    AddressFromByteValue(0xfe, 2);
    AddressFromByteValue(0xff, 2);
    AddressFromByteValue(0x100, 4);
    var addr1, addr2 := Address(2048), Address(2080);
    assert AddressDiff(addr2, addr1) == Offset(32);
    assert AddressDiff(addr1, addr2) == Offset(-32);
    assert AddressDiff(addr1, addr1) == Offset(0);
  }
}
