/**
 * Byte-level vocabulary shared by every codec in the model: bytes and the
 * unsigned widths the sources use, the optional/fallible results that stand
 * for null pointers and error returns, the wrapping byte sum used as a
 * checksum, and big- and little-endian integer fields.
 */
module Bytes {
  type byte = b: int | 0 <= b < 0x100
  type u16 = x: int | 0 <= x < 0x1_0000
  type u32 = x: int | 0 <= x < 0x1_0000_0000

  datatype Option<T> = None | Some(value: T)

  datatype Result<T, E> = Ok(value: T) | Err(error: E)

  function Min(a: int, b: int): int { if a < b then a else b }
  function Max(a: int, b: int): int { if a < b then b else a }

  /** The byte string of an ASCII literal. */
  function Ascii(s: string): (r: seq<byte>)
    requires forall i | 0 <= i < |s| :: s[i] as int < 0x80
    ensures |r| == |s|
    ensures forall i | 0 <= i < |s| :: r[i] == s[i] as int
  {
    if s == [] then [] else [s[0] as int] + Ascii(s[1..])
  }

  predicate StartsWith(s: seq<byte>, prefix: seq<byte>)
  {
    |prefix| <= |s| && s[..|prefix|] == prefix
  }

  /** n zero bytes. */
  function Zeros(n: nat): (r: seq<byte>)
    ensures |r| == n && forall i | 0 <= i < n :: r[i] == 0
  {
    if n == 0 then [] else Zeros(n - 1) + [0]
  }

  /** Exact arithmetic sum of a byte string (the checksum before wrapping). */
  function Sum(s: seq<byte>): nat
  {
    if s == [] then 0 else Sum(s[..|s| - 1]) + s[|s| - 1]
  }

  /** The value a uint8_t accumulator holds after adding every byte of s. */
  function Sum8(s: seq<byte>): byte
  {
    Sum(s) % 0x100
  }

  lemma {:induction false} SumAppend(a: seq<byte>, b: seq<byte>)
    ensures Sum(a + b) == Sum(a) + Sum(b)
  {
    if b == [] {
      assert a + b == a;
    } else {
      assert (a + b)[..|a + b| - 1] == a + b[..|b| - 1];
      SumAppend(a, b[..|b| - 1]);
    }
  }

  lemma SumZeros(n: nat)
    ensures Sum(Zeros(n)) == 0
  {
    if n > 0 {
      assert Zeros(n)[..n - 1] == Zeros(n - 1);
      SumZeros(n - 1);
    }
  }

  /** A 32-bit big-endian field. */
  function BE32(s: seq<byte>): u32
    requires |s| == 4
  {
    s[0] as int * 0x100_0000 + s[1] as int * 0x1_0000 + s[2] as int * 0x100 + s[3] as int
  }

  /** The big-endian bytes of a 32-bit value; the inverse of BE32. */
  function BE32Bytes(x: u32): (r: seq<byte>)
    ensures |r| == 4 && BE32(r) == x
  {
    var a := x / 0x100;
    var b := a / 0x100;
    [b / 0x100, b % 0x100, a % 0x100, x % 0x100]
  }

  lemma BE32Inverse(s: seq<byte>)
    requires |s| == 4
    ensures BE32Bytes(BE32(s)) == s
  {
    var b := s[0] as nat * 0x100 + s[1] as nat;
    var a := b * 0x100 + s[2] as nat;
    assert BE32(s) == a * 0x100 + s[3] as nat;
    DivModByte(a, s[3] as nat);
    DivModByte(b, s[2] as nat);
    DivModByte(s[0] as nat, s[1] as nat);
    assert BE32Bytes(BE32(s)) == [s[0], s[1], s[2], s[3]];
  }

  /** Splitting q * 256 + r at its low byte gives back q and r. */
  lemma DivModByte(q: nat, r: nat)
    requires r < 0x100
    ensures (q * 0x100 + r) / 0x100 == q && (q * 0x100 + r) % 0x100 == r
  {
  }

  /** A 16-bit big-endian field. */
  function BE16(s: seq<byte>): u16
    requires |s| == 2
  {
    s[0] as int * 0x100 + s[1] as int
  }

  function BE16Bytes(x: u16): (r: seq<byte>)
    ensures |r| == 2 && BE16(r) == x
  {
    [x / 0x100, x % 0x100]
  }

  /** A 16-bit little-endian field. */
  function LE16(s: seq<byte>): u16
    requires |s| == 2
  {
    s[1] as int * 0x100 + s[0] as int
  }

  function LE16Bytes(x: u16): (r: seq<byte>)
    ensures |r| == 2 && LE16(r) == x
  {
    [x % 0x100, x / 0x100]
  }
}
