/**
 * The fixed memory of an emulated radio: a vector of segments (start address
 * and content) kept in ascending order of start address. Writes locate the
 * first segment that starts at or after the address with std::lower_bound;
 * reads succeed only from a segment that starts exactly at the address.
 */
module ModelRomModel {
  import opened Bytes

  const U32_RANGE: int := 0x1_0000_0000

  datatype Segment = Segment(address: u32, content: seq<byte>)

  /**
   * Segment::contains(address, uint8_t size): the end of the request is
   * computed in 32-bit unsigned arithmetic and so wraps.
   */
  predicate Contains(segment: Segment, address: u32, size: byte)
  {
    segment.address <= address
    && segment.address + |segment.content| >= (address + size) % U32_RANGE
  }

  /** Without wrap-around, contains means the range [address, address+size) lies in the segment. */
  lemma ContainsMeaning(segment: Segment, address: u32, size: byte)
    requires address + size < U32_RANGE
    ensures Contains(segment, address, size)
        <==> segment.address <= address && address + size <= segment.address + |segment.content|
  {
  }

  /** The overwrite test of write, with the data size taken at full width. */
  predicate Covers(segment: Segment, address: u32, size: nat)
  {
    segment.address <= address && address + size <= segment.address + |segment.content|
  }

  /**
   * The overwrite test of write as the source evaluates it: data.size() is
   * narrowed to the uint8_t parameter of contains.
   */
  predicate CoversAsWritten(segment: Segment, address: u32, data: seq<byte>)
  {
    Contains(segment, address, |data| % 0x100)
  }

  /** Concretely: 256 bytes written at a 16-byte segment pass the narrowed test, so memcpy overruns it. */
  lemma CoversAsWrittenOverruns()
    ensures var segment := Segment(0x100, Zeros(16));
      CoversAsWritten(segment, 0x100, Zeros(256)) && !Covers(segment, 0x100, 256)
  {
  }

  predicate Sorted(segments: seq<Segment>)
  {
    forall i, j | 0 <= i < j < |segments| :: segments[i].address <= segments[j].address
  }

  /** The index std::lower_bound yields: the number of leading segments that start below address. */
  function CountBelow(segments: seq<Segment>, address: int): (k: nat)
    ensures k <= |segments|
  {
    if segments == [] || segments[0].address >= address then 0
    else 1 + CountBelow(segments[1..], address)
  }

  /** On a sorted vector, CountBelow splits it into the segments below address and the rest. */
  lemma {:induction false} CountBelowSplits(segments: seq<Segment>, address: int)
    requires Sorted(segments)
    ensures forall i | 0 <= i < CountBelow(segments, address) :: segments[i].address < address
    ensures forall i | CountBelow(segments, address) <= i < |segments| :: segments[i].address >= address
  {
    if segments != [] && segments[0].address < address {
      CountBelowSplits(segments[1..], address);
      forall i | 0 <= i < CountBelow(segments, address)
        ensures segments[i].address < address
      {
        if i > 0 { assert segments[i] == segments[1..][i - 1]; }
      }
      forall i | CountBelow(segments, address) <= i < |segments|
        ensures segments[i].address >= address
      {
        assert segments[i] == segments[1..][i - 1];
      }
    }
  }

  /** Any split point of a sorted vector is the lower bound. */
  lemma {:induction false} CountBelowUnique(segments: seq<Segment>, address: int, k: nat)
    requires k <= |segments|
    requires forall i | 0 <= i < k :: segments[i].address < address
    requires forall i | k <= i < |segments| :: segments[i].address >= address
    ensures CountBelow(segments, address) == k
  {
    if k > 0 {
      CountBelowUnique(segments[1..], address, k - 1);
    }
  }

  /**
   * The vector after write(address, data), in the branches of the source:
   * insert before the lower bound, overwrite a covering segment that starts at
   * address, extend a segment that ends at address, or insert after it.
   * The overwrite test takes the data size at full width.
   */
  function Written(segments: seq<Segment>, address: u32, data: seq<byte>): seq<Segment>
  {
    var k := CountBelow(segments, address);
    if k == |segments| || segments[k].address > address then
      segments[..k] + [Segment(address, data)] + segments[k..]
    else if Covers(segments[k], address, |data|) then
      var offset := address - segments[k].address;
      var content := segments[k].content;
      segments[k := Segment(segments[k].address, content[..offset] + data + content[offset + |data|..])]
    else if segments[k].address + |segments[k].content| == address then
      segments[k := Segment(segments[k].address, segments[k].content + data)]
    else
      segments[..k + 1] + [Segment(address, data)] + segments[k + 1..]
  }

  /** Writing keeps the segments in ascending order of start address. */
  lemma WrittenSorted(segments: seq<Segment>, address: u32, data: seq<byte>)
    requires Sorted(segments)
    ensures Sorted(Written(segments, address, data))
  {
    CountBelowSplits(segments, address);
  }

  /**
   * The segment count stays the same exactly when a segment starting at
   * address already covers the data or is empty; otherwise it grows by one.
   */
  lemma WrittenCount(segments: seq<Segment>, address: u32, data: seq<byte>)
    requires Sorted(segments)
    ensures var k := CountBelow(segments, address);
      var inPlace := k < |segments| && segments[k].address == address
                     && (Covers(segments[k], address, |data|) || segments[k].content == []);
      && (inPlace ==> |Written(segments, address, data)| == |segments|)
      && (!inPlace ==> |Written(segments, address, data)| == |segments| + 1)
  {
    CountBelowSplits(segments, address);
  }

  /** An overwrite keeps the segment's length: the data always fits. */
  lemma OverwriteFits(segments: seq<Segment>, address: u32, data: seq<byte>)
    requires Sorted(segments)
    requires var k := CountBelow(segments, address);
      k < |segments| && segments[k].address == address && Covers(segments[k], address, |data|)
    ensures var k := CountBelow(segments, address);
      && |Written(segments, address, data)| == |segments|
      && Written(segments, address, data)[k].address == address
      && |Written(segments, address, data)[k].content| == |segments[k].content|
      && Written(segments, address, data)[k].content[..|data|] == data
  {
    var k := CountBelow(segments, address);
    var content := segments[k].content;
    assert address - segments[k].address == 0;
    assert (content[..0] + data + content[|data|..])[..|data|] == data;
  }

  /** ModelRom::read: a covering segment must be the lower bound, so it starts at address. */
  function Lookup(segments: seq<Segment>, address: u32, length: byte): Option<seq<byte>>
  {
    var k := CountBelow(segments, address);
    if k == |segments| || !Contains(segments[k], address, length) then None
    else
      var offset := address - segments[k].address;
      var content := segments[k].content;
      Some(content[Min(offset, |content|)..Min(offset + length, |content|)])
  }

  /**
   * read succeeds exactly when the lower-bound segment starts at address and
   * holds length bytes there, and then returns those bytes.
   */
  lemma LookupMeaning(segments: seq<Segment>, address: u32, length: byte)
    requires Sorted(segments)
    requires address + length < U32_RANGE
    ensures segments == [] ==> Lookup(segments, address, length).None?
    ensures var k := CountBelow(segments, address);
      Lookup(segments, address, length).Some? <==>
        (k < |segments| && segments[k].address == address && length <= |segments[k].content|)
    ensures var k := CountBelow(segments, address);
      Lookup(segments, address, length).Some? ==>
        Lookup(segments, address, length).value == segments[k].content[..length]
  {
    CountBelowSplits(segments, address);
  }

  /** Data written at an address where no segment starts reads back unchanged. */
  lemma {:induction false} ReadBackFresh(segments: seq<Segment>, address: u32, data: seq<byte>)
    requires Sorted(segments)
    requires |data| < 0x100 && address + |data| < U32_RANGE
    requires forall i | 0 <= i < |segments| :: segments[i].address != address
    ensures Lookup(Written(segments, address, data), address, |data|) == Some(data)
  {
    CountBelowSplits(segments, address);
    var k := CountBelow(segments, address);
    var w := Written(segments, address, data);
    assert w == segments[..k] + [Segment(address, data)] + segments[k..];
    CountBelowUnique(w, address, k);
    assert w[k] == Segment(address, data);
    ContainsMeaning(w[k], address, |data|);
    assert data[0..|data|] == data;
  }

  /**
   * A longer write at the start of an existing non-empty segment is stored as a
   * second segment behind it, and reading it back fails: the lower bound is
   * the old, shorter segment.
   */
  lemma RewriteLongerUnreadable()
    ensures Written([Segment(0x100, [1, 2])], 0x100, [1, 2, 3, 4])
         == [Segment(0x100, [1, 2]), Segment(0x100, [1, 2, 3, 4])]
    ensures Lookup(Written([Segment(0x100, [1, 2])], 0x100, [1, 2, 3, 4]), 0x100, 4) == None
  {
    assert CountBelow([Segment(0x100, [1, 2])], 0x100) == 0;
    var w := [Segment(0x100, [1, 2]), Segment(0x100, [1, 2, 3, 4])];
    assert CountBelow(w, 0x100) == 0;
  }

  /** Adjacent writes are not merged: "abc" at 0x100 then "def" at 0x103 leave two segments. */
  lemma AdjacentWritesNotMerged()
    ensures var abc := Ascii("abc");
      var w := Written(Written([], 0x100, abc), 0x103, Ascii("def"));
      |w| == 2 && Lookup(w, 0x100, 6) == None
  {
    var abc, def := Ascii("abc"), Ascii("def");
    var w1 := Written([], 0x100, abc);
    assert w1 == [Segment(0x100, abc)];
    assert CountBelow(w1, 0x103) == 1;
    var w := Written(w1, 0x103, def);
    assert w == [Segment(0x100, abc), Segment(0x103, def)];
    assert CountBelow(w, 0x100) == 0;
  }

  /** The ROM after writing every segment of another ROM, in order. */
  function WrittenAll(segments: seq<Segment>, writes: seq<Segment>): seq<Segment>
    decreases |writes|
  {
    if writes == [] then segments
    else WrittenAll(Written(segments, writes[0].address, writes[0].content), writes[1..])
  }

  lemma {:induction false} WrittenAllSorted(segments: seq<Segment>, writes: seq<Segment>)
    requires Sorted(segments)
    ensures Sorted(WrittenAll(segments, writes))
    decreases |writes|
  {
    if writes != [] {
      WrittenSorted(segments, writes[0].address, writes[0].content);
      WrittenAllSorted(Written(segments, writes[0].address, writes[0].content), writes[1..]);
    }
  }

  lemma {:induction false} WrittenAllSnoc(segments: seq<Segment>, writes: seq<Segment>, s: Segment)
    ensures WrittenAll(segments, writes + [s]) == Written(WrittenAll(segments, writes), s.address, s.content)
    decreases |writes|
  {
    if writes == [] {
      assert writes + [s] == [s];
    } else {
      assert (writes + [s])[1..] == writes[1..] + [s];
      WrittenAllSnoc(Written(segments, writes[0].address, writes[0].content), writes[1..], s);
    }
  }

  class ModelRom {
    var segments: seq<Segment>

    ghost predicate Valid()
      reads this
    {
      Sorted(segments)
    }

    constructor ()
      ensures Valid() && segments == []
    {
      segments := [];
    }

    /** std::lower_bound: a bisection for the first segment starting at or after address. */
    method LowerBound(address: u32) returns (k: nat)
      requires Valid()
      ensures k == CountBelow(segments, address)
      ensures forall i | 0 <= i < k :: segments[i].address < address
      ensures forall i | k <= i < |segments| :: segments[i].address >= address
    {
      var lo, hi := 0, |segments|;
      while lo < hi
        invariant 0 <= lo <= hi <= |segments|
        invariant forall i | 0 <= i < lo :: segments[i].address < address
        invariant forall i | hi <= i < |segments| :: segments[i].address >= address
      {
        var mid := (lo + hi) / 2;
        if segments[mid].address < address {
          lo := mid + 1;
        } else {
          hi := mid;
        }
      }
      k := lo;
      CountBelowUnique(segments, address, k);
    }

    /** ModelRom::write (with the overwrite test at full width). */
    method Write(address: u32, data: seq<byte>)
      requires Valid()
      modifies this
      ensures Valid()
      ensures segments == Written(old(segments), address, data)
    {
      WrittenSorted(segments, address, data);
      var k := LowerBound(address);
      if k == |segments| || segments[k].address > address {
        segments := segments[..k] + [Segment(address, data)] + segments[k..];
      } else if Covers(segments[k], address, |data|) {
        var offset := address - segments[k].address;
        var content := segments[k].content;
        segments := segments[k := Segment(segments[k].address, content[..offset] + data + content[offset + |data|..])];
      } else if segments[k].address + |segments[k].content| == address {
        segments := segments[k := Segment(segments[k].address, segments[k].content + data)];
      } else {
        segments := segments[..k + 1] + [Segment(address, data)] + segments[k + 1..];
      }
    }

    /** ModelRom::read: the requested bytes, or None where the source returns false. */
    method Read(address: u32, length: byte) returns (data: Option<seq<byte>>)
      requires Valid()
      ensures data == Lookup(segments, address, length)
    {
      var k := LowerBound(address);
      if k == |segments| {
        return None;
      }
      if !Contains(segments[k], address, length) {
        return None;
      }
      var offset := address - segments[k].address;
      var content := segments[k].content;
      data := Some(content[Min(offset, |content|)..Min(offset + length, |content|)]);
    }

    /** operator+=: writes each segment of rhs in order (over a copy, as Qt's foreach iterates). */
    method PlusAssign(rhs: ModelRom)
      requires Valid()
      modifies this
      ensures Valid()
      ensures segments == WrittenAll(old(segments), old(rhs.segments))
    {
      var writes := rhs.segments;
      ghost var start := segments;
      var i := 0;
      while i < |writes|
        invariant 0 <= i <= |writes|
        invariant Valid()
        invariant segments == WrittenAll(start, writes[..i])
      {
        WrittenAllSnoc(start, writes[..i], writes[i]);
        assert writes[..i + 1] == writes[..i] + [writes[i]];
        Write(writes[i].address, writes[i].content);
        i := i + 1;
      }
      assert writes[..i] == writes;
    }

    /** operator+: a copy of this ROM with rhs written over it; this ROM is unchanged. */
    method Plus(rhs: ModelRom) returns (res: ModelRom)
      requires Valid()
      ensures fresh(res) && res.Valid()
      ensures res.segments == WrittenAll(segments, rhs.segments)
      ensures segments == old(segments)
    {
      res := new ModelRom();
      res.segments := segments;
      res.PlusAssign(rhs);
    }
  }
}
