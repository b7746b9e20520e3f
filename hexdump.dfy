/**
 * Hex dumps and hex differences of codeplug images. A line covers one
 * 16-byte-aligned row of memory; every shown byte is tagged as kept, removed,
 * added or unused. An element's dump is the sequence of lines that tiles its
 * data; an image difference walks both images' sorted element lists in step
 * and pairs elements with the same start address.
 */
module HexDump {
  import opened Bytes
  import opened ImageModel

  datatype ByteType = Keep | Remove | Add | Modified | Unused

  /** HexLine::Byte: a byte value and how it differs. */
  datatype HexByte = HexByte(kind: ByteType, value: byte)

  datatype HexLine = HexLine(address: u32, consumed: nat, left: seq<HexByte>, right: seq<HexByte>, hasDiff: bool)

  datatype HexElement = HexElement(lines: seq<HexLine>, address: u32, isDiff: bool, hasDiff: bool)

  datatype HexImage = HexImage(elements: seq<HexElement>, isDiff: bool, hasDiff: bool)

  const UNUSED := HexByte(Unused, 0)

  /** HexLine::isDiff: a line is a difference iff it has a right side. */
  predicate IsDiffLine(line: HexLine)
  {
    line.right != []
  }

  function Padding(n: nat): (r: seq<HexByte>)
    ensures |r| == n && forall i | 0 <= i < n :: r[i] == UNUSED
  {
    if n == 0 then [] else Padding(n - 1) + [UNUSED]
  }

  function Kept(bytes: seq<byte>): (r: seq<HexByte>)
    ensures |r| == |bytes| && forall i | 0 <= i < |bytes| :: r[i] == HexByte(Keep, bytes[i])
  {
    if bytes == [] then [] else Kept(bytes[..|bytes| - 1]) + [HexByte(Keep, bytes[|bytes| - 1])]
  }

  /** The values of the kept bytes of a row, in order: what a dump shows of the data. */
  function KeptValues(row: seq<HexByte>): seq<byte>
  {
    if row == [] then []
    else KeptValues(row[..|row| - 1]) + (if row[|row| - 1].kind == Keep then [row[|row| - 1].value] else [])
  }

  lemma {:induction false} KeptValuesAppend(a: seq<HexByte>, b: seq<HexByte>)
    ensures KeptValues(a + b) == KeptValues(a) + KeptValues(b)
  {
    if b == [] {
      assert a + b == a;
    } else {
      assert (a + b)[..|a + b| - 1] == a + b[..|b| - 1];
      KeptValuesAppend(a, b[..|b| - 1]);
    }
  }

  lemma {:induction false} KeptValuesPadding(n: nat)
    ensures KeptValues(Padding(n)) == []
  {
    if n > 0 {
      assert Padding(n)[..n - 1] == Padding(n - 1);
      KeptValuesPadding(n - 1);
    }
  }

  lemma {:induction false} KeptValuesKept(bytes: seq<byte>)
    ensures KeptValues(Kept(bytes)) == bytes
  {
    if bytes != [] {
      var n := |bytes|;
      assert Kept(bytes)[..n - 1] == Kept(bytes[..n - 1]);
      KeptValuesKept(bytes[..n - 1]);
    }
  }

  /**
   * The kept bytes of a dump row are exactly the data it shows: padding in
   * front of and behind the data contributes nothing.
   */
  lemma DumpRowShowsData(front: nat, bytes: seq<byte>, back: nat)
    ensures KeptValues(Padding(front) + Kept(bytes) + Padding(back)) == bytes
  {
    KeptValuesAppend(Padding(front) + Kept(bytes), Padding(back));
    KeptValuesAppend(Padding(front), Kept(bytes));
    KeptValuesPadding(front);
    KeptValuesPadding(back);
    KeptValuesKept(bytes);
  }

  // ---------------------------------------------------------------------------
  // HexLine
  // ---------------------------------------------------------------------------

  /**
   * HexLine(address, left): a dump line starts at the address rounded down
   * to 16, shows unused bytes up to the address, then as many data bytes as
   * fit in the row, then unused bytes up to 16.
   */
  method DumpLine(address: u32, data: seq<byte>) returns (line: HexLine)
    ensures line.address == address - address % 16 && line.address % 16 == 0
    ensures line.consumed == Min(16 - address % 16, |data|)
    ensures line.left == Padding(address % 16) + Kept(data[..line.consumed])
                         + Padding(16 - address % 16 - line.consumed)
    ensures |line.left| == 16
    ensures line.right == [] && !line.hasDiff
  {
    var start := (address / 16) * 16;
    var left: seq<HexByte> := [];
    if start < address {
      left := Padding(address - start);
    }
    var bytesLeft := 16 + start - address;
    var consumed := Min(bytesLeft, |data|);
    left := AppendKept(left, data, consumed);
    assert left == left + Padding(0);
    if |data| < bytesLeft {
      left := AppendPadding(left, bytesLeft - |data|);
    }
    line := HexLine(start, consumed, left, [], false);
  }

  /** The row's data loop: appends the first n data bytes, each tagged as kept. */
  method AppendKept(row: seq<HexByte>, data: seq<byte>, n: nat) returns (r: seq<HexByte>)
    requires n <= |data|
    ensures r == row + Kept(data[..n])
  {
    r := row;
    var i := 0;
    while i < n
      invariant 0 <= i <= n
      invariant r == row + Kept(data[..i])
    {
      assert data[..i + 1][..i] == data[..i];
      r := r + [HexByte(Keep, data[i])];
      i := i + 1;
    }
  }

  /** The row's padding loop: appends n unused bytes. */
  method AppendPadding(row: seq<HexByte>, n: nat) returns (r: seq<HexByte>)
    ensures r == row + Padding(n)
  {
    r := row;
    var j := 0;
    while j < n
      invariant 0 <= j <= n
      invariant r == row + Padding(j)
    {
      r := r + [UNUSED];
      j := j + 1;
    }
  }

  /** Byte i of the two sides differs: present on one side only, or present on both with different values. */
  predicate Mismatch(l: seq<byte>, r: seq<byte>, i: nat)
  {
    (i < |l|) != (i < |r|) || (i < |l| && i < |r| && l[i] != r[i])
  }

  /** The left-hand tag of byte i of a difference. */
  function LeftByte(l: seq<byte>, r: seq<byte>, i: nat): HexByte
  {
    if i < |l| && i < |r| then (if l[i] == r[i] then HexByte(Keep, l[i]) else HexByte(Remove, l[i]))
    else if i < |l| then HexByte(Remove, l[i])
    else UNUSED
  }

  /** The right-hand tag of byte i of a difference. */
  function RightByte(l: seq<byte>, r: seq<byte>, i: nat): HexByte
  {
    if i < |l| && i < |r| then (if l[i] == r[i] then HexByte(Keep, r[i]) else HexByte(Add, r[i]))
    else if i < |r| then HexByte(Add, r[i])
    else UNUSED
  }

  /**
   * HexLine(address, left, right): both sides start with the same padding;
   * then, for as many bytes as the longer side puts in the row, each byte is
   * tagged by LeftByte and RightByte; the line has a difference iff one of
   * those bytes mismatches.
   */
  method DiffLine(address: u32, l: seq<byte>, r: seq<byte>) returns (line: HexLine)
    ensures line.address == address - address % 16
    ensures line.consumed == Max(Min(16 - address % 16, |l|), Min(16 - address % 16, |r|))
    ensures |line.left| == |line.right| == address % 16 + line.consumed
    ensures forall i | 0 <= i < address % 16 :: line.left[i] == UNUSED && line.right[i] == UNUSED
    ensures forall i | 0 <= i < line.consumed ::
      line.left[address % 16 + i] == LeftByte(l, r, i) && line.right[address % 16 + i] == RightByte(l, r, i)
    ensures line.hasDiff <==> exists i | 0 <= i < line.consumed :: Mismatch(l, r, i)
  {
    var start := (address / 16) * 16;
    var left: seq<HexByte> := [];
    var right: seq<HexByte> := [];
    if start < address {
      left := Padding(address - start);
      right := Padding(address - start);
    }
    var bytesLeft := 16 + start - address;
    var leftConsumed := Min(bytesLeft, |l|);
    var rightConsumed := Min(bytesLeft, |r|);
    var consumed := Max(leftConsumed, rightConsumed);
    var hasDiff := false;
    var d := address - start;
    var i := 0;
    while i < consumed
      invariant 0 <= i <= consumed
      invariant |left| == |right| == d + i
      invariant forall k | 0 <= k < d :: left[k] == UNUSED && right[k] == UNUSED
      invariant forall k | 0 <= k < i :: left[d + k] == LeftByte(l, r, k) && right[d + k] == RightByte(l, r, k)
      invariant hasDiff <==> exists k | 0 <= k < i :: Mismatch(l, r, k)
    {
      if i < leftConsumed && i < rightConsumed {
        if l[i] == r[i] {
          left := left + [HexByte(Keep, l[i])];
          right := right + [HexByte(Keep, r[i])];
        } else {
          left := left + [HexByte(Remove, l[i])];
          right := right + [HexByte(Add, r[i])];
          hasDiff := true;
        }
      } else if i < leftConsumed {
        left := left + [HexByte(Remove, l[i])];
        right := right + [UNUSED];
        hasDiff := true;
      } else if i < rightConsumed {
        left := left + [UNUSED];
        right := right + [HexByte(Add, r[i])];
        hasDiff := true;
      }
      assert Mismatch(l, r, i) ==> hasDiff;
      i := i + 1;
    }
    line := HexLine(start, consumed, left, right, hasDiff);
  }

  /** A difference line has a difference iff one of its bytes is tagged removed or added. */
  lemma DiffLineTags(l: seq<byte>, r: seq<byte>, i: nat)
    requires i < |l| || i < |r|
    ensures LeftByte(l, r, i).kind == Remove || RightByte(l, r, i).kind == Add <==> Mismatch(l, r, i)
    ensures LeftByte(l, r, i).kind == Keep <==> RightByte(l, r, i).kind == Keep
  {
  }

  // ---------------------------------------------------------------------------
  // HexElement
  // ---------------------------------------------------------------------------

  /** Bytes consumed by a sequence of lines. */
  function ConsumedSum(lines: seq<HexLine>): nat
  {
    if lines == [] then 0 else ConsumedSum(lines[..|lines| - 1]) + lines[|lines| - 1].consumed
  }

  /** The data a dump shows: the kept bytes of every line, in order. */
  function Shown(lines: seq<HexLine>): seq<byte>
  {
    if lines == [] then [] else Shown(lines[..|lines| - 1]) + KeptValues(lines[|lines| - 1].left)
  }

  lemma LinesAppend(lines: seq<HexLine>, line: HexLine)
    ensures ConsumedSum(lines + [line]) == ConsumedSum(lines) + line.consumed
    ensures Shown(lines + [line]) == Shown(lines) + KeptValues(line.left)
  {
    assert (lines + [line])[..|lines|] == lines;
  }

  /** A dump row over the data from offset shows the bytes it consumes. */
  lemma DumpLineShows(data: seq<byte>, offset: nat, consumed: nat, front: nat, back: nat, left: seq<HexByte>)
    requires offset + consumed <= |data|
    requires left == Padding(front) + Kept(data[offset..][..consumed]) + Padding(back)
    ensures KeptValues(left) == data[offset..offset + consumed]
    ensures data[..offset + consumed] == data[..offset] + data[offset..offset + consumed]
  {
    var shown := data[offset..offset + consumed];
    assert data[offset..][..consumed] == shown;
    DumpRowShowsData(front, shown, back);
  }

  /**
   * HexElement(element): lines are added until the whole data is consumed,
   * each starting where the previous one ended; together they show exactly
   * the element's data.
   */
  method DumpElement(e: Element) returns (h: HexElement)
    ensures h.address == e.address && !h.isDiff && !h.hasDiff
    ensures ConsumedSum(h.lines) == |e.data|
    ensures Shown(h.lines) == e.data
    ensures forall k | 0 <= k < |h.lines| ::
      h.lines[k].consumed >= 1 && |h.lines[k].left| == 16 && h.lines[k].right == []
  {
    var lines: seq<HexLine> := [];
    var address: u32 := e.address;
    var data := e.data;
    var offset := 0;
    while offset < |data|
      invariant 0 <= offset <= |data|
      invariant ConsumedSum(lines) == offset
      invariant Shown(lines) == data[..offset]
      invariant forall k | 0 <= k < |lines| ::
        lines[k].consumed >= 1 && |lines[k].left| == 16 && lines[k].right == []
      decreases |data| - offset
    {
      var line := DumpLine(address, data[offset..]);
      DumpLineShows(data, offset, line.consumed, address % 16, 16 - address % 16 - line.consumed, line.left);
      LinesAppend(lines, line);
      address := (address + line.consumed) % 0x1_0000_0000;
      offset := offset + line.consumed;
      lines := lines + [line];
    }
    assert data[..offset] == data;
    h := HexElement(lines, e.address, false, false);
  }

  /** The data of an element that may be absent. */
  function DataOf(e: Option<Element>): seq<byte>
  {
    if e.Some? then e.value.data else []
  }

  /** QByteArray::mid(pos, 16) for a position inside the array; the empty array otherwise. */
  function Mid16(s: seq<byte>, pos: nat): (r: seq<byte>)
    ensures pos < |s| ==> |r| == Min(16, |s| - pos)
    ensures pos >= |s| ==> r == []
    ensures forall i | 0 <= i < |r| :: r[i] == s[pos + i]
  {
    if pos < |s| then s[pos..Min(pos + 16, |s|)] else []
  }

  /** Comparing the slices at an offset is comparing the whole sides at the shifted index. */
  lemma MismatchShift(l: seq<byte>, r: seq<byte>, offset: nat, i: nat)
    requires i < 16
    ensures Mismatch(Mid16(l, offset), Mid16(r, offset), i) <==> Mismatch(l, r, offset + i)
  {
  }

  /** Two byte strings differ iff they mismatch at some index below the longer length. */
  lemma MismatchIffDiffer(l: seq<byte>, r: seq<byte>)
    ensures (exists k | 0 <= k < Max(|l|, |r|) :: Mismatch(l, r, k)) <==> l != r
  {
    if l != r {
      if |l| != |r| {
        assert Mismatch(l, r, Min(|l|, |r|));
      } else {
        var k :| 0 <= k < |l| && l[k] != r[k];
        assert Mismatch(l, r, k);
      }
    }
  }

  /**
   * HexElement(left, right): the address is the right element's if there is
   * one; lines are added until the longer side is consumed; the element has
   * a difference iff the two data differ.
   */
  method DiffElement(left: Option<Element>, right: Option<Element>) returns (h: HexElement)
    ensures h.isDiff
    ensures h.address == (if right.Some? then right.value.address else if left.Some? then left.value.address else 0)
    ensures h.hasDiff <==> DataOf(left) != DataOf(right)
    ensures ConsumedSum(h.lines) == Max(|DataOf(left)|, |DataOf(right)|)
    ensures forall k | 0 <= k < |h.lines| :: h.lines[k].consumed >= 1 && |h.lines[k].left| == |h.lines[k].right|
  {
    var lines: seq<HexLine> := [];
    var hAddress: u32 := 0;
    var address: u32 := 0;
    var leftData: seq<byte> := [];
    var rightData: seq<byte> := [];
    if left.Some? {
      address, hAddress := left.value.address, left.value.address;
      leftData := left.value.data;
    }
    if right.Some? {
      address, hAddress := right.value.address, right.value.address;
      rightData := right.value.data;
    }
    var hasDiff := false;
    var n := Max(|leftData|, |rightData|);
    var offset := 0;
    while offset < n
      invariant 0 <= offset <= n
      invariant ConsumedSum(lines) == offset
      invariant hasDiff <==> exists k | 0 <= k < offset :: Mismatch(leftData, rightData, k)
      invariant forall k | 0 <= k < |lines| :: lines[k].consumed >= 1 && |lines[k].left| == |lines[k].right|
      decreases n - offset
    {
      var leftLine := Mid16(leftData, offset);
      var rightLine := Mid16(rightData, offset);
      assert 0 < |leftLine| || 0 < |rightLine|;
      var line := DiffLine(address, leftLine, rightLine);
      ExistsSplit(leftData, rightData, offset, line.consumed);
      LinesAppend(lines, line);
      address := (address + line.consumed) % 0x1_0000_0000;
      offset := offset + line.consumed;
      lines := lines + [line];
      hasDiff := hasDiff || line.hasDiff;
    }
    MismatchIffDiffer(leftData, rightData);
    h := HexElement(lines, hAddress, true, hasDiff);
  }

  /** A mismatch below offset + c is one below offset or one inside the slices at offset. */
  lemma ExistsSplit(l: seq<byte>, r: seq<byte>, offset: nat, c: nat)
    requires c <= 16
    ensures (exists k | 0 <= k < offset + c :: Mismatch(l, r, k)) <==>
      (exists k | 0 <= k < offset :: Mismatch(l, r, k))
      || (exists i | 0 <= i < c :: Mismatch(Mid16(l, offset), Mid16(r, offset), i))
  {
    if k :| 0 <= k < offset + c && Mismatch(l, r, k) {
      if k >= offset {
        MismatchShift(l, r, offset, k - offset);
      }
    }
    if i :| 0 <= i < c && Mismatch(Mid16(l, offset), Mid16(r, offset), i) {
      MismatchShift(l, r, offset, i);
    }
  }

  // ---------------------------------------------------------------------------
  // HexImage
  // ---------------------------------------------------------------------------

  /** HexImage(image): one dump element per image element, in order. */
  method DumpImage(image: Image) returns (h: HexImage)
    ensures |h.elements| == |image.elements|
    ensures forall k | 0 <= k < |h.elements| ::
      h.elements[k].address == image.elements[k].address
      && Shown(h.elements[k].lines) == image.elements[k].data
      && !h.elements[k].hasDiff
    ensures !h.isDiff && !h.hasDiff
  {
    var elements: seq<HexElement> := [];
    var i := 0;
    while i < |image.elements|
      invariant 0 <= i <= |image.elements| && |elements| == i
      invariant forall k | 0 <= k < i ::
        elements[k].address == image.elements[k].address
        && Shown(elements[k].lines) == image.elements[k].data
        && !elements[k].hasDiff
    {
      var e := DumpElement(image.elements[i]);
      elements := elements + [e];
      i := i + 1;
    }
    h := HexImage(elements, false, false);
  }

  /** One entry of an image difference: the left element, the right element, or both. */
  datatype Pair = Pair(left: Option<Element>, right: Option<Element>)

  /** The entry's address: the right element's when present. */
  function PairAddress(p: Pair): u32
  {
    if p.right.Some? then p.right.value.address else if p.left.Some? then p.left.value.address else 0
  }

  /** The pairing the two-index walk produces: lower start address first, equal start addresses together. */
  function Pairing(ls: seq<Element>, rs: seq<Element>): (plan: seq<Pair>)
    decreases |ls| + |rs|
  {
    if ls != [] && rs != [] then
      if ls[0].address < rs[0].address then [Pair(Some(ls[0]), None)] + Pairing(ls[1..], rs)
      else if ls[0].address > rs[0].address then [Pair(None, Some(rs[0]))] + Pairing(ls, rs[1..])
      else [Pair(Some(ls[0]), Some(rs[0]))] + Pairing(ls[1..], rs[1..])
    else if ls != [] then [Pair(Some(ls[0]), None)] + Pairing(ls[1..], rs)
    else if rs != [] then [Pair(None, Some(rs[0]))] + Pairing(ls, rs[1..])
    else []
  }

  function Lefts(plan: seq<Pair>): seq<Element>
  {
    if plan == [] then [] else (if plan[0].left.Some? then [plan[0].left.value] else []) + Lefts(plan[1..])
  }

  function Rights(plan: seq<Pair>): seq<Element>
  {
    if plan == [] then [] else (if plan[0].right.Some? then [plan[0].right.value] else []) + Rights(plan[1..])
  }

  predicate StrictlySorted(elements: seq<Element>)
  {
    forall i, j | 0 <= i < j < |elements| :: elements[i].address < elements[j].address
  }

  /** Entry k+1 never has a lower address than entry k. */
  predicate Ascending(plan: seq<Pair>)
  {
    forall k | 0 <= k < |plan| - 1 :: PairAddress(plan[k]) <= PairAddress(plan[k + 1])
  }

  predicate StrictlyAscending(plan: seq<Pair>)
  {
    forall k | 0 <= k < |plan| - 1 :: PairAddress(plan[k]) < PairAddress(plan[k + 1])
  }

  /** An entry holding two elements holds two with the same start address. */
  predicate PairsMatch(plan: seq<Pair>)
  {
    forall k | 0 <= k < |plan| :: plan[k].left.Some? && plan[k].right.Some? ==>
      plan[k].left.value.address == plan[k].right.value.address
  }

  /**
   * One step of the walk: the first entry takes the first element of one or
   * both lists, the one(s) with the lower start address, and the rest of the
   * pairing is that of what remains.
   */
  lemma PairingStep(ls: seq<Element>, rs: seq<Element>) returns (ls': seq<Element>, rs': seq<Element>)
    requires ls != [] || rs != []
    ensures var plan := Pairing(ls, rs);
      && plan != [] && plan[1..] == Pairing(ls', rs')
      && (if plan[0].left.Some? then ls != [] && plan[0].left.value == ls[0] && ls' == ls[1..] else ls' == ls)
      && (if plan[0].right.Some? then rs != [] && plan[0].right.value == rs[0] && rs' == rs[1..] else rs' == rs)
      && (plan[0].left.Some? || plan[0].right.Some?)
      && (plan[0].left.Some? && plan[0].right.Some? ==> ls[0].address == rs[0].address)
      && (plan[0].left.None? && ls != [] ==> PairAddress(plan[0]) < ls[0].address)
      && (plan[0].right.None? && rs != [] ==> PairAddress(plan[0]) < rs[0].address)
  {
    if ls != [] && rs != [] {
      if ls[0].address < rs[0].address {
        ls', rs' := ls[1..], rs;
      } else if ls[0].address > rs[0].address {
        ls', rs' := ls, rs[1..];
      } else {
        ls', rs' := ls[1..], rs[1..];
      }
    } else if ls != [] {
      ls', rs' := ls[1..], rs;
    } else {
      ls', rs' := ls, rs[1..];
    }
  }

  /** The entry's address is the start address of one of its elements. */
  lemma PairAddressOfElement(p: Pair)
    requires p.left.Some? || p.right.Some?
    ensures (p.left.Some? && PairAddress(p) == p.left.value.address)
         || (p.right.Some? && PairAddress(p) == p.right.value.address)
  {
  }

  /**
   * Every element of either image lands in exactly one entry, in its own
   * order, and every entry holds at least one element.
   */
  lemma {:induction false} PairingCoversEach(ls: seq<Element>, rs: seq<Element>)
    ensures Lefts(Pairing(ls, rs)) == ls && Rights(Pairing(ls, rs)) == rs
    ensures forall k | 0 <= k < |Pairing(ls, rs)| :: Pairing(ls, rs)[k].left.Some? || Pairing(ls, rs)[k].right.Some?
    decreases |ls| + |rs|
  {
    if ls != [] || rs != [] {
      var ls', rs' := PairingStep(ls, rs);
      PairingCoversEach(ls', rs');
      var plan := Pairing(ls, rs);
      forall k | 1 <= k < |plan|
        ensures plan[k].left.Some? || plan[k].right.Some?
      {
        assert plan[k] == Pairing(ls', rs')[k - 1];
      }
    }
  }

  /** For sorted images the second entry's address is not below the first's; above it when both are strictly sorted. */
  lemma PairingFirstTwo(ls: seq<Element>, rs: seq<Element>)
    requires Sorted(ls) && Sorted(rs)
    requires |Pairing(ls, rs)| > 1
    ensures PairAddress(Pairing(ls, rs)[0]) <= PairAddress(Pairing(ls, rs)[1])
    ensures StrictlySorted(ls) && StrictlySorted(rs) ==>
      PairAddress(Pairing(ls, rs)[0]) < PairAddress(Pairing(ls, rs)[1])
  {
    var plan := Pairing(ls, rs);
    var ls', rs' := PairingStep(ls, rs);
    var rest := Pairing(ls', rs');
    assert rest[0] == plan[1];
    var ls2, rs2 := PairingStep(ls', rs');
    PairAddressOfElement(plan[0]);
    PairAddressOfElement(rest[0]);
    if rest[0].left.Some? && ls' == ls[1..] {
      assert rest[0].left.value == ls[1];
    }
    if rest[0].right.Some? && rs' == rs[1..] {
      assert rest[0].right.value == rs[1];
    }
  }

  /** For sorted images the entries come in ascending address order. */
  lemma {:induction false} PairingAscending(ls: seq<Element>, rs: seq<Element>)
    requires Sorted(ls) && Sorted(rs)
    ensures Ascending(Pairing(ls, rs))
    decreases |ls| + |rs|
  {
    if ls != [] || rs != [] {
      var plan := Pairing(ls, rs);
      var ls', rs' := PairingStep(ls, rs);
      assert Sorted(ls') && Sorted(rs');
      PairingAscending(ls', rs');
      if |plan| > 1 {
        PairingFirstTwo(ls, rs);
      }
      forall k | 1 <= k < |plan| - 1
        ensures PairAddress(plan[k]) <= PairAddress(plan[k + 1])
      {
        assert plan[k] == Pairing(ls', rs')[k - 1] && plan[k + 1] == Pairing(ls', rs')[k];
      }
    }
  }

  /** When neither image repeats a start address, the entries come in strictly ascending order. */
  lemma {:induction false} PairingStrictlyAscending(ls: seq<Element>, rs: seq<Element>)
    requires StrictlySorted(ls) && StrictlySorted(rs)
    ensures StrictlyAscending(Pairing(ls, rs))
    decreases |ls| + |rs|
  {
    if ls != [] || rs != [] {
      var plan := Pairing(ls, rs);
      var ls', rs' := PairingStep(ls, rs);
      assert StrictlySorted(ls') && StrictlySorted(rs');
      PairingStrictlyAscending(ls', rs');
      if |plan| > 1 {
        PairingFirstTwo(ls, rs);
      }
      forall k | 1 <= k < |plan| - 1
        ensures PairAddress(plan[k]) < PairAddress(plan[k + 1])
      {
        assert plan[k] == Pairing(ls', rs')[k - 1] && plan[k + 1] == Pairing(ls', rs')[k];
      }
    }
  }

  /** An entry with two elements always pairs equal start addresses. */
  lemma {:induction false} PairingMatchesAddresses(ls: seq<Element>, rs: seq<Element>)
    ensures PairsMatch(Pairing(ls, rs))
    decreases |ls| + |rs|
  {
    if ls != [] || rs != [] {
      var plan := Pairing(ls, rs);
      var ls', rs' := PairingStep(ls, rs);
      PairingMatchesAddresses(ls', rs');
      forall k | 1 <= k < |plan|
        ensures plan[k] == Pairing(ls', rs')[k - 1]
      {
      }
    }
  }

  /** A difference element renders an entry: its address and whether the entry's data differ. */
  predicate Renders(e: HexElement, p: Pair)
  {
    e.isDiff && e.address == PairAddress(p) && (e.hasDiff <==> DataOf(p.left) != DataOf(p.right))
  }

  /** The walk's next entry at indices i and j, and the indices after it. */
  lemma PairingAt(ls: seq<Element>, rs: seq<Element>, i: nat, j: nat)
    requires i <= |ls| && j <= |rs| && (i < |ls| || j < |rs|)
    ensures i < |ls| && (j == |rs| || ls[i].address < rs[j].address) ==>
      Pairing(ls[i..], rs[j..]) == [Pair(Some(ls[i]), None)] + Pairing(ls[i + 1..], rs[j..])
    ensures j < |rs| && (i == |ls| || ls[i].address > rs[j].address) ==>
      Pairing(ls[i..], rs[j..]) == [Pair(None, Some(rs[j]))] + Pairing(ls[i..], rs[j + 1..])
    ensures i < |ls| && j < |rs| && ls[i].address == rs[j].address ==>
      Pairing(ls[i..], rs[j..]) == [Pair(Some(ls[i]), Some(rs[j]))] + Pairing(ls[i + 1..], rs[j + 1..])
  {
    if i < |ls| {
      assert ls[i..][1..] == ls[i + 1..];
    }
    if j < |rs| {
      assert rs[j..][1..] == rs[j + 1..];
    }
  }

  /**
   * One step of the two-index walk over two element lists: the entry for
   * the element(s) with the lower start address, and the indices after it.
   */
  method NextPair(ls: seq<Element>, rs: seq<Element>, i: nat, j: nat) returns (pair: Pair, i': nat, j': nat)
    requires i <= |ls| && j <= |rs| && (i < |ls| || j < |rs|)
    ensures i <= i' <= |ls| && j <= j' <= |rs| && i + j < i' + j'
    ensures Pairing(ls[i..], rs[j..]) == [pair] + Pairing(ls[i'..], rs[j'..])
  {
    PairingAt(ls, rs, i, j);
    i', j' := i, j;
    if i < |ls| && j < |rs| {
      if ls[i].address < rs[j].address {
        pair := Pair(Some(ls[i]), None);
        i' := i + 1;
      } else if ls[i].address > rs[j].address {
        pair := Pair(None, Some(rs[j]));
        j' := j + 1;
      } else {
        pair := Pair(Some(ls[i]), Some(rs[j]));
        i', j' := i + 1, j + 1;
      }
    } else if i < |ls| {
      pair := Pair(Some(ls[i]), None);
      i' := i + 1;
    } else {
      pair := Pair(None, Some(rs[j]));
      j' := j + 1;
    }
  }

  /** Sequence regrouping the pairing loops use to keep their invariant; it models nothing on its own. */
  lemma WalkStep(done: seq<Pair>, pair: Pair, rest: seq<Pair>)
    ensures done + ([pair] + rest) == (done + [pair]) + rest
  {
  }

  /** Some element of the image has a difference. */
  predicate AnyDiff(elements: seq<HexElement>)
  {
    exists k | 0 <= k < |elements| :: elements[k].hasDiff
  }

  lemma AnyDiffAppend(elements: seq<HexElement>, e: HexElement)
    ensures AnyDiff(elements + [e]) <==> AnyDiff(elements) || e.hasDiff
  {
    var all := elements + [e];
    assert all[|elements|] == e;
    if k :| 0 <= k < |elements| && elements[k].hasDiff {
      assert all[k] == elements[k];
    }
  }

  /**
   * HexImage(left, right): walks both element lists with two indices and
   * emits one difference element per entry of Pairing. The image's own
   * isDiff flag is never set.
   */
  method DiffImage(left: Image, right: Image) returns (h: HexImage)
    ensures var plan := Pairing(left.elements, right.elements);
      |h.elements| == |plan| && forall k | 0 <= k < |plan| :: Renders(h.elements[k], plan[k])
    ensures !h.isDiff
    ensures h.hasDiff <==> AnyDiff(h.elements)
  {
    var ls, rs := left.elements, right.elements;
    ghost var done: seq<Pair> := [];
    ghost var plan := Pairing(ls, rs);
    var elements: seq<HexElement> := [];
    var hasDiff := false;
    var i, j := 0, 0;
    assert ls[0..] == ls && rs[0..] == rs;
    while i < |ls| || j < |rs|
      invariant 0 <= i <= |ls| && 0 <= j <= |rs|
      invariant |done| == |elements| && plan == done + Pairing(ls[i..], rs[j..])
      invariant forall k | 0 <= k < |elements| :: Renders(elements[k], done[k])
      invariant hasDiff <==> AnyDiff(elements)
      decreases |ls| - i + |rs| - j
    {
      var pair;
      ghost var before := Pairing(ls[i..], rs[j..]);
      pair, i, j := NextPair(ls, rs, i, j);
      WalkStep(done, pair, Pairing(ls[i..], rs[j..]));
      var e := DiffElement(pair.left, pair.right);
      done := done + [pair];
      AnyDiffAppend(elements, e);
      elements := elements + [e];
      hasDiff := hasDiff || e.hasDiff;
    }
    assert ls[i..] == [] && rs[j..] == [];
    assert plan == done;
    h := HexImage(elements, false, hasDiff);
  }
}
