/**
 * A received codeplug image: a list of elements (start address and bytes)
 * kept in ascending order of start address. Writes that continue an element
 * exactly where it ends extend it; any other write becomes a new element,
 * placed by a bisection over the start addresses.
 */
module ImageModel {
  import opened Bytes

  const U32_RANGE: int := 0x1_0000_0000

  datatype Element = Element(address: u32, data: seq<byte>)

  /** End address of an element, in the source's 32-bit unsigned arithmetic. */
  function End(e: Element): int
  {
    (e.address + |e.data|) % U32_RANGE
  }

  /** Element::extends: the address is exactly where the element ends. */
  predicate Extends(e: Element, address: u32)
  {
    address == End(e)
  }

  /** Element::data(address): the byte at address, or None outside [address, address+size). */
  function DataAt(e: Element, address: u32): (r: Option<byte>)
    ensures e.address + |e.data| < U32_RANGE ==>
      (r.Some? <==> e.address <= address < e.address + |e.data|)
    ensures r.Some? ==> e.address <= address < e.address + |e.data| && r.value == e.data[address - e.address]
  {
    if address < e.address || address >= End(e) then None
    else Some(e.data[address - e.address])
  }

  /** Element::operator== compares address and content. */
  predicate Equal(x: Element, y: Element)
  {
    x.address == y.address && x.data == y.data
  }

  /** Element::operator!= as written: differing address or differing content. */
  predicate NotEqual(x: Element, y: Element)
  {
    x.address != y.address || x.data != y.data
  }

  lemma EqualityOperators(x: Element, y: Element)
    ensures Equal(x, y) <==> x == y
    ensures NotEqual(x, y) <==> !Equal(x, y)
  {
  }

  /** Element::append: the old bytes stay as a prefix and the size grows by |data|. */
  function Appended(e: Element, data: seq<byte>): (r: Element)
    ensures r.address == e.address
    ensures |r.data| == |e.data| + |data|
    ensures r.data[..|e.data|] == e.data && r.data[|e.data|..] == data
  {
    Element(e.address, e.data + data)
  }

  predicate Sorted(elements: seq<Element>)
  {
    forall i, j | 0 <= i < j < |elements| :: elements[i].address <= elements[j].address
  }

  // ---------------------------------------------------------------------------
  // Image::findInsertionIndex
  // ---------------------------------------------------------------------------

  /**
   * findInsertionIndex as written, run for at most `fuel` calls: None when the
   * fuel runs out. The test against the last element is a strict `>`.
   */
  function FindInsertionIndexAsWritten(elements: seq<Element>, address: u32, a: nat, b: nat, fuel: nat): Option<nat>
    requires a <= b <= |elements|
    decreases fuel
  {
    if fuel == 0 then None
    else if a == b then Some(a)
    else if address < elements[a].address then Some(a)
    else if address > elements[b - 1].address then Some(b)
    else
      var m := (a + b) / 2;
      if address < elements[m].address then FindInsertionIndexAsWritten(elements, address, a, m, fuel - 1)
      else FindInsertionIndexAsWritten(elements, address, m, b, fuel - 1)
  }

  /**
   * When an element in [a, b) starts exactly at address, the bisection keeps
   * such an element inside its interval and never returns: once the interval
   * has one element, it calls itself with the same bounds.
   */
  lemma {:induction false} FindInsertionIndexAsWrittenDiverges(elements: seq<Element>, address: u32, a: nat, b: nat, j: nat, fuel: nat)
    requires a <= b <= |elements| && Sorted(elements)
    requires a <= j < b && elements[j].address == address
    ensures FindInsertionIndexAsWritten(elements, address, a, b, fuel) == None
    decreases fuel
  {
    if fuel > 0 {
      var m := (a + b) / 2;
      if address < elements[m].address {
        FindInsertionIndexAsWrittenDiverges(elements, address, a, m, j, fuel - 1);
      } else if j >= m {
        FindInsertionIndexAsWrittenDiverges(elements, address, m, b, j, fuel - 1);
      } else {
        FindInsertionIndexAsWrittenDiverges(elements, address, m, b, m, fuel - 1);
      }
    }
  }

  /** Concretely: appending at 0x10 to an image whose element starts at 0x10 never finds its index. */
  lemma FindInsertionIndexAsWrittenHangs(fuel: nat)
    ensures FindInsertionIndexAsWritten([Element(0x10, [1, 2])], 0x10, 0, 1, fuel) == None
  {
    FindInsertionIndexAsWrittenDiverges([Element(0x10, [1, 2])], 0x10, 0, 1, 0, fuel);
  }

  /**
   * findInsertionIndex with the last-element test made `>=`: the bisection
   * then always terminates and returns the upper bound, the index after every
   * element of [a, b) that starts at or below address.
   */
  function FindInsertionIndex(elements: seq<Element>, address: u32, a: nat, b: nat): (r: nat)
    requires a <= b <= |elements| && Sorted(elements)
    ensures a <= r <= b
    ensures forall i | a <= i < r :: elements[i].address <= address
    ensures forall i | r <= i < b :: elements[i].address > address
    decreases b - a
  {
    if a == b then a
    else if address < elements[a].address then a
    else if address >= elements[b - 1].address then b
    else
      var m := (a + b) / 2;
      if address < elements[m].address then FindInsertionIndex(elements, address, a, m)
      else FindInsertionIndex(elements, address, m, b)
  }

  /**
   * The two agree wherever the source terminates: when no element of [a, b)
   * starts at address, the source's bisection returns the same index.
   */
  lemma {:induction false} FindInsertionIndexAgrees(elements: seq<Element>, address: u32, a: nat, b: nat, fuel: nat)
    requires a <= b <= |elements| && Sorted(elements)
    requires forall i | a <= i < b :: elements[i].address != address
    requires fuel > b - a
    ensures FindInsertionIndexAsWritten(elements, address, a, b, fuel) == Some(FindInsertionIndex(elements, address, a, b))
    decreases b - a
  {
    if a < b && elements[a].address <= address && address <= elements[b - 1].address {
      var m := (a + b) / 2;
      if address < elements[m].address {
        FindInsertionIndexAgrees(elements, address, a, m, fuel - 1);
      } else {
        FindInsertionIndexAgrees(elements, address, m, b, fuel - 1);
      }
    }
  }

  /** The index at which Image::add inserts an element. */
  function InsertionIndex(elements: seq<Element>, address: u32): (r: nat)
    requires Sorted(elements)
    ensures r <= |elements|
  {
    FindInsertionIndex(elements, address, 0, |elements|)
  }

  /** Inserting at the insertion index keeps the list sorted. */
  lemma InsertKeepsSorted(elements: seq<Element>, e: Element)
    requires Sorted(elements)
    ensures var k := InsertionIndex(elements, e.address);
      Sorted(elements[..k] + [e] + elements[k..])
  {
  }

  /** Image::findPred: the last element starting at or below address, None iff the index is 0. */
  function FindPred(elements: seq<Element>, address: u32): (r: Option<nat>)
    requires Sorted(elements)
    ensures r.None? <==> InsertionIndex(elements, address) == 0
    ensures r.Some? ==> (r.value < |elements| && elements[r.value].address <= address
                         && forall i | r.value < i < |elements| :: elements[i].address > address)
  {
    var k := InsertionIndex(elements, address);
    if k == 0 then None else Some(k - 1)
  }

  /** The element list after Image::append(address, data). */
  function AppendedImage(elements: seq<Element>, address: u32, data: seq<byte>): seq<Element>
    requires Sorted(elements)
  {
    var pred := FindPred(elements, address);
    if pred.None? || !Extends(elements[pred.value], address) then
      var k := InsertionIndex(elements, address);
      elements[..k] + [Element(address, data)] + elements[k..]
    else
      elements[pred.value := Appended(elements[pred.value], data)]
  }

  /**
   * Image::append extends the predecessor exactly when it ends at address
   * (and then nothing else changes); otherwise one new element holding the
   * data is inserted and the others keep their order. The list stays sorted.
   */
  lemma AppendedImageMeaning(elements: seq<Element>, address: u32, data: seq<byte>)
    requires Sorted(elements)
    ensures Sorted(AppendedImage(elements, address, data))
    ensures var pred := FindPred(elements, address);
      var ext := pred.Some? && Extends(elements[pred.value], address);
      var r := AppendedImage(elements, address, data);
      && (ext ==> (|r| == |elements| && r[pred.value] == Appended(elements[pred.value], data)
                   && forall i | 0 <= i < |elements| && i != pred.value :: r[i] == elements[i]))
      && (!ext ==> (|r| == |elements| + 1 && r[InsertionIndex(elements, address)] == Element(address, data)))
  {
    InsertKeepsSorted(elements, Element(address, data));
  }

  /** An image that received any write is non-empty. */
  lemma AppendedImageNonEmpty(elements: seq<Element>, address: u32, data: seq<byte>)
    requires Sorted(elements)
    ensures AppendedImage(elements, address, data) != []
  {
    AppendedImageMeaning(elements, address, data);
  }

  /** The element covers address: it starts at or below it and ends above it, without wrapping. */
  predicate Covers(e: Element, address: u32)
  {
    e.address <= address < e.address + |e.data|
  }

  /** Elements that neither overlap their successor nor run past the 32-bit address space. */
  predicate Disjoint(elements: seq<Element>)
  {
    && (forall i | 0 <= i < |elements| :: elements[i].address + |elements[i].data| < U32_RANGE)
    && (forall i | 0 <= i < |elements| - 1 :: elements[i].address + |elements[i].data| <= elements[i + 1].address)
  }

  /** Image::data(address): the byte the predecessor element holds at address, if it reaches that far. */
  function ByteOf(elements: seq<Element>, address: u32): (r: Option<byte>)
    requires Sorted(elements)
    ensures r.Some? ==> exists i | 0 <= i < |elements| ::
      Covers(elements[i], address) && r == Some(elements[i].data[address - elements[i].address])
  {
    var pred := FindPred(elements, address);
    if pred.None? then None else DataAt(elements[pred.value], address)
  }

  /**
   * Looking only at the predecessor loses nothing when the elements are
   * disjoint: a byte comes back exactly when some element covers the
   * address, and it is that element's byte.
   */
  lemma ByteOfMeaning(elements: seq<Element>, address: u32)
    requires Sorted(elements) && Disjoint(elements)
    ensures ByteOf(elements, address).Some? <==> exists i | 0 <= i < |elements| :: Covers(elements[i], address)
    ensures forall i | 0 <= i < |elements| && Covers(elements[i], address) ::
      ByteOf(elements, address) == Some(elements[i].data[address - elements[i].address])
  {
    forall i | 0 <= i < |elements| && Covers(elements[i], address)
      ensures ByteOf(elements, address) == Some(elements[i].data[address - elements[i].address])
    {
      var k := InsertionIndex(elements, address);
      assert i < k;
      if i + 1 < |elements| {
        assert address < elements[i + 1].address;
      }
    }
  }

  /** A codeplug image under construction. */
  class Image {
    var elements: seq<Element>

    ghost predicate Valid()
      reads this
    {
      Sorted(elements)
    }

    constructor ()
      ensures Valid() && elements == []
    {
      elements := [];
    }

    /** Image::data(address): the byte held by the predecessor element, if any. */
    function Data(address: u32): (r: Option<byte>)
      requires Valid()
      reads this
      ensures r == ByteOf(elements, address)
      ensures r.Some? ==> exists i | 0 <= i < |elements| :: DataAt(elements[i], address) == r
      ensures Disjoint(elements) ==> (r.Some? <==> exists i | 0 <= i < |elements| :: Covers(elements[i], address))
      ensures Disjoint(elements) ==> forall i | 0 <= i < |elements| && Covers(elements[i], address) ::
        r == Some(elements[i].data[address - elements[i].address])
    {
      if Disjoint(elements) then ByteOfMeaning(elements, address); ByteOf(elements, address)
      else ByteOf(elements, address)
    }

    /** Image::add: inserts the element at its insertion index. */
    method Add(e: Element)
      requires Valid()
      modifies this
      ensures Valid()
      ensures var k := InsertionIndex(old(elements), e.address);
        elements == old(elements)[..k] + [e] + old(elements)[k..]
    {
      InsertKeepsSorted(elements, e);
      var k := InsertionIndex(elements, e.address);
      elements := elements[..k] + [e] + elements[k..];
    }

    /** Image::append. */
    method Append(address: u32, data: seq<byte>)
      requires Valid()
      modifies this
      ensures Valid()
      ensures elements == AppendedImage(old(elements), address, data)
    {
      AppendedImageMeaning(elements, address, data);
      var pred := FindPred(elements, address);
      if pred.None? || !Extends(elements[pred.value], address) {
        Add(Element(address, data));
        return;
      }
      elements := elements[pred.value := Appended(elements[pred.value], data)];
    }
  }
}
