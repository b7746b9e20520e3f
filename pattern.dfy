/**
 * The codeplug pattern tree: pattern flags and their combination over a
 * tree, the containers that hold child patterns (the codeplug, which keeps
 * its children sorted by address; element patterns, which lay their
 * children out contiguously from address zero; the single-slot repeat and
 * fragment patterns), and the field decoders for BCD numbers and bit fields.
 *
 * Addresses and sizes are bit counts, as for Address and Size. A child
 * pattern is seen by its container only through its address, its size and
 * whether it is a FixedPattern.
 */
module PatternModel {
  import B = Bytes

  /* ------------------------------------------------------------------ *
   * Flags
   * ------------------------------------------------------------------ */

  /** PatternMeta::Flags, in declaration order. */
  datatype Flags = None | Done | NeedsReview | Incomplete

  function Rank(f: Flags): nat
  {
    match f
    case None => 0
    case Done => 1
    case NeedsReview => 2
    case Incomplete => 3
  }

  /** operator+ on flags: the flag later in the declaration order wins. */
  function Plus(a: Flags, b: Flags): (r: Flags)
    ensures r == a || r == b
    ensures Rank(r) == B.Max(Rank(a), Rank(b))
  {
    if Rank(a) < Rank(b) then b else a
  }

  /** Combining flags is commutative, associative and idempotent. */
  lemma PlusLaws(a: Flags, b: Flags, c: Flags)
    ensures Plus(a, b) == Plus(b, a)
    ensures Plus(Plus(a, b), c) == Plus(a, Plus(b, c))
    ensures Plus(a, a) == a
    ensures Plus(None, a) == a
  {
  }

  /** The flags of a pattern and of its children, as combinedFlags walks them. */
  datatype PatternTree = PatternTree(flags: Flags, children: seq<PatternTree>)

  /** combinedFlags: the own flags combined with those of every child in turn. */
  function CombinedFlags(t: PatternTree): Flags
    decreases t, 1
  {
    CombineFirst(t, |t.children|)
  }

  /** The own flags combined with the combined flags of the first n children. */
  function CombineFirst(t: PatternTree, n: nat): Flags
    requires n <= |t.children|
    decreases t, 0, n
  {
    if n == 0 then t.flags else Plus(CombineFirst(t, n - 1), CombinedFlags(t.children[n - 1]))
  }

  /** f is the flag of some pattern in the tree. */
  predicate InTree(f: Flags, t: PatternTree)
    decreases t
  {
    f == t.flags || exists i :: 0 <= i < |t.children| && InTree(f, t.children[i])
  }

  /**
   * GroupPattern/ElementPattern/BlockRepeatPattern/FixedRepeatPattern::
   * combinedFlags: the own flags, then += the combined flags of each child.
   */
  method CombinedFlagsOf(t: PatternTree) returns (flags: Flags)
    ensures flags == CombinedFlags(t)
    decreases t
  {
    flags := t.flags;
    var i := 0;
    while i < |t.children|
      invariant i <= |t.children|
      invariant flags == CombineFirst(t, i)
    {
      var child := CombinedFlagsOf(t.children[i]);
      flags := Plus(flags, child);
      i := i + 1;
    }
  }

  /** The combined flags are the highest flag anywhere in the tree, and some pattern carries them. */
  lemma {:induction false} CombinedIsMaximum(t: PatternTree)
    ensures InTree(CombinedFlags(t), t)
    ensures forall f :: InTree(f, t) ==> Rank(f) <= Rank(CombinedFlags(t))
    decreases t, 1
  {
    CombineFirstIsMaximum(t, |t.children|);
  }

  lemma {:induction false} CombineFirstIsMaximum(t: PatternTree, n: nat)
    requires n <= |t.children|
    ensures CombineFirst(t, n) == t.flags
         || exists i :: 0 <= i < n && InTree(CombineFirst(t, n), t.children[i])
    ensures Rank(t.flags) <= Rank(CombineFirst(t, n))
    ensures forall i, f :: 0 <= i < n && InTree(f, t.children[i]) ==> Rank(f) <= Rank(CombineFirst(t, n))
    decreases t, 0, n
  {
    if n > 0 {
      CombineFirstIsMaximum(t, n - 1);
      CombinedIsMaximum(t.children[n - 1]);
      var r := CombineFirst(t, n);
      if r != CombineFirst(t, n - 1) {
        assert r == CombinedFlags(t.children[n - 1]);
        assert InTree(r, t.children[n - 1]);
      }
    }
  }

  /** The combined flags of a tree are in the tree, so InTree is what CombinedIsMaximum ranges over. */
  lemma CombinedFlagsOfLeaf(f: Flags)
    ensures CombinedFlags(PatternTree(f, [])) == f
  {
  }

  /* ------------------------------------------------------------------ *
   * Child containers
   * ------------------------------------------------------------------ */

  /**
   * What a container reads and writes of a child pattern: its address
   * (None for the invalid Address a pattern has before one is set), its
   * size in bits, and whether it is a FixedPattern.
   */
  datatype Child = Child(address: B.Option<nat>, size: nat, fixed: bool)

  /** Sum of the sizes of a sequence of children. */
  function TotalSize(cs: seq<Child>): nat
  {
    if cs == [] then 0 else TotalSize(cs[..|cs| - 1]) + cs[|cs| - 1].size
  }

  lemma {:induction false} TotalSizeAppend(a: seq<Child>, b: seq<Child>)
    ensures TotalSize(a + b) == TotalSize(a) + TotalSize(b)
    decreases |b|
  {
    if b != [] {
      var ab := a + b;
      assert ab[..|ab| - 1] == a + b[..|b| - 1];
      assert ab[|ab| - 1] == b[|b| - 1];
      assert TotalSize(ab) == TotalSize(ab[..|ab| - 1]) + ab[|ab| - 1].size;
      TotalSizeAppend(a, b[..|b| - 1]);
    } else {
      assert a + b == a;
    }
  }

  /** Where child i starts when the children are laid out back to back from zero. */
  function Offset(cs: seq<Child>, i: nat): nat
    requires i <= |cs|
  {
    TotalSize(cs[..i])
  }

  lemma OffsetNext(cs: seq<Child>, i: nat)
    requires i < |cs|
    ensures Offset(cs, i + 1) == Offset(cs, i) + cs[i].size
  {
    assert cs[..i + 1][..i] == cs[..i];
  }

  /** The children with addresses recomputed: each starts where the previous one ends, the first at zero. */
  function Readdressed(cs: seq<Child>): (r: seq<Child>)
    ensures |r| == |cs|
    ensures forall i {:trigger r[i]} :: 0 <= i < |cs| ==> r[i] == cs[i].(address := B.Some(Offset(cs, i)))
  {
    seq(|cs|, i requires 0 <= i < |cs| => cs[i].(address := B.Some(Offset(cs, i))))
  }

  /** Recomputing addresses changes no size. */
  lemma {:induction false} ReaddressedSizes(cs: seq<Child>, i: nat)
    requires i <= |cs|
    ensures Offset(Readdressed(cs), i) == Offset(cs, i)
  {
    if i > 0 {
      ReaddressedSizes(cs, i - 1);
      OffsetNext(cs, i - 1);
      OffsetNext(Readdressed(cs), i - 1);
    }
  }

  /** Every child starts where the previous one ends, the first at address zero. */
  predicate Contiguous(cs: seq<Child>)
  {
    forall i {:trigger Offset(cs, i)} :: 0 <= i < |cs| ==> cs[i].address == B.Some(Offset(cs, i))
  }

  /** Re-addressing yields a contiguous layout, and a contiguous layout is its own re-addressing. */
  lemma ReaddressedContiguous(cs: seq<Child>)
    ensures Contiguous(Readdressed(cs))
    ensures Contiguous(cs) ==> Readdressed(cs) == cs
  {
    forall i | 0 <= i < |cs|
      ensures Readdressed(cs)[i].address == B.Some(Offset(Readdressed(cs), i))
    {
      ReaddressedSizes(cs, i);
    }
    if Contiguous(cs) {
      forall i | 0 <= i < |cs|
        ensures Readdressed(cs)[i] == cs[i]
      {
        assert cs[i].address == B.Some(Offset(cs, i));
      }
    }
  }

  /** The codeplug keeps its children sorted by address; each has an address. */
  predicate SortedByAddress(cs: seq<Child>)
  {
    (forall i :: 0 <= i < |cs| ==> cs[i].address.Some?)
    && (forall i, j :: 0 <= i < j < |cs| ==> cs[i].address.value <= cs[j].address.value)
  }

  /** Where CodeplugPattern::addChildPattern inserts a child: before the first child not below addr. */
  function InsertionIndex(cs: seq<Child>, addr: nat): (k: nat)
    requires forall i :: 0 <= i < |cs| ==> cs[i].address.Some?
    ensures k <= |cs|
    ensures forall i :: 0 <= i < k ==> cs[i].address.value < addr
    ensures k < |cs| ==> addr <= cs[k].address.value
  {
    if cs == [] || addr <= cs[0].address.value then 0 else 1 + InsertionIndex(cs[1..], addr)
  }

  /** A codeplug pattern: the top-level patterns, each placed at an explicit address. */
  class CodeplugPattern {
    var content: seq<Child>

    predicate Valid()
      reads this
    {
      SortedByAddress(content)
    }

    constructor()
      ensures content == [] && Valid()
    {
      content := [];
    }

    /**
     * addChildPattern: a pattern without an address is refused; otherwise it
     * goes before the first child whose address is not below its own.
     */
    method AddChildPattern(pattern: Child) returns (ok: bool)
      requires Valid()
      modifies this
      ensures ok <==> pattern.address.Some?
      ensures ok ==> var k := InsertionIndex(old(content), pattern.address.value);
                     content == old(content)[..k] + [pattern] + old(content)[k..]
      ensures !ok ==> content == old(content)
      ensures Valid()
    {
      if pattern.address.None? {
        return false;
      }
      var addr := pattern.address.value;
      var idx := 0;
      while idx < |content| && addr > content[idx].address.value
        invariant idx <= |content|
        invariant forall i :: 0 <= i < idx ==> content[i].address.value < addr
      {
        idx := idx + 1;
      }
      assert idx == InsertionIndex(content, addr) by {
        InsertionIndexUnique(content, addr, idx);
      }
      InsertKeepsSorted(content, idx, pattern);
      content := content[..idx] + [pattern] + content[idx..];
      ok := true;
    }

    /** takeChild: removes and returns child n, or nothing when n is out of range. */
    method TakeChild(n: nat) returns (taken: B.Option<Child>)
      requires Valid()
      modifies this
      ensures n < |old(content)| ==> taken == B.Some(old(content)[n])
                                     && content == old(content)[..n] + old(content)[n + 1..]
      ensures n >= |old(content)| ==> taken == B.None && content == old(content)
      ensures Valid()
    {
      if n >= |content| {
        return B.None;
      }
      taken := B.Some(content[n]);
      content := content[..n] + content[n + 1..];
    }
  }

  lemma InsertionIndexUnique(cs: seq<Child>, addr: nat, k: nat)
    requires SortedByAddress(cs)
    requires k <= |cs|
    requires forall i :: 0 <= i < k ==> cs[i].address.value < addr
    requires k < |cs| ==> addr <= cs[k].address.value
    ensures k == InsertionIndex(cs, addr)
  {
  }

  /** Inserting at the insertion index keeps a sorted sequence sorted. */
  lemma InsertKeepsSorted(cs: seq<Child>, k: nat, c: Child)
    requires SortedByAddress(cs)
    requires c.address.Some?
    requires k == InsertionIndex(cs, c.address.value)
    ensures SortedByAddress(cs[..k] + [c] + cs[k..])
  {
    var front := cs[..k] + [c];
    SortedSlice(cs, 0, k);
    if k > 0 {
      SortedJoin(cs[..k], [c]);
    }
    if k < |cs| {
      SortedSlice(cs, k, |cs|);
      assert cs[k..|cs|] == cs[k..];
      SortedJoin(front, cs[k..]);
    } else {
      assert cs[k..] == [];
      assert front + cs[k..] == front;
    }
  }

  /** A slice of a sorted list is sorted. */
  lemma SortedSlice(cs: seq<Child>, from: nat, to: nat)
    requires SortedByAddress(cs) && from <= to <= |cs|
    ensures SortedByAddress(cs[from..to])
  {
    var s := cs[from..to];
    assert forall i | 0 <= i < |s| :: s[i] == cs[from + i];
  }

  /** Two sorted lists, the first ending no higher than the second starts, join into a sorted list. */
  lemma SortedJoin(xs: seq<Child>, ys: seq<Child>)
    requires SortedByAddress(xs) && SortedByAddress(ys) && xs != [] && ys != []
    requires xs[|xs| - 1].address.value <= ys[0].address.value
    ensures SortedByAddress(xs + ys)
  {
    var r := xs + ys;
    forall i, j | 0 <= i < j < |r|
      ensures r[i].address.value <= r[j].address.value
    {
      if i < |xs| <= j {
        assert r[i].address.value <= xs[|xs| - 1].address.value;
        assert ys[0].address.value <= r[j].address.value;
      }
    }
  }

  /**
   * An element pattern: fixed-size children laid out back to back from
   * address zero. Its size is the sum of the children's sizes; before the
   * first child is added it has no size (None).
   */
  class ElementPattern {
    var content: seq<Child>
    var size: B.Option<nat>

    predicate Valid()
      reads this
    {
      (forall i :: 0 <= i < |content| ==> content[i].fixed)
      && Contiguous(content)
      && (content != [] ==> size == B.Some(TotalSize(content)))
      && (content == [] ==> size == B.None || size == B.Some(0))
    }

    constructor()
      ensures content == [] && size == B.None && Valid()
    {
      content := [];
      size := B.None;
    }

    /**
     * addChildPattern: only a fixed pattern is accepted, and only when it
     * has no address or the address where the last child ends. It is placed
     * there and the element grows by its size.
     */
    method AddChildPattern(pattern: Child) returns (ok: bool)
      requires Valid()
      modifies this
      ensures ok <==> pattern.fixed
                      && (pattern.address.None? || pattern.address == B.Some(TotalSize(old(content))))
      ensures ok ==> content == old(content) + [pattern.(address := B.Some(TotalSize(old(content))))]
      ensures ok ==> size == B.Some(TotalSize(content))
      ensures !ok ==> content == old(content) && size == old(size)
      ensures Valid()
    {
      if !pattern.fixed {
        return false;
      }
      var addr := 0;
      if content != [] {
        PrefixEnd(content, |content|);
        var last := content[|content| - 1];
        addr := last.address.value + last.size;
      }
      OffsetAll(content);
      if pattern.address.Some? && pattern.address.value != addr {
        return false;
      }
      var placed := pattern.(address := B.Some(addr));
      AppendContiguous(content, placed);
      content := content + [placed];
      if size.Some? {
        size := B.Some(size.value + placed.size);
      } else {
        size := B.Some(placed.size);
      }
      ok := true;
    }

    /**
     * insertChildPattern: refused when idx is past the end, or when the
     * pattern has an address other than the one at idx. Otherwise the
     * pattern is inserted at idx and every later child is moved up by its
     * size.
     */
    method InsertChildPattern(pattern: Child, idx: nat) returns (ok: bool)
      requires Valid()
      requires pattern.fixed
      modifies this
      ensures ok <==> idx <= |old(content)|
                      && (pattern.address.None? || pattern.address == B.Some(Offset(old(content), idx)))
      ensures ok ==> content == Readdressed(old(content)[..idx] + [pattern] + old(content)[idx..])
      ensures ok ==> size == B.Some(TotalSize(content))
      ensures !ok ==> content == old(content) && size == old(size)
      ensures Valid()
    {
      if idx > |content| {
        return false;
      }
      var addr := 0;
      if content != [] && idx == |content| {
        PrefixEnd(content, |content|);
        var last := content[|content| - 1];
        addr := last.address.value + last.size;
      } else if content != [] {
        assert content[idx].address == B.Some(Offset(content, idx));
        addr := content[idx].address.value;
      }
      if pattern.address.Some? && pattern.address.value != addr {
        return false;
      }
      assert addr == Offset(content, idx) by {
        if content == [] { assert idx == 0; } else if idx == |content| { OffsetNext(content, idx - 1); }
      }
      ghost var inserted := content[..idx] + [pattern] + content[idx..];
      var cs := content[..idx] + [pattern.(address := B.Some(addr))] + content[idx..];
      var mySize := if size.Some? then size.value + pattern.size else pattern.size;
      InsertedPrefix(content, idx, pattern, addr);
      cs := ReflowAfter(cs, inserted, idx + 1);
      InsertedLayout(content, idx, pattern);
      assert TotalSize(cs) == TotalSize(old(content)) + pattern.size;
      content := cs;
      size := B.Some(mySize);
      ok := true;
    }

    /**
     * takeChild: removes child n, moves every later child down by its size
     * and shrinks the element by it. Out of range, nothing happens.
     */
    method TakeChild(n: nat) returns (taken: B.Option<Child>)
      requires Valid()
      modifies this
      ensures n < |old(content)| ==> taken == B.Some(old(content)[n])
                                     && content == Readdressed(old(content)[..n] + old(content)[n + 1..])
                                     && size == B.Some(TotalSize(content))
      ensures n >= |old(content)| ==> taken == B.None && content == old(content) && size == old(size)
      ensures Valid()
    {
      if n >= |content| {
        return B.None;
      }
      var removed := content[n];
      taken := B.Some(removed);
      var cs := content[..n] + content[n + 1..];
      RemoveSize(content, n);
      var mySize := size.value - removed.size;
      var addr := 0;
      if n != 0 {
        PrefixEnd(content, n);
        addr := cs[n - 1].address.value + cs[n - 1].size;
      }
      assert addr == Offset(cs, n) by {
        assert cs[..n] == content[..n];
      }
      ReaddressFrom(cs, content, n);
      cs := Reflow(cs, n, addr);
      content := cs;
      size := B.Some(mySize);
    }
  }

  /**
   * Inserting a child at the address where index idx of a contiguous layout
   * starts leaves the children up to and including it where re-addressing
   * the new layout puts them, and the later ones as they were.
   */
  lemma InsertedPrefix(cs: seq<Child>, idx: nat, c: Child, addr: nat)
    requires Contiguous(cs) && idx <= |cs| && addr == Offset(cs, idx)
    ensures var layout := cs[..idx] + [c] + cs[idx..];
            var placed := cs[..idx] + [c.(address := B.Some(addr))] + cs[idx..];
            |placed| == |layout|
            && (forall k :: 0 <= k < idx + 1 ==> placed[k] == Readdressed(layout)[k])
            && (forall k :: idx + 1 <= k < |placed| ==> placed[k] == layout[k])
  {
    var layout := cs[..idx] + [c] + cs[idx..];
    var placed := cs[..idx] + [c.(address := B.Some(addr))] + cs[idx..];
    ReaddressFrom(layout, cs, idx);
    assert layout[..idx] == cs[..idx];
    assert placed[idx] == Readdressed(layout)[idx];
    forall k | 0 <= k < idx + 1
      ensures placed[k] == Readdressed(layout)[k]
    {
      if k < idx { assert placed[k] == layout[k]; }
    }
  }

  /**
   * Re-addressing a layout with one fixed child inserted into a contiguous
   * layout of fixed children gives a contiguous layout of fixed children,
   * larger by the inserted child's size.
   */
  lemma InsertedLayout(cs: seq<Child>, idx: nat, c: Child)
    requires idx <= |cs| && c.fixed
    requires forall i :: 0 <= i < |cs| ==> cs[i].fixed
    ensures var r := Readdressed(cs[..idx] + [c] + cs[idx..]);
            Contiguous(r) && r != []
            && TotalSize(r) == TotalSize(cs) + c.size
            && (forall i :: 0 <= i < |r| ==> r[i].fixed)
  {
    var layout := cs[..idx] + [c] + cs[idx..];
    InsertSize(cs, idx, c);
    ReaddressedContiguous(layout);
    ReaddressedTotal(layout);
    var r := Readdressed(layout);
    forall i | 0 <= i < |r|
      ensures r[i].fixed
    {
      assert r[i].fixed == layout[i].fixed;
      if i < idx { assert layout[i] == cs[i]; }
      else if i > idx { assert layout[i] == cs[i - 1]; }
    }
  }

  /**
   * The re-addressing loop of insertChildPattern: from index `from` on,
   * each child is placed right after its predecessor.
   */
  method ReflowAfter(cs: seq<Child>, ghost layout: seq<Child>, from: nat) returns (r: seq<Child>)
    requires 1 <= from <= |cs| == |layout|
    requires forall k :: 0 <= k < from ==> cs[k] == Readdressed(layout)[k]
    requires forall k :: from <= k < |cs| ==> cs[k] == layout[k]
    ensures r == Readdressed(layout)
  {
    r := cs;
    var i := from;
    while i < |r|
      invariant from <= i <= |r| == |layout|
      invariant forall k :: 0 <= k < i ==> r[k] == Readdressed(layout)[k]
      invariant forall k :: i <= k < |r| ==> r[k] == layout[k]
    {
      OffsetNext(layout, i - 1);
      assert r[i - 1] == Readdressed(layout)[i - 1];
      r := r[i := r[i].(address := B.Some(r[i - 1].address.value + r[i - 1].size))];
      assert r[i] == Readdressed(layout)[i];
      i := i + 1;
    }
  }

  /**
   * The re-addressing loop of takeChild: from index `from` on, each child
   * is placed at the running address, which then advances by its size.
   */
  method Reflow(cs: seq<Child>, from: nat, addr0: nat) returns (r: seq<Child>)
    requires from <= |cs|
    requires addr0 == Offset(cs, from)
    requires forall k :: 0 <= k < from ==> cs[k] == Readdressed(cs)[k]
    ensures r == Readdressed(cs)
    ensures Contiguous(r) && TotalSize(r) == TotalSize(cs)
  {
    r := cs;
    var addr := addr0;
    var i := from;
    while i < |r|
      invariant from <= i <= |r| == |cs|
      invariant forall k :: 0 <= k < i ==> r[k] == Readdressed(cs)[k]
      invariant forall k :: i <= k < |r| ==> r[k] == cs[k]
      invariant addr == Offset(cs, i)
    {
      r := r[i := r[i].(address := B.Some(addr))];
      OffsetNext(cs, i);
      addr := addr + r[i].size;
      i := i + 1;
    }
    ReaddressedContiguous(cs);
    ReaddressedTotal(cs);
  }

  /** The offset past the last child is the total size. */
  lemma OffsetAll(cs: seq<Child>)
    ensures Offset(cs, |cs|) == TotalSize(cs)
  {
    assert cs[..|cs|] == cs;
  }

  /** In a contiguous layout, child k-1 ends where the first k children end. */
  lemma PrefixEnd(cs: seq<Child>, k: nat)
    requires Contiguous(cs) && 0 < k <= |cs|
    ensures cs[k - 1].address == B.Some(Offset(cs, k - 1))
    ensures Offset(cs, k - 1) + cs[k - 1].size == Offset(cs, k)
  {
    OffsetNext(cs, k - 1);
  }

  lemma InsertSize(cs: seq<Child>, idx: nat, c: Child)
    requires idx <= |cs|
    ensures TotalSize(cs[..idx] + [c] + cs[idx..]) == TotalSize(cs) + c.size
  {
    assert cs[..idx] + [c] + cs[idx..] == cs[..idx] + ([c] + cs[idx..]);
    TotalSizeAppend(cs[..idx], [c] + cs[idx..]);
    TotalSizeAppend([c], cs[idx..]);
    TotalSizeAppend(cs[..idx], cs[idx..]);
    assert cs[..idx] + cs[idx..] == cs;
    assert [c][..0] == [];
  }

  lemma RemoveSize(cs: seq<Child>, n: nat)
    requires n < |cs|
    ensures TotalSize(cs[..n] + cs[n + 1..]) + cs[n].size == TotalSize(cs)
  {
    var front, back := cs[..n], cs[n + 1..];
    assert cs[..n + 1] + back == cs;
    TotalSizeAppend(cs[..n + 1], back);
    assert cs[..n + 1][..n] == front;
    TotalSizeAppend(front, back);
  }

  lemma ReaddressedTotal(cs: seq<Child>)
    ensures TotalSize(Readdressed(cs)) == TotalSize(cs)
  {
    ReaddressedSizes(cs, |cs|);
    OffsetAll(cs);
    OffsetAll(Readdressed(cs));
  }

  /** Appending a child where a contiguous layout ends keeps it contiguous. */
  lemma AppendContiguous(cs: seq<Child>, c: Child)
    requires Contiguous(cs)
    requires c.address == B.Some(TotalSize(cs))
    ensures Contiguous(cs + [c])
    ensures TotalSize(cs + [c]) == TotalSize(cs) + c.size
  {
    var r := cs + [c];
    assert r[..|r| - 1] == cs;
    forall i | 0 <= i < |r|
      ensures r[i].address == B.Some(Offset(r, i))
    {
      assert r[..i] == cs[..i];
      if i < |cs| {
        assert cs[i].address == B.Some(Offset(cs, i));
      } else {
        OffsetAll(cs);
      }
    }
  }

  /**
   * In a layout that agrees with a contiguous one before idx, the children
   * before idx are already where re-addressing puts them.
   */
  lemma ReaddressFrom(changed: seq<Child>, original: seq<Child>, idx: nat)
    requires Contiguous(original)
    requires idx <= |original| && idx <= |changed|
    requires changed[..idx] == original[..idx]
    ensures forall k :: 0 <= k < idx ==> changed[k] == Readdressed(changed)[k]
  {
    forall k | 0 <= k < idx
      ensures changed[k] == Readdressed(changed)[k]
    {
      assert changed[k] == original[k];
      assert changed[..k] == original[..k] by {
        assert changed[..idx][..k] == original[..idx][..k];
      }
      assert original[k].address == B.Some(Offset(original, k));
    }
  }

  /**
   * A fixed repeat pattern: one fixed subpattern repeated `repetition`
   * times. Whenever a subpattern is present the size is its size times the
   * repetition; without one it is zero, or unset before any was added.
   */
  class FixedRepeatPattern {
    var subpattern: B.Option<Child>
    var repetition: nat
    var size: B.Option<nat>

    predicate Valid()
      reads this
    {
      subpattern.Some? ==> size == B.Some(subpattern.value.size * repetition)
    }

    constructor()
      ensures subpattern == B.None && repetition == 0 && size == B.None && Valid()
    {
      subpattern := B.None;
      repetition := 0;
      size := B.None;
    }

    /** setRepetition: stores n, and resizes when a subpattern is present. */
    method SetRepetition(n: nat)
      requires Valid()
      modifies this
      ensures repetition == n && subpattern == old(subpattern)
      ensures subpattern.None? ==> size == old(size)
      ensures Valid()
    {
      repetition := n;
      if subpattern.Some? {
        size := B.Some(subpattern.value.size * repetition);
      }
    }

    /** addChildPattern: accepts one fixed pattern, and sizes the repeat from it. */
    method AddChildPattern(pattern: Child) returns (ok: bool)
      requires Valid()
      modifies this
      ensures ok <==> pattern.fixed && old(subpattern).None?
      ensures ok ==> subpattern == B.Some(pattern) && size == B.Some(pattern.size * repetition)
      ensures !ok ==> subpattern == old(subpattern) && size == old(size)
      ensures repetition == old(repetition)
      ensures Valid()
    {
      if !pattern.fixed || subpattern.Some? {
        return false;
      }
      subpattern := B.Some(pattern);
      size := B.Some(pattern.size * repetition);
      ok := true;
    }

    /** takeChild(0): removes the subpattern and sets the size to zero. */
    method TakeChild(n: nat) returns (taken: B.Option<Child>)
      requires Valid()
      modifies this
      ensures n == 0 && old(subpattern).Some? ==> taken == old(subpattern) && subpattern == B.None
                                                  && size == B.Some(0)
      ensures !(n == 0 && old(subpattern).Some?) ==> taken == B.None && subpattern == old(subpattern)
                                                     && size == old(size)
      ensures repetition == old(repetition)
      ensures Valid()
    {
      if n != 0 || subpattern.None? {
        return B.None;
      }
      taken := subpattern;
      subpattern := B.None;
      size := B.Some(0);
    }
  }

  /**
   * The single-slot containers PatternFragment, RepeatPattern and
   * BlockRepeatPattern: at most one child. BlockRepeatPattern (fixedOnly)
   * also refuses a child that is not a FixedPattern.
   */
  class SingleChildPattern {
    const fixedOnly: bool
    var subpattern: B.Option<Child>

    constructor(fixedOnly: bool)
      ensures this.fixedOnly == fixedOnly && subpattern == B.None
    {
      this.fixedOnly := fixedOnly;
      subpattern := B.None;
    }

    /** addChildPattern: fails when the slot is taken (or, for fixedOnly, when the child is not fixed). */
    method AddChildPattern(pattern: Child) returns (ok: bool)
      modifies this
      ensures ok <==> old(subpattern).None? && (!fixedOnly || pattern.fixed)
      ensures subpattern == if ok then B.Some(pattern) else old(subpattern)
    {
      if fixedOnly && !pattern.fixed {
        return false;
      }
      if subpattern.Some? {
        return false;
      }
      subpattern := B.Some(pattern);
      ok := true;
    }

    /** takeChild: only index zero, and only when a child is present. */
    method TakeChild(n: nat) returns (taken: B.Option<Child>)
      modifies this
      ensures n == 0 ==> taken == old(subpattern) && subpattern == B.None
      ensures n != 0 ==> taken == B.None && subpattern == old(subpattern)
    {
      if n != 0 || subpattern.None? {
        return B.None;
      }
      taken := subpattern;
      subpattern := B.None;
    }
  }

  /* ------------------------------------------------------------------ *
   * The fixed pattern tree as the annotator reads it
   * ------------------------------------------------------------------ */

  /** A fixed-size pattern: a field, an element of fixed children, or a fixed repeat. */
  datatype FixedTree =
    | FieldNode(width: nat)
    | ElementNode(children: seq<FixedTree>)
    | FixedRepeatNode(subpattern: FixedTree, repetition: nat)

  /** A block pattern: a fixed pattern, or a block repeat of a fixed subpattern. */
  datatype BlockTree =
    | FixedBlock(pattern: FixedTree)
    | BlockRepeatNode(subpattern: FixedTree, minRepetition: nat, maxRepetition: nat)

  /**
   * size() of a fixed pattern, as the containers above maintain it: the
   * sum of the children for an element, subpattern size times repetition
   * for a fixed repeat.
   */
  function TreeSize(p: FixedTree): nat
    decreases p, 1
  {
    match p
    case FieldNode(width) => width
    case ElementNode(children) => ChildrenSize(p, |children|)
    case FixedRepeatNode(sub, n) => TreeSize(sub) * n
  }

  /** The size of the first n children of an element node. */
  function ChildrenSize(p: FixedTree, n: nat): nat
    requires p.ElementNode? && n <= |p.children|
    decreases p, 0, n
  {
    if n == 0 then 0 else ChildrenSize(p, n - 1) + TreeSize(p.children[n - 1])
  }

  /* ------------------------------------------------------------------ *
   * BCD decoding
   * ------------------------------------------------------------------ */

  function Pow16(n: nat): (p: nat)
    ensures p >= 1
  {
    if n == 0 then 1 else 16 * Pow16(n - 1)
  }

  function Pow10(n: nat): (p: nat)
    ensures p >= 1
  {
    if n == 0 then 1 else 10 * Pow10(n - 1)
  }

  /** The n lowest nibbles of a number, most significant first. */
  function Nibbles(x: nat, n: nat): (ds: seq<nat>)
    ensures |ds| == n
    ensures forall i :: 0 <= i < n ==> ds[i] < 16
  {
    if n == 0 then [] else Nibbles(x / 16, n - 1) + [x % 16]
  }

  /** Digits read as a decimal number, most significant first. */
  function Decimal(ds: seq<nat>): nat
  {
    if ds == [] then 0 else Decimal(ds[..|ds| - 1]) * 10 + ds[|ds| - 1]
  }

  /** Nibbles read as a base-16 number, most significant first. */
  function Hex(ds: seq<nat>): nat
  {
    if ds == [] then 0 else ds[0] * Pow16(|ds| - 1) + Hex(ds[1..])
  }

  /** Value of a BCD word of n nibbles: each nibble is one decimal digit. */
  function BCDValue(bcd: nat, n: nat): nat
  {
    Decimal(Nibbles(bcd, n))
  }

  function ZeroNibbles(n: nat): (zs: seq<nat>)
    ensures |zs| == n && forall i :: 0 <= i < n ==> zs[i] == 0
  {
    if n == 0 then [] else ZeroNibbles(n - 1) + [0]
  }

  lemma MulAtLeast(k: int, d: int)
    requires k >= 1 && d > 0
    ensures k * d >= d
  {
  }

  lemma MulLe(a: int, b: int, c: int)
    requires a <= b && c >= 0
    ensures a * c <= b * c
  {
  }

  lemma DivUnique(x: int, d: int, q: int)
    requires d > 0 && q * d <= x < q * d + d
    ensures x / d == q
  {
    var q' := x / d;
    var r' := x % d;
    assert x == q' * d + r';
    var k := q' - q;
    assert k * d == q' * d - q * d;
    if k >= 1 {
      MulAtLeast(k, d);
    } else if k <= -1 {
      MulAtLeast(-k, d);
    }
  }

  lemma ModUnique(x: int, d: int, q: int)
    requires d > 0 && q * d <= x < q * d + d
    ensures x % d == x - q * d
  {
    DivUnique(x, d, q);
    assert x == (x / d) * d + x % d;
  }

  lemma Pow16Add(a: nat, b: nat)
    ensures Pow16(a + b) == Pow16(a) * Pow16(b)
  {
    if a > 0 {
      Pow16Add(a - 1, b);
    }
  }

  lemma {:induction false} HexBound(ds: seq<nat>)
    requires forall i :: 0 <= i < |ds| ==> ds[i] < 16
    ensures Hex(ds) < Pow16(|ds|)
  {
    if ds != [] {
      HexBound(ds[1..]);
      var p := Pow16(|ds| - 1);
      MulLe(ds[0], 15, p);
      assert Hex(ds) == ds[0] * p + Hex(ds[1..]);
      assert Pow16(|ds|) == 16 * p;
    }
  }

  lemma {:induction false} HexAppend(ds: seq<nat>, d: nat)
    ensures Hex(ds + [d]) == Hex(ds) * 16 + d
  {
    if ds != [] {
      assert (ds + [d])[1..] == ds[1..] + [d];
      HexAppend(ds[1..], d);
      var p := Pow16(|ds| - 1);
      assert Pow16(|ds + [d]| - 1) == 16 * p;
      Regroup(ds[0], p, Hex(ds[1..]));
    }
  }

  lemma Regroup(a: int, p: int, h: int)
    ensures a * (16 * p) + h * 16 == (a * p + h) * 16
  {
  }

  /** The nibbles of a number read back in base 16 give the number. */
  lemma {:induction false} NibblesValue(x: nat, n: nat)
    requires x < Pow16(n)
    ensures Hex(Nibbles(x, n)) == x
  {
    if n > 0 {
      NibblesValue(x / 16, n - 1);
      HexAppend(Nibbles(x / 16, n - 1), x % 16);
    }
  }

  /** Reading base-16 digits back into nibbles gives the digits. */
  lemma {:induction false} HexNibbles(ds: seq<nat>)
    requires forall i :: 0 <= i < |ds| ==> ds[i] < 16
    ensures Nibbles(Hex(ds), |ds|) == ds
    decreases |ds|
  {
    if ds != [] {
      var init := ds[..|ds| - 1];
      var d := ds[|ds| - 1];
      assert ds == init + [d];
      HexAppend(init, d);
      HexNibbles(init);
      assert (Hex(init) * 16 + d) / 16 == Hex(init);
      assert (Hex(init) * 16 + d) % 16 == d;
    }
  }

  /** The most significant nibble of a word is its leading digit. */
  lemma TopNibble(ds: seq<nat>)
    requires |ds| >= 1 && forall i :: 0 <= i < |ds| ==> ds[i] < 16
    ensures Hex(ds) / Pow16(|ds| - 1) == ds[0]
  {
    HexBound(ds[1..]);
    assert Hex(ds) == ds[0] * Pow16(|ds| - 1) + Hex(ds[1..]);
    DivUnique(Hex(ds), Pow16(|ds| - 1), ds[0]);
  }

  /** Shifting an n-nibble word left by four bits, truncated to n nibbles, drops the leading digit. */
  lemma ShiftNibbles(ds: seq<nat>)
    requires |ds| >= 1 && forall i :: 0 <= i < |ds| ==> ds[i] < 16
    ensures (Hex(ds) * 16) % Pow16(|ds|) == Hex(ds[1..] + [0])
  {
    var p := Pow16(|ds| - 1);
    HexAppend(ds[1..], 0);
    HexBound(ds[1..] + [0]);
    assert Hex(ds) == ds[0] * p + Hex(ds[1..]);
    assert Pow16(|ds|) == 16 * p;
    Regroup(ds[0], p, Hex(ds[1..]));
    ModUnique(Hex(ds) * 16, Pow16(|ds|), ds[0]);
  }

  /** Decimal digits below 16 never reach 16^n: the accumulator of n nibbles fits n nibbles. */
  lemma {:induction false} DecimalBound(ds: seq<nat>)
    requires forall i :: 0 <= i < |ds| ==> ds[i] < 16
    ensures Decimal(ds) < Pow16(|ds|)
  {
    if ds != [] {
      DecimalBound(ds[..|ds| - 1]);
    }
  }

  lemma Pow16Monotone(a: nat, b: nat)
    requires a <= b
    ensures Pow16(a) <= Pow16(b)
  {
    if a < b {
      Pow16Monotone(a, b - 1);
    }
  }

  /**
   * fromBCD4 (n = 4, a uint16_t) and fromBCD8 (n = 8, a uint32_t): each
   * round multiplies the result by ten, adds the top nibble and shifts the
   * word left by four bits, all in n-nibble unsigned arithmetic.
   */
  method FromBCD(bcd: nat, n: nat) returns (res: nat)
    requires 1 <= n && bcd < Pow16(n)
    ensures res == BCDValue(bcd, n)
    ensures res < Pow16(n)
  {
    ghost var ds := Nibbles(bcd, n);
    NibblesValue(bcd, n);
    assert ds[0..] + ZeroNibbles(0) == ds;
    var word := bcd;
    res := 0;
    var i := 0;
    while i < n
      invariant 0 <= i <= n
      invariant word == Hex(ds[i..] + ZeroNibbles(i))
      invariant res == Decimal(ds[..i])
    {
      BCDStep(ds, i, word, res);
      var digit := word / Pow16(n - 1);
      res := (res * 10) % Pow16(n);
      res := (res + digit) % Pow16(n);
      word := (word * 16) % Pow16(n);
      i := i + 1;
    }
    assert ds[..n] == ds;
    DecimalBound(ds);
  }

  /** One round of FromBCD: it takes the next digit and shifts it out of the word. */
  lemma BCDStep(ds: seq<nat>, i: nat, word: nat, res: nat)
    requires 1 <= |ds| && i < |ds| && forall k :: 0 <= k < |ds| ==> ds[k] < 16
    requires word == Hex(ds[i..] + ZeroNibbles(i))
    requires res == Decimal(ds[..i])
    ensures word / Pow16(|ds| - 1) == ds[i]
    ensures ((res * 10) % Pow16(|ds|) + ds[i]) % Pow16(|ds|) == Decimal(ds[..i + 1])
    ensures (word * 16) % Pow16(|ds|) == Hex(ds[i + 1..] + ZeroNibbles(i + 1))
  {
    var es := ds[i..] + ZeroNibbles(i);
    assert |es| == |ds| && es[0] == ds[i];
    TopNibble(es);
    ShiftNibbles(es);
    calc {
      es[1..] + [0];
      { assert es[1..] == ds[i + 1..] + ZeroNibbles(i); }
      (ds[i + 1..] + ZeroNibbles(i)) + [0];
      ds[i + 1..] + (ZeroNibbles(i) + [0]);
      ds[i + 1..] + ZeroNibbles(i + 1);
    }
    DigitStep(ds, i, res);
  }

  /** The accumulator of FromBCD stays below 16^n, so the n-nibble arithmetic never wraps. */
  lemma DigitStep(ds: seq<nat>, i: nat, res: nat)
    requires i < |ds| && forall k :: 0 <= k < |ds| ==> ds[k] < 16
    requires res == Decimal(ds[..i])
    ensures ((res * 10) % Pow16(|ds|) + ds[i]) % Pow16(|ds|) == Decimal(ds[..i + 1])
  {
    var p := Pow16(|ds|);
    assert ds[..i + 1][..i] == ds[..i];
    assert Decimal(ds[..i + 1]) == res * 10 + ds[i];
    DecimalBound(ds[..i + 1]);
    Pow16Monotone(i + 1, |ds|);
    ModSmall(res * 10, p);
    ModSmall(res * 10 + ds[i], p);
  }

  lemma ModSmall(x: int, d: int)
    requires 0 <= x < d
    ensures x % d == x
  {
    ModUnique(x, d, 0);
  }

  /** fromBCD4 on a 16-bit word. */
  method FromBCD4(bcd: B.u16) returns (res: B.u16)
    ensures res == BCDValue(bcd, 4)
  {
    var r := FromBCD(bcd, 4);
    res := r;
  }

  /** fromBCD8 on a 32-bit word. */
  method FromBCD8(bcd: B.u32) returns (res: B.u32)
    ensures res == BCDValue(bcd, 8)
  {
    var r := FromBCD(bcd, 8);
    res := r;
  }

  /** The decimal digits of v, n of them, most significant first. */
  function DecimalDigits(v: nat, n: nat): (ds: seq<nat>)
    ensures |ds| == n && forall i :: 0 <= i < n ==> ds[i] < 10
  {
    if n == 0 then [] else DecimalDigits(v / 10, n - 1) + [v % 10]
  }

  /** The BCD word of n digits that encodes v. */
  function ToBCD(v: nat, n: nat): nat
  {
    Hex(DecimalDigits(v, n))
  }

  lemma {:induction false} DecimalDigitsValue(v: nat, n: nat)
    requires v < Pow10(n)
    ensures Decimal(DecimalDigits(v, n)) == v
  {
    if n > 0 {
      DecimalDigitsValue(v / 10, n - 1);
      assert (DecimalDigits(v / 10, n - 1) + [v % 10])[..n - 1] == DecimalDigits(v / 10, n - 1);
    }
  }

  /** Decoding a BCD word of n digits gives back any number below 10^n. */
  lemma BCDRoundTrip(v: nat, n: nat)
    requires v < Pow10(n)
    ensures BCDValue(ToBCD(v, n), n) == v
  {
    HexNibbles(DecimalDigits(v, n));
    DecimalDigitsValue(v, n);
  }

  /* ------------------------------------------------------------------ *
   * Bit fields and integer decoding
   * ------------------------------------------------------------------ */

  function Pow2(n: nat): (p: nat)
    ensures p >= 1
  {
    if n == 0 then 1 else 2 * Pow2(n - 1)
  }

  lemma Pow2Add(a: nat, b: nat)
    ensures Pow2(a + b) == Pow2(a) * Pow2(b)
  {
    if a > 0 {
      Pow2Add(a - 1, b);
    }
  }

  /**
   * A field of `width` bits inside one byte, whose most significant bit is
   * at bit position `bit` (7 is the byte's most significant bit): the byte
   * shifted right by bit+1-width and masked to width bits. A field that
   * would reach below bit 0 extends across bytes and is refused.
   */
  function SubByte(b: B.byte, bit: nat, width: nat): (r: B.Option<nat>)
    requires bit < 8
    ensures r.Some? <==> width <= bit + 1
    ensures r.Some? ==> r.value < Pow2(width)
  {
    if bit + 1 < width then B.None
    else B.Some((b / Pow2(bit + 1 - width)) % Pow2(width))
  }

  /**
   * The bit field is exactly the middle part of the byte: a byte made of any
   * value v below 2^width in those bits, with anything above and below,
   * reads back as v.
   */
  lemma SubByteField(b: B.byte, high: nat, v: nat, low: nat, bit: nat, width: nat)
    requires bit < 8 && width <= bit + 1
    requires v < Pow2(width) && low < Pow2(bit + 1 - width)
    requires b as nat == high * Pow2(bit + 1) + v * Pow2(bit + 1 - width) + low
    ensures SubByte(b, bit, width) == B.Some(v)
  {
    var shift := bit + 1 - width;
    var ps, pw, pb := Pow2(shift), Pow2(width), Pow2(bit + 1);
    Pow2Add(shift, width);
    FieldValue(b as nat, high, v, low, ps, pw, pb);
  }

  /** Such a byte exists for every high part below 2^(7-bit): the parts fit in eight bits. */
  lemma SubByteFits(high: nat, v: nat, low: nat, bit: nat, width: nat)
    requires bit < 8 && width <= bit + 1
    requires v < Pow2(width) && low < Pow2(bit + 1 - width) && high < Pow2(7 - bit)
    ensures high * Pow2(bit + 1) + v * Pow2(bit + 1 - width) + low < 0x100
  {
    var shift := bit + 1 - width;
    var ps, pw, pb, ph := Pow2(shift), Pow2(width), Pow2(bit + 1), Pow2(7 - bit);
    Pow2Add(shift, width);
    assert pb == ps * pw;
    Pow2Add(bit + 1, 7 - bit);
    Pow2Byte();
    assert pb * ph == 0x100;
    FieldLayout(high, v, low, ps, pw, pb, ph);
  }

  /** Shifting out the low part and masking off the high part leaves v, over plain numbers. */
  lemma FieldValue(x: nat, high: nat, v: nat, low: nat, ps: nat, pw: nat, pb: nat)
    requires pb == ps * pw && v < pw && low < ps
    requires x == high * pb + v * ps + low
    ensures (x / ps) % pw == v
  {
    assert high * pb == (high * pw) * ps;
    assert x == (high * pw + v) * ps + low;
    DivUnique(x, ps, high * pw + v);
    ModUnique(high * pw + v, pw, high);
  }

  /** The arithmetic behind SubByteFits, over plain numbers. */
  lemma FieldLayout(high: nat, v: nat, low: nat, ps: nat, pw: nat, pb: nat, ph: nat)
    requires pb == ps * pw && pb * ph == 0x100
    requires v < pw && low < ps && high < ph
    ensures high * pb + v * ps + low < 0x100
  {
    MulLe(v, pw - 1, ps);
    MulLe(high, ph - 1, pb);
  }

  lemma Pow2Byte()
    ensures Pow2(8) == 0x100 && Pow2(16) == 0x1_0000
  {
    assert Pow2(1) == 2 && Pow2(2) == 4 && Pow2(3) == 8 && Pow2(4) == 16;
    assert Pow2(5) == 32 && Pow2(6) == 64 && Pow2(7) == 128 && Pow2(8) == 256;
    Pow2Add(8, 8);
  }

  /** IntegerFieldPattern::Format and ::Endian. */
  datatype Format = Signed | Unsigned | BCD
  datatype Endian = Little | Big

  /** Little-endian 32-bit word of the first four bytes. */
  function LE32(s: seq<B.byte>): B.u32
    requires |s| >= 4
  {
    s[0] as int + 0x100 * (s[1] as int) + 0x1_0000 * (s[2] as int) + 0x100_0000 * (s[3] as int)
  }

  /** Two's-complement reading of an unsigned word of `bits` bits. */
  function SignedOf(x: nat, bits: nat): int
  {
    if x >= Pow2(bits) / 2 then x - Pow2(bits) else x
  }

  /** A 16- or 32-bit word read from the element data in the given byte order. */
  function Word(data: seq<B.byte>, at: nat, bytes: nat, endian: Endian): nat
    requires bytes == 2 || bytes == 4
    requires at + bytes <= |data|
  {
    var s := data[at..at + bytes];
    if bytes == 2 then (if endian == Little then B.LE16(s) else B.BE16(s))
    else (if endian == Little then LE32(s) else B.BE32(s))
  }

  /** A word interpreted in a format. */
  function Interpret(word: nat, bytes: nat, format: Format): int
  {
    match format
    case Signed => SignedOf(word, 8 * bytes)
    case Unsigned => word
    case BCD => BCDValue(word, 2 * bytes)
  }

  /**
   * IntegerFieldPattern::decode at a bit offset `within` from the element
   * start (the element starts on a byte, so the in-byte bit position is
   * that of the address). None is the error result: a sub-byte field that
   * crosses a byte, an unaligned multi-byte field, a width above 32, or a
   * word that runs past the element's data.
   */
  function DecodeInteger(data: seq<B.byte>, within: nat, width: nat, format: Format, endian: Endian): (r: B.Option<int>)
    requires within + width <= 8 * |data|
    ensures width <= 8 && r.Some? ==> 0 <= r.value < Pow2(width)
    ensures 8 < width <= 32 && r.Some? ==> within % 8 == 0
    ensures width > 32 ==> r.None?
  {
    var at := within / 8;
    var bit := 7 - within % 8;
    if width <= 8 then
      if at >= |data| then B.None else SubByte(data[at], bit, width)
    else if width == 16 then
      if within % 8 != 0 then B.None else B.Some(Interpret(Word(data, at, 2, endian), 2, format))
    else if width <= 32 then
      if within % 8 != 0 || at + 4 > |data| then B.None
      else B.Some(Interpret(Word(data, at, 4, endian), 4, format))
    else
      B.None
  }

  /** IntegerFieldPattern::value: a field that ends past the element is an error, otherwise it is decoded. */
  function IntegerValue(data: seq<B.byte>, within: nat, width: nat, format: Format, endian: Endian): (r: B.Option<int>)
    ensures within + width > 8 * |data| ==> r.None?
    ensures within + width <= 8 * |data| ==> r == DecodeInteger(data, within, width, format, endian)
  {
    if within + width > 8 * |data| then B.None else DecodeInteger(data, within, width, format, endian)
  }

  /** The little-endian bytes of a 32-bit value; the inverse of LE32. */
  function LE32Bytes(x: B.u32): (r: seq<B.byte>)
    ensures |r| == 4 && LE32(r) == x
  {
    var a := x / 0x100;
    var b := a / 0x100;
    [x % 0x100, a % 0x100, b % 0x100, b / 0x100]
  }

  /** The two bytes a 16-bit word is stored as, in the given byte order. */
  function WordBytes16(x: B.u16, endian: Endian): (r: seq<B.byte>)
    ensures |r| == 2 && Word(r, 0, 2, endian) == x
  {
    var r := if endian == Little then B.LE16Bytes(x) else B.BE16Bytes(x);
    assert r[0..2] == r;
    r
  }

  /** The four bytes a 32-bit word is stored as, in the given byte order. */
  function WordBytes32(x: B.u32, endian: Endian): (r: seq<B.byte>)
    ensures |r| == 4 && Word(r, 0, 4, endian) == x
  {
    var r := if endian == Little then LE32Bytes(x) else B.BE32Bytes(x);
    assert r[0..4] == r;
    r
  }

  /** A word stored after a prefix is read back from there. */
  lemma WordAt(prefix: seq<B.byte>, w: seq<B.byte>, suffix: seq<B.byte>, endian: Endian)
    requires |w| == 2 || |w| == 4
    ensures Word(prefix + w + suffix, |prefix|, |w|, endian) == Word(w, 0, |w|, endian)
  {
    assert (prefix + w + suffix)[|prefix|..|prefix| + |w|] == w == w[0..|w|];
  }

  /** A word stored after a prefix decodes as that word, interpreted in the field's format. */
  lemma DecodeStored(prefix: seq<B.byte>, w: seq<B.byte>, suffix: seq<B.byte>, format: Format, endian: Endian)
    requires |w| == 2 || |w| == 4
    ensures DecodeInteger(prefix + w + suffix, 8 * |prefix|, 8 * |w|, format, endian)
            == B.Some(Interpret(Word(w, 0, |w|, endian), |w|, format))
  {
    WordAt(prefix, w, suffix, endian);
    assert (8 * |prefix|) / 8 == |prefix| && (8 * |prefix|) % 8 == 0;
  }

  lemma Pow2ThirtyTwo()
    ensures Pow2(16) == 0x1_0000 && Pow2(32) == 0x1_0000_0000
  {
    Pow2Byte();
    Pow2Add(16, 16);
  }

  lemma Pow16FourEight()
    ensures Pow16(4) == 0x1_0000 && Pow16(8) == 0x1_0000_0000
  {
    Pow16Add(4, 4);
  }

  /** A 16-bit unsigned field decodes the word it was written as, in either byte order. */
  lemma DecodeUnsigned16(prefix: seq<B.byte>, x: B.u16, suffix: seq<B.byte>, endian: Endian)
    ensures var data := prefix + WordBytes16(x, endian) + suffix;
            DecodeInteger(data, 8 * |prefix|, 16, Unsigned, endian) == B.Some(x)
  {
    WordAt(prefix, WordBytes16(x, endian), suffix, endian);
  }

  /** A 16-bit signed field decodes the two's-complement value it was written as, in either byte order. */
  lemma DecodeSigned16(prefix: seq<B.byte>, v: int, suffix: seq<B.byte>, endian: Endian)
    requires -0x8000 <= v < 0x8000
    ensures var data := prefix + WordBytes16(if v < 0 then v + 0x1_0000 else v, endian) + suffix;
            DecodeInteger(data, 8 * |prefix|, 16, Signed, endian) == B.Some(v)
  {
    Pow2ThirtyTwo();
    DecodeStored(prefix, WordBytes16(if v < 0 then v + 0x1_0000 else v, endian), suffix, Signed, endian);
  }

  /** A 16-bit BCD field decodes to the four-digit number it encodes, in either byte order. */
  lemma DecodeBCD16(prefix: seq<B.byte>, v: nat, suffix: seq<B.byte>, endian: Endian)
    requires v < 10000
    ensures ToBCD(v, 4) < 0x1_0000
    ensures var data := prefix + WordBytes16(ToBCD(v, 4), endian) + suffix;
            DecodeInteger(data, 8 * |prefix|, 16, BCD, endian) == B.Some(v)
  {
    HexBound(DecimalDigits(v, 4));
    Pow16FourEight();
    BCDRoundTrip(v, 4);
    DecodeStored(prefix, WordBytes16(ToBCD(v, 4), endian), suffix, BCD, endian);
  }

  /** A 32-bit unsigned field decodes the word it was written as, in either byte order. */
  lemma DecodeUnsigned32(prefix: seq<B.byte>, x: B.u32, suffix: seq<B.byte>, endian: Endian)
    ensures var data := prefix + WordBytes32(x, endian) + suffix;
            DecodeInteger(data, 8 * |prefix|, 32, Unsigned, endian) == B.Some(x)
  {
    WordAt(prefix, WordBytes32(x, endian), suffix, endian);
  }

  /** A 32-bit signed field decodes the two's-complement value it was written as, in either byte order. */
  lemma DecodeSigned32(prefix: seq<B.byte>, v: int, suffix: seq<B.byte>, endian: Endian)
    requires -0x8000_0000 <= v < 0x8000_0000
    ensures var data := prefix + WordBytes32(if v < 0 then v + 0x1_0000_0000 else v, endian) + suffix;
            DecodeInteger(data, 8 * |prefix|, 32, Signed, endian) == B.Some(v)
  {
    Pow2ThirtyTwo();
    DecodeStored(prefix, WordBytes32(if v < 0 then v + 0x1_0000_0000 else v, endian), suffix, Signed, endian);
  }

  /** A 32-bit BCD field decodes to the eight-digit number it encodes, in either byte order. */
  lemma DecodeBCD32(prefix: seq<B.byte>, v: nat, suffix: seq<B.byte>, endian: Endian)
    requires v < 100000000
    ensures ToBCD(v, 8) < 0x1_0000_0000
    ensures var data := prefix + WordBytes32(ToBCD(v, 8), endian) + suffix;
            DecodeInteger(data, 8 * |prefix|, 32, BCD, endian) == B.Some(v)
  {
    HexBound(DecimalDigits(v, 8));
    Pow16FourEight();
    assert Pow10(8) == 100000000;
    BCDRoundTrip(v, 8);
    DecodeStored(prefix, WordBytes32(ToBCD(v, 8), endian), suffix, BCD, endian);
  }

  /**
   * A byte-aligned field of 9 to 31 bits (other than 16) is decoded from the
   * whole 32-bit word at its first byte, exactly as a 32-bit field there;
   * when fewer than four bytes remain it is an error.
   */
  lemma DecodeWideField(data: seq<B.byte>, at: nat, width: nat, format: Format, endian: Endian)
    requires 8 < width < 32 && width != 16 && 8 * at + width <= 8 * |data|
    ensures at + 4 <= |data| ==>
      DecodeInteger(data, 8 * at, width, format, endian) == DecodeInteger(data, 8 * at, 32, format, endian)
    ensures at + 4 > |data| ==> DecodeInteger(data, 8 * at, width, format, endian).None?
  {
    assert (8 * at) / 8 == at && (8 * at) % 8 == 0;
  }

  /** The word is not masked to the field: a 12-bit field over four 0xff bytes decodes as 0xffffffff. */
  lemma WideFieldUnmasked()
    ensures DecodeInteger([0xff, 0xff, 0xff, 0xff], 0, 12, Unsigned, Little) == B.Some(0xffff_ffff)
    ensures 0xffff_ffff >= Pow2(12)
  {
    assert [0xff, 0xff, 0xff, 0xff][0..4] == [0xff, 0xff, 0xff, 0xff];
    Pow2Byte();
  }

  /**
   * EnumFieldPattern::decode: the field must lie inside the element, be at
   * most 8 bits wide and not cross a byte; the value is the bit field.
   */
  function DecodeEnum(data: seq<B.byte>, within: nat, width: nat): (r: B.Option<nat>)
    ensures r.Some? ==> within + width <= 8 * |data| && width <= 8 && r.value < Pow2(width)
    ensures r.Some? <==> within + width <= 8 * |data| && width <= 8 && width <= 8 - within % 8
                         && within < 8 * |data|
  {
    if within + width > 8 * |data| then B.None
    else if width > 8 || within / 8 >= |data| then B.None
    else SubByte(data[within / 8], 7 - within % 8, width)
  }
}
