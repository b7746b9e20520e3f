/**
 * Differences between two codeplug images. Walking both sorted element
 * lists in step, an element only in the first image is deleted, one only in
 * the second is added, and two unequal elements at the same start address
 * are modified; a modification lists byte-level changes: a changed byte at
 * each differing common index, then the bytes the longer side has beyond
 * the shorter.
 */
module ImageDifferenceModel {
  import opened Bytes
  import opened ImageModel
  import opened HexDump

  datatype ModificationType = AddByte | DelByte | ModByte

  /** ModifyElement::Modification: one byte-level change at an offset into the element. */
  datatype Modification = Modification(kind: ModificationType, offset: nat, added: byte, removed: byte)

  predicate IsAdd(m: Modification) { m.kind == AddByte }
  predicate IsRem(m: Modification) { m.kind == DelByte }
  predicate IsMod(m: Modification) { m.kind == ModByte }

  /** The byte a change says was there before: none for an addition. */
  function Before(m: Modification): Option<byte>
  {
    if IsAdd(m) then None else Some(m.removed)
  }

  /** The byte a change says is there afterwards: none for a removal. */
  function After(m: Modification): Option<byte>
  {
    if IsRem(m) then None else Some(m.added)
  }

  /** Modification::add: the byte is new at the offset. */
  function AddChange(at: nat, what: byte): (m: Modification)
    ensures IsAdd(m) && m.offset == at
    ensures Before(m) == None && After(m) == Some(what)
  {
    Modification(AddByte, at, what, 0)
  }

  /** Modification::rem: the byte is gone from the offset. */
  function RemChange(at: nat, what: byte): (m: Modification)
    ensures IsRem(m) && m.offset == at
    ensures Before(m) == Some(what) && After(m) == None
  {
    Modification(DelByte, at, 0, what)
  }

  /** Modification::mod as written: the type is Del, so the change reads as a removal. */
  function ModChangeAsWritten(at: nat, from: byte, to: byte): (m: Modification)
    ensures m.offset == at && m.removed == from && m.added == to
  {
    Modification(DelByte, at, to, from)
  }

  /** The as-written factory never produces a Mod: isMod() is false and the new byte is lost. */
  lemma ModChangeAsWrittenIsRemoval(at: nat, from: byte, to: byte)
    ensures !IsMod(ModChangeAsWritten(at, from, to)) && IsRem(ModChangeAsWritten(at, from, to))
    ensures After(ModChangeAsWritten(at, from, to)) == None
  {
  }

  /** Modification::mod as intended: the byte at the offset changes from `from` to `to`. */
  function ModChange(at: nat, from: byte, to: byte): (m: Modification)
    ensures IsMod(m) && m.offset == at
    ensures Before(m) == Some(from) && After(m) == Some(to)
  {
    Modification(ModByte, at, to, from)
  }

  // ---------------------------------------------------------------------------
  // ModifyElement
  // ---------------------------------------------------------------------------

  /** The change for index k of a mismatch: a modification, a removal or an addition. */
  function ChangeAt(a: seq<byte>, b: seq<byte>, k: nat): Modification
    requires k < |a| || k < |b|
  {
    if k < |a| && k < |b| then ModChange(k, a[k], b[k])
    else if k < |a| then RemChange(k, a[k])
    else AddChange(k, b[k])
  }

  /** The changes for indices k and above, in increasing index order. */
  function ChangesFrom(a: seq<byte>, b: seq<byte>, k: nat): seq<Modification>
    decreases Max(|a|, |b|) - k
  {
    if k >= Max(|a|, |b|) then []
    else (if Mismatch(a, b, k) then [ChangeAt(a, b, k)] else []) + ChangesFrom(a, b, k + 1)
  }

  /**
   * ModifyElement(a, b): walks both data with two indices, recording a
   * change for each differing common byte, then a removal for each extra
   * byte of a or an addition for each extra byte of b.
   */
  method ModifyElement(a: seq<byte>, b: seq<byte>) returns (changes: seq<Modification>)
    ensures changes == ChangesFrom(a, b, 0)
  {
    changes := [];
    var i, j := 0, 0;
    while i < |a| || j < |b|
      invariant 0 <= i <= |a| && 0 <= j <= |b|
      invariant i == j || (j == |b| && i > j) || (i == |a| && j > i)
      invariant ChangesFrom(a, b, 0) == changes + ChangesFrom(a, b, Max(i, j))
      decreases |a| - i + |b| - j
    {
      if i < |a| && j < |b| {
        ChangesBoth(a, b, i, changes);
        if a[i] != b[j] {
          changes := changes + [ModChange(i, a[i], b[j])];
        }
        i, j := i + 1, j + 1;
      } else if i < |a| {
        ChangesLeft(a, b, i, changes);
        changes := changes + [RemChange(i, a[i])];
        i := i + 1;
      } else {
        ChangesRight(a, b, j, changes);
        changes := changes + [AddChange(j, b[j])];
        j := j + 1;
      }
    }
  }

  /** A common index: its change, if the bytes differ, comes before those of the higher indices. */
  lemma ChangesBoth(a: seq<byte>, b: seq<byte>, k: nat, done: seq<Modification>)
    requires k < |a| && k < |b|
    ensures done + ChangesFrom(a, b, k)
            == (done + (if a[k] != b[k] then [ModChange(k, a[k], b[k])] else [])) + ChangesFrom(a, b, k + 1)
  {
  }

  /** An index past the end of b: a removal of a's byte. */
  lemma ChangesLeft(a: seq<byte>, b: seq<byte>, k: nat, done: seq<Modification>)
    requires |b| <= k < |a|
    ensures done + ChangesFrom(a, b, k) == (done + [RemChange(k, a[k])]) + ChangesFrom(a, b, k + 1)
  {
  }

  /** An index past the end of a: an addition of b's byte. */
  lemma ChangesRight(a: seq<byte>, b: seq<byte>, k: nat, done: seq<Modification>)
    requires |a| <= k < |b|
    ensures done + ChangesFrom(a, b, k) == (done + [AddChange(k, b[k])]) + ChangesFrom(a, b, k + 1)
  {
  }

  /** Number of mismatching indices in [k, n). */
  function MismatchCount(a: seq<byte>, b: seq<byte>, k: nat, n: nat): nat
    decreases n - k
  {
    if k >= n then 0 else (if Mismatch(a, b, k) then 1 else 0) + MismatchCount(a, b, k + 1, n)
  }

  lemma {:induction false} MismatchCountSplit(a: seq<byte>, b: seq<byte>, k: nat, m: nat, n: nat)
    requires k <= m <= n
    ensures MismatchCount(a, b, k, n) == MismatchCount(a, b, k, m) + MismatchCount(a, b, m, n)
    decreases m - k
  {
    if k < m {
      MismatchCountSplit(a, b, k + 1, m, n);
    }
  }

  lemma {:induction false} MismatchCountTail(a: seq<byte>, b: seq<byte>, k: nat, n: nat)
    requires Min(|a|, |b|) <= k <= n <= Max(|a|, |b|)
    ensures MismatchCount(a, b, k, n) == n - k
    decreases n - k
  {
    if k < n {
      assert Mismatch(a, b, k);
      MismatchCountTail(a, b, k + 1, n);
    }
  }

  lemma {:induction false} ChangesFromCount(a: seq<byte>, b: seq<byte>, k: nat)
    ensures |ChangesFrom(a, b, k)| == MismatchCount(a, b, k, Max(|a|, |b|))
    decreases Max(|a|, |b|) - k
  {
    if k < Max(|a|, |b|) {
      ChangesFromCount(a, b, k + 1);
    }
  }

  /**
   * The number of changes is the number of differing common bytes plus the
   * difference in length.
   */
  lemma ChangeCount(a: seq<byte>, b: seq<byte>)
    ensures |ChangesFrom(a, b, 0)| == MismatchCount(a, b, 0, Min(|a|, |b|)) + (Max(|a|, |b|) - Min(|a|, |b|))
  {
    ChangesFromCount(a, b, 0);
    MismatchCountSplit(a, b, 0, Min(|a|, |b|), Max(|a|, |b|));
    MismatchCountTail(a, b, Min(|a|, |b|), Max(|a|, |b|));
  }

  /** A change list's verdict on index k: the change there, if any. */
  function Lookup(changes: seq<Modification>, k: nat): Option<Modification>
  {
    if changes == [] then None
    else if changes[0].offset == k then Some(changes[0])
    else Lookup(changes[1..], k)
  }

  /** The byte at index k before the changes, as the change list and a tell it. */
  function OldByte(a: seq<byte>, changes: seq<Modification>, k: nat): Option<byte>
  {
    match Lookup(changes, k)
    case Some(m) => Before(m)
    case None => if k < |a| then Some(a[k]) else None
  }

  /** The byte at index k after the changes: a changed index takes the change's new byte. */
  function NewByte(a: seq<byte>, changes: seq<Modification>, k: nat): Option<byte>
  {
    match Lookup(changes, k)
    case Some(m) => After(m)
    case None => if k < |a| then Some(a[k]) else None
  }

  function ByteAt(s: seq<byte>, k: nat): Option<byte>
  {
    if k < |s| then Some(s[k]) else None
  }

  lemma {:induction false} LookupChangesFrom(a: seq<byte>, b: seq<byte>, k: nat, n: nat)
    ensures Lookup(ChangesFrom(a, b, k), n) ==
      (if k <= n < Max(|a|, |b|) && Mismatch(a, b, n) then Some(ChangeAt(a, b, n)) else None)
    decreases Max(|a|, |b|) - k
  {
    if k < Max(|a|, |b|) {
      var rest := ChangesFrom(a, b, k + 1);
      LookupChangesFrom(a, b, k + 1, n);
      if Mismatch(a, b, k) {
        assert ChangeAt(a, b, k).offset == k;
        assert ChangesFrom(a, b, k) == [ChangeAt(a, b, k)] + rest;
        assert ([ChangeAt(a, b, k)] + rest)[1..] == rest;
      } else {
        assert ChangesFrom(a, b, k) == rest;
      }
    }
  }

  /**
   * Read as edits, the change list turns a into b: at every index the old
   * byte is a's and the new byte is b's (none past the end).
   */
  lemma ChangesReplay(a: seq<byte>, b: seq<byte>, k: nat)
    ensures OldByte(a, ChangesFrom(a, b, 0), k) == ByteAt(a, k)
    ensures NewByte(a, ChangesFrom(a, b, 0), k) == ByteAt(b, k)
  {
    LookupChangesFrom(a, b, 0, k);
  }

  /** With the as-written factory a single differing byte reads as a removal: [1] to [2] loses the 2. */
  lemma ModifyAsWrittenLosesByte()
    ensures var changes := [ModChangeAsWritten(0, 1, 2)];
      NewByte([1], changes, 0) == None && ByteAt([2], 0) == Some(2)
  {
  }

  // ---------------------------------------------------------------------------
  // ImageDifference
  // ---------------------------------------------------------------------------

  /** AddElement, DelElement and ModifyElement. */
  datatype Difference =
    | AddElement(right: Element)
    | DelElement(left: Element)
    | ModifyElementDiff(left: Element, right: Element, changes: seq<Modification>)

  /** What the walk records for one entry of the pairing: nothing for two equal elements. */
  function DifferenceOf(p: Pair): seq<Difference>
  {
    match p
    case Pair(Some(l), None) => [DelElement(l)]
    case Pair(None, Some(r)) => [AddElement(r)]
    case Pair(Some(l), Some(r)) => if NotEqual(l, r) then [ModifyElementDiff(l, r, ChangesFrom(l.data, r.data, 0))] else []
    case Pair(None, None) => []
  }

  function DifferencesOf(plan: seq<Pair>): seq<Difference>
  {
    if plan == [] then [] else DifferencesOf(plan[..|plan| - 1]) + DifferenceOf(plan[|plan| - 1])
  }

  lemma DifferencesOfAppend(done: seq<Pair>, p: Pair)
    ensures DifferencesOf(done + [p]) == DifferencesOf(done) + DifferenceOf(p)
  {
    assert (done + [p])[..|done|] == done;
  }

  /** The difference objects the walk creates for one entry: ModifyElement runs only on unequal elements. */
  method RecordPair(pair: Pair) returns (d: seq<Difference>)
    ensures d == DifferenceOf(pair)
  {
    if pair.left.Some? && pair.right.Some? {
      var l, r := pair.left.value, pair.right.value;
      if NotEqual(l, r) {
        var changes := ModifyElement(l.data, r.data);
        d := [ModifyElementDiff(l, r, changes)];
      } else {
        d := [];
      }
    } else if pair.left.Some? {
      d := [DelElement(pair.left.value)];
    } else if pair.right.Some? {
      d := [AddElement(pair.right.value)];
    } else {
      d := [];
    }
  }

  /**
   * The walk of ImageDifference(a, b): the entries of Pairing in order, each
   * recorded as DifferenceOf says.
   */
  method ComputeDifferences(a: Image, b: Image) returns (differences: seq<Difference>)
    ensures differences == DifferencesOf(Pairing(a.elements, b.elements))
  {
    var ls, rs := a.elements, b.elements;
    ghost var done: seq<Pair> := [];
    ghost var plan := Pairing(ls, rs);
    differences := [];
    var i, j := 0, 0;
    assert ls[0..] == ls && rs[0..] == rs;
    while i < |ls| || j < |rs|
      invariant 0 <= i <= |ls| && 0 <= j <= |rs|
      invariant plan == done + Pairing(ls[i..], rs[j..])
      invariant differences == DifferencesOf(done)
      decreases |ls| - i + |rs| - j
    {
      ghost var before := Pairing(ls[i..], rs[j..]);
      var pair;
      pair, i, j := NextPair(ls, rs, i, j);
      WalkStep(done, pair, Pairing(ls[i..], rs[j..]));
      var d := RecordPair(pair);
      DifferencesOfAppend(done, pair);
      done := done + [pair];
      differences := differences + d;
    }
    assert ls[i..] == [] && rs[j..] == [];
    assert Pairing(ls[i..], rs[j..]) == [];
    assert plan == done;
  }

  /** Pairing an element list with itself pairs every element with itself. */
  lemma {:induction false} PairingSelf(es: seq<Element>)
    ensures |Pairing(es, es)| == |es|
    ensures forall k | 0 <= k < |es| :: Pairing(es, es)[k] == Pair(Some(es[k]), Some(es[k]))
  {
    if es != [] {
      PairingSelf(es[1..]);
    }
  }

  lemma {:induction false} DifferencesOfIdentical(plan: seq<Pair>)
    requires forall k | 0 <= k < |plan| :: plan[k].left.Some? && plan[k].left == plan[k].right
    ensures DifferencesOf(plan) == []
  {
    if plan != [] {
      DifferencesOfIdentical(plan[..|plan| - 1]);
    }
  }

  /** An image compared with itself has no differences. */
  lemma SelfDifferenceEmpty(es: seq<Element>)
    ensures DifferencesOf(Pairing(es, es)) == []
  {
    PairingSelf(es);
    DifferencesOfIdentical(Pairing(es, es));
  }

  /** Every difference comes from an entry of the pairing that it describes. */
  lemma {:induction false} DifferencesDescribe(plan: seq<Pair>, d: Difference)
    requires d in DifferencesOf(plan)
    ensures exists k | 0 <= k < |plan| :: d in DifferenceOf(plan[k])
  {
    var last := |plan| - 1;
    if d in DifferenceOf(plan[last]) {
    } else {
      DifferencesDescribe(plan[..last], d);
      var k :| 0 <= k < last && d in DifferenceOf(plan[..last][k]);
      assert plan[..last][k] == plan[k];
    }
  }

  /**
   * For images without repeated start addresses: a deleted element starts
   * at an address the second image does not have, an added element at one
   * the first image does not have, and a modification pairs two unequal
   * elements with the same start address, its changes replaying the first
   * element's data into the second's.
   */
  lemma DifferenceMeaning(a: seq<Element>, b: seq<Element>, d: Difference)
    requires StrictlySorted(a) && StrictlySorted(b)
    requires d in DifferencesOf(Pairing(a, b))
    ensures d.DelElement? ==> d.left in a && forall r | r in b :: r.address != d.left.address
    ensures d.AddElement? ==> d.right in b && forall l | l in a :: l.address != d.right.address
    ensures d.ModifyElementDiff? ==>
      && d.left in a && d.right in b
      && d.left.address == d.right.address && d.left != d.right
      && d.changes == ChangesFrom(d.left.data, d.right.data, 0)
  {
    var plan := Pairing(a, b);
    DifferencesDescribe(plan, d);
    var k :| 0 <= k < |plan| && d in DifferenceOf(plan[k]);
    PairingCoversEach(a, b);
    PairingMatchesAddresses(a, b);
    if plan[k].left.Some? {
      LeftsContain(plan, k);
    }
    if plan[k].right.Some? {
      RightsContain(plan, k);
    }
    if d.DelElement? {
      forall r | r in b
        ensures r.address != d.left.address
      {
        LoneLeftAbsent(a, b, k, r);
      }
    }
    if d.AddElement? {
      forall l | l in a
        ensures l.address != d.right.address
      {
        LoneRightAbsent(a, b, k, l);
      }
    }
  }

  /**
   * For images without repeated start addresses, nothing is dropped: an
   * element of the first image whose start address the second image lacks
   * is reported deleted.
   */
  lemma DeletionReported(a: seq<Element>, b: seq<Element>, x: Element)
    requires StrictlySorted(a) && StrictlySorted(b)
    requires x in a && forall r | r in b :: r.address != x.address
    ensures DelElement(x) in DifferencesOf(Pairing(a, b))
  {
    var plan := Pairing(a, b);
    PairingCoversEach(a, b);
    PairingMatchesAddresses(a, b);
    var k := LeftIndex(plan, x);
    if plan[k].right.Some? {
      RightsContain(plan, k);
      assert false;
    }
    DifferenceReported(plan, k, DelElement(x));
  }

  /** An element of the second image whose start address the first image lacks is reported added. */
  lemma AdditionReported(a: seq<Element>, b: seq<Element>, y: Element)
    requires StrictlySorted(a) && StrictlySorted(b)
    requires y in b && forall l | l in a :: l.address != y.address
    ensures AddElement(y) in DifferencesOf(Pairing(a, b))
  {
    var plan := Pairing(a, b);
    PairingCoversEach(a, b);
    PairingMatchesAddresses(a, b);
    var k := RightIndex(plan, y);
    if plan[k].left.Some? {
      LeftsContain(plan, k);
      assert false;
    }
    DifferenceReported(plan, k, AddElement(y));
  }

  /** Two unequal elements at the same start address, one in each image, are reported modified, with their byte changes. */
  lemma ModificationReported(a: seq<Element>, b: seq<Element>, x: Element, y: Element)
    requires StrictlySorted(a) && StrictlySorted(b)
    requires x in a && y in b && x.address == y.address && x != y
    ensures ModifyElementDiff(x, y, ChangesFrom(x.data, y.data, 0)) in DifferencesOf(Pairing(a, b))
  {
    var plan := Pairing(a, b);
    PairingCoversEach(a, b);
    PairingMatchesAddresses(a, b);
    var k := LeftIndex(plan, x);
    if plan[k].right.None? {
      LoneLeftAbsent(a, b, k, y);
      assert false;
    }
    RightsContain(plan, k);
    SameAddressSame(b, plan[k].right.value, y);
    DifferenceReported(plan, k, ModifyElementDiff(x, y, ChangesFrom(x.data, y.data, 0)));
  }

  /** The entry that holds a given left element. */
  lemma {:induction false} LeftIndex(plan: seq<Pair>, x: Element) returns (k: nat)
    requires x in Lefts(plan)
    ensures k < |plan| && plan[k].left == Some(x)
  {
    k := 0;
    if plan[0].left != Some(x) {
      var k' := LeftIndex(plan[1..], x);
      assert plan[1..][k'] == plan[k' + 1];
      k := k' + 1;
    }
  }

  /** The entry that holds a given right element. */
  lemma {:induction false} RightIndex(plan: seq<Pair>, y: Element) returns (k: nat)
    requires y in Rights(plan)
    ensures k < |plan| && plan[k].right == Some(y)
  {
    k := 0;
    if plan[0].right != Some(y) {
      var k' := RightIndex(plan[1..], y);
      assert plan[1..][k'] == plan[k' + 1];
      k := k' + 1;
    }
  }

  /** The differences of any entry are among the walk's differences. */
  lemma {:induction false} DifferenceReported(plan: seq<Pair>, k: nat, d: Difference)
    requires k < |plan| && d in DifferenceOf(plan[k])
    ensures d in DifferencesOf(plan)
  {
    var last := |plan| - 1;
    if k < last {
      assert plan[..last][k] == plan[k];
      DifferenceReported(plan[..last], k, d);
    }
  }

  /** Without repeated start addresses, an element is determined by its start address. */
  lemma SameAddressSame(es: seq<Element>, x: Element, y: Element)
    requires StrictlySorted(es) && x in es && y in es && x.address == y.address
    ensures x == y
  {
    var i :| 0 <= i < |es| && es[i] == x;
    var j :| 0 <= j < |es| && es[j] == y;
    assert i == j;
  }

  lemma {:induction false} LeftsContain(plan: seq<Pair>, k: nat)
    requires k < |plan| && plan[k].left.Some?
    ensures plan[k].left.value in Lefts(plan)
  {
    if k > 0 {
      LeftsContain(plan[1..], k - 1);
    }
  }

  lemma {:induction false} RightsContain(plan: seq<Pair>, k: nat)
    requires k < |plan| && plan[k].right.Some?
    ensures plan[k].right.value in Rights(plan)
  {
    if k > 0 {
      RightsContain(plan[1..], k - 1);
    }
  }

  /** Without repeated start addresses, an entry holding only a left element has an address absent from the right list. */
  lemma {:induction false} LoneLeftAbsent(ls: seq<Element>, rs: seq<Element>, k: nat, r: Element)
    requires StrictlySorted(ls) && StrictlySorted(rs)
    requires k < |Pairing(ls, rs)| && Pairing(ls, rs)[k].left.Some? && Pairing(ls, rs)[k].right.None?
    requires r in rs
    ensures r.address != Pairing(ls, rs)[k].left.value.address
    decreases |ls| + |rs|
  {
    var ls', rs' := PairingStep(ls, rs);
    if k == 0 {
      LoneHeadBelow(ls, rs, r);
    } else {
      var rest := Pairing(ls', rs');
      assert Pairing(ls, rs)[k] == rest[k - 1];
      SortedSuffix(ls, ls');
      SortedSuffix(rs, rs');
      if r in rs' {
        LoneLeftAbsent(ls', rs', k - 1, r);
      } else {
        DroppedHead(rs, rs', r);
        LoneAfterHead(ls, rs, k, r);
      }
    }
  }

  /** Without repeated start addresses, an entry holding only a right element has an address absent from the left list. */
  lemma {:induction false} LoneRightAbsent(ls: seq<Element>, rs: seq<Element>, k: nat, l: Element)
    requires StrictlySorted(ls) && StrictlySorted(rs)
    requires k < |Pairing(ls, rs)| && Pairing(ls, rs)[k].right.Some? && Pairing(ls, rs)[k].left.None?
    requires l in ls
    ensures l.address != Pairing(ls, rs)[k].right.value.address
    decreases |ls| + |rs|
  {
    var ls', rs' := PairingStep(ls, rs);
    if k == 0 {
      LoneHeadBelow(ls, rs, l);
    } else {
      var rest := Pairing(ls', rs');
      assert Pairing(ls, rs)[k] == rest[k - 1];
      SortedSuffix(ls, ls');
      SortedSuffix(rs, rs');
      if l in ls' {
        LoneRightAbsent(ls', rs', k - 1, l);
      } else {
        DroppedHead(ls, ls', l);
        LoneAfterHead(ls, rs, k, l);
      }
    }
  }

  /**
   * An entry after the first lies above the head the first entry took from
   * either list: the other side of that entry has no element at its address.
   */
  lemma LoneAfterHead(ls: seq<Element>, rs: seq<Element>, k: nat, x: Element)
    requires StrictlySorted(ls) && StrictlySorted(rs)
    requires 0 < k < |Pairing(ls, rs)|
    ensures Pairing(ls, rs)[k].left.Some? && rs != [] && x == rs[0] && Pairing(ls, rs)[0].right == Some(rs[0])
            ==> x.address != Pairing(ls, rs)[k].left.value.address
    ensures Pairing(ls, rs)[k].right.Some? && ls != [] && x == ls[0] && Pairing(ls, rs)[0].left == Some(ls[0])
            ==> x.address != Pairing(ls, rs)[k].right.value.address
  {
    var plan := Pairing(ls, rs);
    var ls', rs' := PairingStep(ls, rs);
    assert plan[k] == Pairing(ls', rs')[k - 1];
    EntryFromLists(ls', rs', k - 1);
    if plan[k].left.Some? && rs != [] && x == rs[0] && plan[0].right == Some(rs[0]) {
      LaterAbove(ls, ls', plan[0].left, plan[k].left.value, x);
    }
    if plan[k].right.Some? && ls != [] && x == ls[0] && plan[0].left == Some(ls[0]) {
      LaterAbove(rs, rs', plan[0].right, plan[k].right.value, x);
    }
  }

  /** The first entry, when it holds one side only, lies below every element of the other list. */
  lemma LoneHeadBelow(ls: seq<Element>, rs: seq<Element>, x: Element)
    requires StrictlySorted(ls) && StrictlySorted(rs) && (ls != [] || rs != [])
    ensures Pairing(ls, rs)[0].right.None? && x in rs ==> PairAddress(Pairing(ls, rs)[0]) < x.address
    ensures Pairing(ls, rs)[0].left.None? && x in ls ==> PairAddress(Pairing(ls, rs)[0]) < x.address
  {
    var ls', rs' := PairingStep(ls, rs);
    if x in rs {
      var i :| 0 <= i < |rs| && rs[i] == x;
      assert rs[0].address <= x.address;
    }
    if x in ls {
      var i :| 0 <= i < |ls| && ls[i] == x;
      assert ls[0].address <= x.address;
    }
  }

  /** The elements an entry holds come from the two lists. */
  lemma EntryFromLists(ls: seq<Element>, rs: seq<Element>, k: nat)
    requires k < |Pairing(ls, rs)|
    ensures Pairing(ls, rs)[k].left.Some? ==> Pairing(ls, rs)[k].left.value in ls
    ensures Pairing(ls, rs)[k].right.Some? ==> Pairing(ls, rs)[k].right.value in rs
  {
    PairingCoversEach(ls, rs);
    if Pairing(ls, rs)[k].left.Some? {
      LeftsContain(Pairing(ls, rs), k);
    }
    if Pairing(ls, rs)[k].right.Some? {
      RightsContain(Pairing(ls, rs), k);
    }
  }

  /** An element of a list that its remainder lacks was the head the walk took. */
  lemma DroppedHead(xs: seq<Element>, xs': seq<Element>, x: Element)
    requires x in xs && x !in xs' && (xs' == xs || (xs != [] && xs' == xs[1..]))
    ensures xs != [] && xs' == xs[1..] && x == xs[0]
  {
    assert xs != [] && xs == [xs[0]] + xs[1..];
  }

  /** Dropping the head, or nothing, keeps a list strictly sorted. */
  lemma SortedSuffix(xs: seq<Element>, xs': seq<Element>)
    requires StrictlySorted(xs) && (xs' == xs || (xs != [] && xs' == xs[1..]))
    ensures StrictlySorted(xs')
  {
  }

  /**
   * The first entry of the walk took `first` from one side (address a) and
   * `taken` from the other list (its head, or nothing when that list's head
   * lies higher): every element left in that list lies above a.
   */
  lemma LaterAbove(xs: seq<Element>, xs': seq<Element>, taken: Option<Element>, x: Element, first: Element)
    requires StrictlySorted(xs) && x in xs'
    requires taken.Some? ==> xs != [] && taken.value == xs[0] && xs' == xs[1..] && xs[0].address == first.address
    requires taken.None? ==> xs' == xs && (xs != [] ==> first.address < xs[0].address)
    ensures first.address != x.address
  {
    var i :| 0 <= i < |xs'| && xs'[i] == x;
    if taken.Some? {
      assert xs[i + 1] == x;
    } else {
      assert xs[0].address <= x.address;
    }
  }

  /**
   * ImageDifference: the two compared images, which are forgotten together
   * as soon as either is deleted, and the recorded differences.
   */
  class ImageDifference {
    var a: Image?
    var b: Image?
    const differences: seq<Difference>

    constructor (a: Image, b: Image)
      ensures this.a == a && this.b == b
      ensures differences == DifferencesOf(Pairing(a.elements, b.elements))
    {
      var ds := ComputeDifferences(a, b);
      this.a, this.b := a, b;
      differences := ds;
    }

    /** onImageDeleted: deleting either image clears both references; another object changes nothing. */
    method OnImageDeleted(obj: object)
      modifies this
      ensures obj == old(a) || obj == old(b) ==> a == null && b == null
      ensures obj != old(a) && obj != old(b) ==> a == old(a) && b == old(b)
    {
      if a == obj {
        a := null;
        b := null;
      } else if b == obj {
        b := null;
        a := null;
      }
    }
  }
}
