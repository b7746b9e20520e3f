/**
 * Annotations of a codeplug image: issues with a severity, annotations that
 * cover a bit range of an element, the bisection lookup over an ordered
 * collection of annotations, the gap filling that makes an element's
 * annotations tile it, and the annotator that matches fixed and block
 * patterns against an element.
 *
 * Addresses and sizes of annotations are bit counts, as nat: the 64-bit
 * range of Address and Size is not modelled here.
 */
module AnnotationModel {
  import B = Bytes
  import Offsets
  import P = PatternModel

  /* ------------------------------------------------------------------ *
   * Issues
   * ------------------------------------------------------------------ */

  /** Severity of an issue; None is below every real severity. */
  datatype Severity = None | Note | Warning | Error

  function Rank(s: Severity): nat
  {
    match s
    case None => 0
    case Note => 1
    case Warning => 2
    case Error => 3
  }

  /** An issue found while annotating, at an address, with a severity. */
  datatype Issue = Issue(address: Offsets.Address, severity: Severity)

  /** The worst severity among the issues, None for no issues. */
  function SeverityOf(issues: seq<Issue>): (s: Severity)
    ensures forall i :: 0 <= i < |issues| ==> Rank(issues[i].severity) <= Rank(s)
    ensures s == None || exists i :: 0 <= i < |issues| && issues[i].severity == s
  {
    if issues == [] then None
    else
      var init := issues[..|issues| - 1];
      var s := SeverityOf(init);
      var last := issues[|issues| - 1].severity;
      assert forall i :: 0 <= i < |init| ==> init[i] == issues[i];
      if Rank(last) > Rank(s) then last else s
  }

  /** Adding one issue raises the worst severity to that issue's, if it is worse. */
  lemma SeverityOfAppend(issues: seq<Issue>, issue: Issue)
    ensures Rank(SeverityOf(issues + [issue])) == B.Max(Rank(SeverityOf(issues)), Rank(issue.severity))
  {
    assert (issues + [issue])[..|issues|] == issues;
  }

  /** The list of issues attached to an annotation. */
  class AnnotationIssues {
    var issues: seq<Issue>

    /** Only issues at a valid address are ever kept. */
    predicate Valid()
      reads this
    {
      forall i :: 0 <= i < |issues| ==> Offsets.AddressIsValid(issues[i].address)
    }

    constructor()
      ensures issues == [] && Valid()
    {
      issues := [];
    }

    /** add: an issue with an invalid address is ignored, any other is appended. */
    method Add(issue: Issue)
      requires Valid()
      modifies this
      ensures Offsets.AddressIsValid(issue.address) ==> issues == old(issues) + [issue]
      ensures !Offsets.AddressIsValid(issue.address) ==> issues == old(issues)
      ensures Valid()
    {
      if !Offsets.AddressIsValid(issue.address) {
        return;
      }
      issues := issues + [issue];
    }

    /** has: whether some issue has exactly the given severity. */
    method Has(severity: Severity) returns (r: bool)
      ensures r <==> exists i :: 0 <= i < |issues| && issues[i].severity == severity
    {
      var i := 0;
      while i < |issues|
        invariant 0 <= i <= |issues|
        invariant forall k :: 0 <= k < i ==> issues[k].severity != severity
      {
        if issues[i].severity == severity {
          return true;
        }
        i := i + 1;
      }
      return false;
    }

    /** severity: the worst severity of all issues, None when there are none. */
    method MaxSeverity() returns (s: Severity)
      ensures s == SeverityOf(issues)
      ensures forall i :: 0 <= i < |issues| ==> Rank(issues[i].severity) <= Rank(s)
    {
      s := None;
      var i := 0;
      while i < |issues|
        invariant 0 <= i <= |issues|
        invariant s == SeverityOf(issues[..i])
      {
        assert issues[..i + 1] == issues[..i] + [issues[i]];
        SeverityOfAppend(issues[..i], issues[i]);
        if Rank(issues[i].severity) > Rank(s) {
          s := issues[i].severity;
        }
        i := i + 1;
      }
      assert issues[..i] == issues;
    }
  }

  /* ------------------------------------------------------------------ *
   * Annotations
   * ------------------------------------------------------------------ */

  /**
   * An annotation covers `size` bits from `address`: a field matched by a
   * field pattern, a segment no pattern matched, or a structure whose
   * children annotate its parts.
   */
  datatype Annotation =
    | Field(address: nat, size: nat)
    | Unannotated(address: nat, size: nat)
    | Structured(address: nat, size: nat, children: seq<Annotation>)

  /** The first bit past an annotation. */
  function End(a: Annotation): nat
  {
    a.address + a.size
  }

  /** contains: the annotation covers addr. */
  predicate Contains(a: Annotation, addr: nat)
  {
    a.address <= addr < End(a)
  }

  /** Each annotation ends at or before the next one starts. */
  predicate SortedDisjoint(anns: seq<Annotation>)
  {
    forall i, j :: 0 <= i < j < |anns| ==> End(anns[i]) <= anns[j].address
  }

  /** In a sorted, disjoint collection at most one annotation covers an address. */
  lemma ContainsUnique(anns: seq<Annotation>, addr: nat, i: nat, j: nat)
    requires SortedDisjoint(anns)
    requires i < |anns| && j < |anns|
    requires Contains(anns[i], addr) && Contains(anns[j], addr)
    ensures i == j
  {
  }

  /**
   * annotationAt: bisection for the annotation that covers addr. It checks
   * the first and the last annotation, then halves the range between two
   * annotations that do not cover addr until they are neighbours. A result
   * always covers addr; on a sorted, disjoint collection it is found
   * whenever some annotation covers addr.
   */
  method AnnotationAt(anns: seq<Annotation>, addr: nat) returns (r: B.Option<nat>)
    ensures anns == [] ==> r == B.None
    ensures r.Some? ==> r.value < |anns| && Contains(anns[r.value], addr)
    ensures SortedDisjoint(anns) ==>
              (r.None? <==> forall k :: 0 <= k < |anns| ==> !Contains(anns[k], addr))
  {
    if anns == [] {
      return B.None;
    }
    var a := 0;
    var b := |anns| - 1;
    if Contains(anns[a], addr) {
      return B.Some(a);
    }
    if Contains(anns[b], addr) {
      return B.Some(b);
    }
    while a < b
      invariant 0 <= a <= b < |anns|
      invariant SortedDisjoint(anns) ==>
                  forall k :: 0 <= k < |anns| && Contains(anns[k], addr) ==> a < k < b
      decreases b - a
    {
      var mid := (a + b) / 2;
      if Contains(anns[mid], addr) {
        return B.Some(mid);
      }
      if anns[mid].address > addr {
        b := mid;
      } else {
        a := mid;
      }
      if 1 == b - a {
        return B.None;
      }
    }
    if a == b && Contains(anns[a], addr) {
      return B.Some(a);
    }
    return B.None;
  }

  /**
   * resolve: the field or unannotated segment covering addr, found by
   * descending through structured annotations with annotationAt.
   */
  method Resolve(a: Annotation, addr: nat) returns (r: B.Option<Annotation>)
    ensures r.Some? ==> !r.value.Structured? && Contains(r.value, addr)
    ensures !a.Structured? ==> (r.Some? <==> Contains(a, addr)) && (r.Some? ==> r.value == a)
    decreases a
  {
    if !a.Structured? {
      if Contains(a, addr) {
        return B.Some(a);
      }
      return B.None;
    }
    var idx := AnnotationAt(a.children, addr);
    if idx.None? {
      return B.None;
    }
    r := Resolve(a.children[idx.value], addr);
  }

  /** The total size of a sequence of annotations. */
  function SizeSum(anns: seq<Annotation>): nat
  {
    if anns == [] then 0 else SizeSum(anns[..|anns| - 1]) + anns[|anns| - 1].size
  }

  /**
   * A structured annotation under construction: it starts empty at its
   * address and grows by every child added to it.
   */
  class StructuredAnnotation {
    const address: nat
    var size: nat
    var annotations: seq<Annotation>

    /** The size is the total size of the children. */
    predicate Valid()
      reads this
    {
      size == SizeSum(annotations)
    }

    constructor(address: nat)
      ensures this.address == address && size == 0 && annotations == [] && Valid()
    {
      this.address := address;
      size := 0;
      annotations := [];
    }

    /** addAnnotation: appends the child and grows the size by the child's size. */
    method AddAnnotation(child: Annotation)
      requires Valid()
      modifies this
      ensures annotations == old(annotations) + [child]
      ensures size == old(size) + child.size
      ensures Valid()
    {
      assert (annotations + [child])[..|annotations|] == annotations;
      size := size + child.size;
      annotations := annotations + [child];
    }

    /** The finished annotation as a value. */
    function Snapshot(): (a: Annotation)
      reads this
      ensures a.Structured? && a.address == address && a.size == size && a.children == annotations
    {
      Structured(address, size, annotations)
    }
  }

  /* ------------------------------------------------------------------ *
   * Marking unannotated segments
   * ------------------------------------------------------------------ */

  /**
   * The annotations lie in [addr, end), ordered and without overlap: what
   * the annotator leaves in an element.
   */
  predicate Within(addr: nat, anns: seq<Annotation>, end: nat)
    decreases |anns|
  {
    if anns == [] then addr <= end
    else addr <= anns[0].address && Within(End(anns[0]), anns[1..], end)
  }

  /** The annotations cover [addr, end) one after another, without gap or overlap. */
  predicate Tiles(addr: nat, anns: seq<Annotation>, end: nat)
    decreases |anns|
  {
    if anns == [] then addr == end
    else anns[0].address == addr && Tiles(End(anns[0]), anns[1..], end)
  }

  /**
   * What markUnannotated makes of an element's annotations: an unannotated
   * segment is put in front of every annotation that does not start where
   * the previous one ended, and one more after the last annotation when it
   * ends before the element does.
   */
  function Tiling(addr: nat, anns: seq<Annotation>, end: nat): seq<Annotation>
    requires Within(addr, anns, end)
    decreases |anns|
  {
    if anns == [] then
      if addr != end then [Unannotated(addr, end - addr)] else []
    else
      var rest := Tiling(End(anns[0]), anns[1..], end);
      if addr == anns[0].address then [anns[0]] + rest
      else [Unannotated(addr, anns[0].address - addr), anns[0]] + rest
  }

  /**
   * One step of the walk, after the segments `done`: the next annotation
   * starts at the next unannotated address and is kept.
   */
  lemma TilingMatch(done: seq<Annotation>, addr: nat, anns: seq<Annotation>, end: nat)
    requires Within(addr, anns, end) && anns != [] && addr == anns[0].address
    ensures Within(End(anns[0]), anns[1..], end)
    ensures done + Tiling(addr, anns, end) == (done + [anns[0]]) + Tiling(End(anns[0]), anns[1..], end)
    ensures done + anns == (done + [anns[0]]) + anns[1..]
  {
    assert Tiling(addr, anns, end) == [anns[0]] + Tiling(End(anns[0]), anns[1..], end);
  }

  /**
   * One step of the walk, after the segments `done`: a gap before the next
   * annotation becomes an unannotated segment inserted in front of it.
   */
  lemma TilingGap(done: seq<Annotation>, addr: nat, anns: seq<Annotation>, end: nat)
    requires Within(addr, anns, end) && anns != [] && addr != anns[0].address
    ensures addr < anns[0].address && Within(anns[0].address, anns, end)
    ensures var gap := Unannotated(addr, anns[0].address - addr);
            && done + Tiling(addr, anns, end) == (done + [gap]) + Tiling(anns[0].address, anns, end)
            && (done + anns)[..|done|] + [gap] + (done + anns)[|done|..] == (done + [gap]) + anns
  {
    var gap := Unannotated(addr, anns[0].address - addr);
    assert Tiling(addr, anns, end) == [gap] + Tiling(anns[0].address, anns, end);
    assert (done + anns)[..|done|] == done && (done + anns)[|done|..] == anns;
  }

  /** The walk's end: what is left of the element after the last annotation. */
  lemma TilingRest(done: seq<Annotation>, addr: nat, end: nat)
    requires addr <= end
    ensures done + Tiling(addr, [], end) == if addr != end then done + [Unannotated(addr, end - addr)] else done
  {
  }

  /** After markUnannotated the element is tiled: every bit of it is annotated exactly once. */
  lemma {:induction false} TilingTiles(addr: nat, anns: seq<Annotation>, end: nat)
    requires Within(addr, anns, end)
    ensures Tiles(addr, Tiling(addr, anns, end), end)
    decreases |anns|
  {
    if anns != [] {
      TilingTiles(End(anns[0]), anns[1..], end);
      var rest := Tiling(End(anns[0]), anns[1..], end);
      if addr != anns[0].address {
        var t := Tiling(addr, anns, end);
        assert t[1..] == [anns[0]] + rest;
        assert t[1..][1..] == rest;
      }
    }
  }

  /**
   * markUnannotated only adds: every annotation of the result is one of the
   * element's own or an unannotated segment of positive size.
   */
  lemma {:induction false} TilingAdds(addr: nat, anns: seq<Annotation>, end: nat)
    requires Within(addr, anns, end)
    ensures forall x :: x in Tiling(addr, anns, end) ==> x in anns || (x.Unannotated? && x.size > 0)
    decreases |anns|
  {
    var t := Tiling(addr, anns, end);
    if anns != [] {
      TilingAdds(End(anns[0]), anns[1..], end);
      var rest := Tiling(End(anns[0]), anns[1..], end);
      forall x | x in t
        ensures x in anns || (x.Unannotated? && x.size > 0)
      {
        if x in rest {
          assert x in anns[1..] || (x.Unannotated? && x.size > 0);
        }
      }
    }
  }

  /** The element's own annotations keep their order in the result of markUnannotated. */
  lemma {:induction false} TilingKeeps(addr: nat, anns: seq<Annotation>, end: nat)
    requires Within(addr, anns, end)
    ensures Subsequence(anns, Tiling(addr, anns, end))
    decreases |anns|
  {
    if anns != [] {
      TilingKeeps(End(anns[0]), anns[1..], end);
      var rest := Tiling(End(anns[0]), anns[1..], end);
      var t := Tiling(addr, anns, end);
      if addr == anns[0].address {
        assert t[0] == anns[0] && t[1..] == rest;
      } else {
        assert t[0] != anns[0] && t[1..] == [anns[0]] + rest;
        assert t[1..][1..] == rest;
      }
    }
  }

  /** xs occurs in ys in order, possibly with other elements in between. */
  predicate Subsequence(xs: seq<Annotation>, ys: seq<Annotation>)
    decreases |ys|
  {
    if xs == [] then true
    else if ys == [] then false
    else if xs[0] == ys[0] then Subsequence(xs[1..], ys[1..])
    else Subsequence(xs, ys[1..])
  }

  /** An element that is already tiled gets nothing from markUnannotated. */
  lemma {:induction false} TilingOfTiled(addr: nat, anns: seq<Annotation>, end: nat)
    requires Within(addr, anns, end) && Tiles(addr, anns, end)
    ensures Tiling(addr, anns, end) == anns
    decreases |anns|
  {
    if anns != [] {
      TilingOfTiled(End(anns[0]), anns[1..], end);
    }
  }

  /** A tiling lies within its range. */
  lemma {:induction false} TilesWithin(addr: nat, anns: seq<Annotation>, end: nat)
    requires Tiles(addr, anns, end)
    ensures Within(addr, anns, end)
    decreases |anns|
  {
    if anns != [] {
      TilesWithin(End(anns[0]), anns[1..], end);
    }
  }

  /** Marking twice is marking once. */
  lemma TilingIdempotent(addr: nat, anns: seq<Annotation>, end: nat)
    requires Within(addr, anns, end)
    ensures var t := Tiling(addr, anns, end);
            Within(addr, t, end) && Tiling(addr, t, end) == t
  {
    var t := Tiling(addr, anns, end);
    TilingTiles(addr, anns, end);
    TilesWithin(addr, t, end);
    TilingOfTiled(addr, t, end);
  }

  /** An element of the image with the annotations attached to it. */
  class AnnotatedElement {
    const address: nat
    const size: nat
    var annotations: seq<Annotation>

    constructor(address: nat, size: nat, annotations: seq<Annotation>)
      ensures this.address == address && this.size == size && this.annotations == annotations
    {
      this.address := address;
      this.size := size;
      this.annotations := annotations;
    }

    /** addAnnotation on an element: appends the annotation. */
    method AddAnnotation(a: Annotation)
      modifies this
      ensures annotations == old(annotations) + [a]
    {
      annotations := annotations + [a];
    }

    /** The body of markUnannotated for one element. */
    method MarkUnannotated()
      requires Within(address, annotations, address + size)
      modifies this
      ensures annotations == Tiling(address, old(annotations), address + size)
      ensures Tiles(address, annotations, address + size)
    {
      var anns := FillGaps(annotations, address, address + size);
      TilingTiles(address, annotations, address + size);
      annotations := anns;
    }
  }

  /**
   * The walk of markUnannotated: with the next unannotated address, inserts
   * an unannotated segment wherever the next annotation starts later, and
   * appends one for the rest of the element.
   */
  method FillGaps(annotations: seq<Annotation>, address: nat, end: nat) returns (anns: seq<Annotation>)
    requires Within(address, annotations, end)
    ensures anns == Tiling(address, annotations, end)
  {
    anns := annotations;
    ghost var done: seq<Annotation> := [];
    ghost var rest := anns;
    ghost var tiled := Tiling(address, annotations, end);
    var addr: nat := address;
    var i := 0;
    while i < |anns|
      invariant i == |done| && anns == done + rest
      invariant Within(addr, rest, end)
      invariant tiled == done + Tiling(addr, rest, end)
      decreases |rest|, if rest != [] && addr != rest[0].address then 1 else 0
    {
      assert anns[i] == rest[0];
      if addr == anns[i].address {
        TilingMatch(done, addr, rest, end);
        addr := addr + anns[i].size;
        done := done + [rest[0]];
        rest := rest[1..];
        i := i + 1;
        continue;
      }
      var unan := Unannotated(addr, anns[i].address - addr);
      TilingGap(done, addr, rest, end);
      anns := anns[..i] + [unan] + anns[i..];
      addr := addr + unan.size;
      done := done + [unan];
      i := i + 1;
    }
    assert rest == [];
    TilingRest(done, addr, end);
    if addr != end {
      var unan := Unannotated(addr, end - addr);
      anns := anns + [unan];
    }
  }

  /** No element occurs twice. */
  predicate Distinct(elements: seq<AnnotatedElement>)
  {
    forall i, j :: 0 <= i < j < |elements| ==> elements[i] != elements[j]
  }

  /**
   * markUnannotated over a whole image: every element's annotations become
   * their tiling of the element. It always reports success.
   */
  method MarkUnannotatedAll(elements: seq<AnnotatedElement>) returns (ok: bool)
    requires Distinct(elements)
    requires forall e :: e in elements ==> Within(e.address, e.annotations, e.address + e.size)
    modifies set e | e in elements
    ensures ok
    ensures forall i :: 0 <= i < |elements| ==>
              elements[i].annotations
                == Tiling(elements[i].address, old(elements[i].annotations), elements[i].address + elements[i].size)
  {
    var i := 0;
    while i < |elements|
      invariant 0 <= i <= |elements|
      invariant forall k :: 0 <= k < i ==>
                  elements[k].annotations
                    == Tiling(elements[k].address, old(elements[k].annotations), elements[k].address + elements[k].size)
      invariant forall k :: i <= k < |elements| ==> elements[k].annotations == old(elements[k].annotations)
    {
      elements[i].MarkUnannotated();
      i := i + 1;
    }
    return true;
  }

  /* ------------------------------------------------------------------ *
   * Annotating an element with patterns
   * ------------------------------------------------------------------ */

  /** The annotations of the parts, prefixed by one more in front. */
  function Prepend(a: Annotation, rest: B.Option<seq<Annotation>>): (r: B.Option<seq<Annotation>>)
    ensures r.Some? <==> rest.Some?
    ensures r.Some? ==> r.value == [a] + rest.value
  {
    if rest.None? then B.None else B.Some([a] + rest.value)
  }

  /** The annotations of the parts, with those made so far in front. */
  function Prefixed(made: seq<Annotation>, rest: B.Option<seq<Annotation>>): (r: B.Option<seq<Annotation>>)
    ensures r.Some? <==> rest.Some?
    ensures r.Some? ==> r.value == made + rest.value
  {
    if rest.None? then B.None else B.Some(made + rest.value)
  }

  // Three sequence facts about Prefixed that the loops of the annotate
  // methods use to keep their invariant; they model nothing on their own.

  lemma PrefixedStep(made: seq<Annotation>, a: Annotation, rest: B.Option<seq<Annotation>>)
    ensures Prefixed(made, Prepend(a, rest)) == Prefixed(made + [a], rest)
  {
    if rest.Some? {
      assert made + ([a] + rest.value) == (made + [a]) + rest.value;
    }
  }

  lemma PrefixedNothing(rest: B.Option<seq<Annotation>>)
    ensures Prefixed([], rest) == rest
  {
    if rest.Some? {
      assert [] + rest.value == rest.value;
    }
  }

  lemma PrefixedAll(made: seq<Annotation>)
    ensures Prefixed(made, B.Some([])) == B.Some(made)
  {
    assert made + [] == made;
  }

  /** A structured annotation at addr over the annotations of its parts. */
  function Structure(addr: nat, parts: B.Option<seq<Annotation>>): (r: B.Option<Annotation>)
    ensures r.Some? <==> parts.Some?
    ensures r.Some? ==> r.value.Structured? && r.value.address == addr && r.value.children == parts.value
  {
    if parts.None? then B.None else B.Some(Structured(addr, SizeSum(parts.value), parts.value))
  }

  /**
   * annotate for a fixed pattern at addr inside an element ending at end:
   * a field must fit before the end; an element annotates its children one
   * after another and gives up when a child would start at or past the end;
   * a fixed repeat does the same for each of its repetitions.
   */
  function AnnotateFixed(p: P.FixedTree, addr: nat, end: nat): B.Option<Annotation>
    decreases p, 2
  {
    match p
    case FieldNode(width) =>
      if addr + width > end then B.None else B.Some(Field(addr, width))
    case ElementNode(children) =>
      Structure(addr, AnnotateChildren(p, 0, addr, end))
    case FixedRepeatNode(sub, n) =>
      Structure(addr, AnnotateRepeats(sub, n, addr, end))
  }

  /** The children of an element pattern from child i on, the first at addr. */
  function AnnotateChildren(p: P.FixedTree, i: nat, addr: nat, end: nat): B.Option<seq<Annotation>>
    requires p.ElementNode? && i <= |p.children|
    decreases p, 1, |p.children| - i
  {
    if i == |p.children| then B.Some([])
    else if addr >= end then B.None
    else
      var c := AnnotateFixed(p.children[i], addr, end);
      if c.None? then B.None
      else Prepend(c.value, AnnotateChildren(p, i + 1, addr + P.TreeSize(p.children[i]), end))
  }

  /** count more repetitions of sub, the first at addr. */
  function AnnotateRepeats(sub: P.FixedTree, count: nat, addr: nat, end: nat): B.Option<seq<Annotation>>
    decreases sub, 3, count
  {
    if count == 0 then B.Some([])
    else if addr >= end then B.None
    else
      var c := AnnotateFixed(sub, addr, end);
      if c.None? then B.None
      else Prepend(c.value, AnnotateRepeats(sub, count - 1, addr + P.TreeSize(sub), end))
  }

  /**
   * Whether a block repeat stops, without failing, on reaching the end of
   * the element before repetition i. The corrected rule stops once i
   * repetitions, at least the minimum, are done; the rule as written in
   * lib/annotation.cc already stops after one repetition fewer.
   */
  predicate StopsAtEnd(i: nat, minRepetition: nat, asWritten: bool)
  {
    if asWritten then i + 1 >= minRepetition else i >= minRepetition
  }

  /** Repetitions i, i+1, ... of a block repeat, repetition i at addr. */
  function AnnotateBlockReps(sub: P.FixedTree, minRep: nat, maxRep: nat, i: nat, addr: nat, end: nat,
                             asWritten: bool): B.Option<seq<Annotation>>
    requires i <= maxRep
    decreases maxRep - i
  {
    if i == maxRep then B.Some([])
    else if addr >= end && StopsAtEnd(i, minRep, asWritten) then B.Some([])
    else if addr >= end then B.None
    else
      var c := AnnotateFixed(sub, addr, end);
      if c.None? then B.None
      else Prepend(c.value, AnnotateBlockReps(sub, minRep, maxRep, i + 1, addr + P.TreeSize(sub), end, asWritten))
  }

  /** annotate for a block pattern, with the corrected minimum-repetition rule. */
  function AnnotateBlock(p: P.BlockTree, addr: nat, end: nat): B.Option<Annotation>
  {
    match p
    case FixedBlock(f) => AnnotateFixed(f, addr, end)
    case BlockRepeatNode(sub, minRep, maxRep) =>
      Structure(addr, AnnotateBlockReps(sub, minRep, maxRep, 0, addr, end, false))
  }

  /** annotate for a block pattern as lib/annotation.cc writes the block repeat. */
  function AnnotateBlockAsWritten(p: P.BlockTree, addr: nat, end: nat): B.Option<Annotation>
  {
    match p
    case FixedBlock(f) => AnnotateFixed(f, addr, end)
    case BlockRepeatNode(sub, minRep, maxRep) =>
      Structure(addr, AnnotateBlockReps(sub, minRep, maxRep, 0, addr, end, true))
  }

  lemma MulSucc(n: nat, size: nat)
    ensures (n + 1) * size == size + n * size && size * (n + 1) == size + n * size
  {
  }

  lemma SizeSumCons(a: Annotation, rest: seq<Annotation>)
    ensures SizeSum([a] + rest) == a.size + SizeSum(rest)
    decreases |rest|
  {
    if rest != [] {
      var all := [a] + rest;
      assert all[..|all| - 1] == [a] + rest[..|rest| - 1];
      SizeSumCons(a, rest[..|rest| - 1]);
    }
  }

  /** An annotation at addr in front of a tiling that starts where it ends. */
  lemma TilesCons(addr: nat, c: Annotation, rest: seq<Annotation>)
    requires c.address == addr && Tiles(End(c), rest, End(c) + SizeSum(rest))
    ensures var cs := [c] + rest;
            |cs| == 1 + |rest| && SizeSum(cs) == c.size + SizeSum(rest)
            && Tiles(addr, cs, addr + SizeSum(cs))
  {
    var cs := [c] + rest;
    SizeSumCons(c, rest);
    assert cs[0] == c && cs[1..] == rest;
  }

  /**
   * A successful annotation starts at addr and is exactly as large as the
   * pattern; unless it is empty it ends within the element; and the
   * children of a structured annotation tile it.
   */
  lemma {:induction false} AnnotateFixedShape(p: P.FixedTree, addr: nat, end: nat)
    requires AnnotateFixed(p, addr, end).Some?
    ensures var a := AnnotateFixed(p, addr, end).value;
            a.address == addr && a.size == P.TreeSize(p) && (a.size == 0 || End(a) <= end)
            && (a.Structured? ==> Tiles(addr, a.children, End(a)))
    decreases p, 2
  {
    match p
    case FieldNode(width) =>
    case ElementNode(children) =>
      AnnotateChildrenShape(p, 0, addr, end);
    case FixedRepeatNode(sub, n) =>
      AnnotateRepeatsShape(sub, n, addr, end, AnnotateRepeats(sub, n, addr, end).value);
  }

  lemma {:induction false} AnnotateChildrenShape(p: P.FixedTree, i: nat, addr: nat, end: nat)
    requires p.ElementNode? && i <= |p.children| && AnnotateChildren(p, i, addr, end).Some?
    ensures var cs := AnnotateChildren(p, i, addr, end).value;
            |cs| == |p.children| - i
            && SizeSum(cs) + P.ChildrenSize(p, i) == P.ChildrenSize(p, |p.children|)
            && Tiles(addr, cs, addr + SizeSum(cs))
            && (i < |p.children| ==> addr + SizeSum(cs) <= end)
    decreases p, 1, |p.children| - i
  {
    if i < |p.children| {
      var child := p.children[i];
      var c := AnnotateFixed(child, addr, end).value;
      AnnotateFixedShape(child, addr, end);
      var next := addr + P.TreeSize(child);
      AnnotateChildrenShape(p, i + 1, next, end);
      var rest := AnnotateChildren(p, i + 1, next, end).value;
      assert AnnotateChildren(p, i, addr, end).value == [c] + rest;
      TilesCons(addr, c, rest);
      assert P.ChildrenSize(p, i + 1) == P.ChildrenSize(p, i) + P.TreeSize(child);
    }
  }

  /**
   * The repetitions of a fixed repeat: all count of them, each as large as
   * the subpattern, tiling their range, and every one starting before the end.
   */
  lemma {:induction false} AnnotateRepeatsShape(sub: P.FixedTree, count: nat, addr: nat, end: nat,
                                                cs: seq<Annotation>)
    requires AnnotateRepeats(sub, count, addr, end) == B.Some(cs)
    ensures |cs| == count
    ensures SizeSum(cs) == P.TreeSize(sub) * count
    ensures Tiles(addr, cs, addr + SizeSum(cs))
    ensures count > 0 ==> addr + (count - 1) * P.TreeSize(sub) < end && addr + SizeSum(cs) <= end
    decreases sub, 3, count
  {
    if count > 0 {
      var size := P.TreeSize(sub);
      RepeatsStep(sub, count, addr, end, cs);
      AnnotateFixedShape(sub, addr, end);
      var rest := cs[1..];
      AnnotateRepeatsShape(sub, count - 1, addr + size, end, rest);
      TilesFront(addr, cs);
      RepeatBounds(addr, size, count, SizeSum(rest), end);
    }
  }

  /** One repetition of a fixed repeat: the sub-pattern at addr, then the others. */
  lemma RepeatsStep(sub: P.FixedTree, count: nat, addr: nat, end: nat, cs: seq<Annotation>)
    requires count > 0 && AnnotateRepeats(sub, count, addr, end) == B.Some(cs)
    ensures addr < end && cs != [] && AnnotateFixed(sub, addr, end) == B.Some(cs[0])
    ensures AnnotateRepeats(sub, count - 1, addr + P.TreeSize(sub), end) == B.Some(cs[1..])
  {
  }

  /** The arithmetic of one more repetition in front of count - 1 others. */
  lemma RepeatBounds(addr: nat, size: nat, count: nat, restSum: nat, end: nat)
    requires count > 0 && addr < end && restSum == size * (count - 1)
    requires size == 0 || addr + size <= end
    requires count > 1 ==> addr + size + (count - 2) * size < end && addr + size + restSum <= end
    ensures size + restSum == size * count
    ensures addr + (count - 1) * size < end && addr + size + restSum <= end
  {
    MulSucc(count - 1, size);
    if count > 1 {
      MulSucc(count - 2, size);
    }
  }

  /**
   * The repetitions of a block repeat from repetition i on: at most up to
   * the maximum; and with the corrected rule, fewer than the maximum only
   * when the end of the element was reached after at least the minimum.
   */
  lemma {:induction false} AnnotateBlockRepsCount(sub: P.FixedTree, minRep: nat, maxRep: nat, i: nat,
                                                  addr: nat, end: nat, cs: seq<Annotation>)
    requires i <= maxRep && AnnotateBlockReps(sub, minRep, maxRep, i, addr, end, false) == B.Some(cs)
    ensures i + |cs| <= maxRep
    ensures forall k :: 0 <= k < |cs| ==> cs[k].size == P.TreeSize(sub)
    ensures Tiles(addr, cs, addr + SizeSum(cs))
    ensures i + |cs| == maxRep || (i + |cs| >= minRep && addr + SizeSum(cs) >= end)
    decreases maxRep - i
  {
    if i < maxRep && addr < end {
      BlockRepsStep(sub, minRep, maxRep, i, addr, end, cs);
      AnnotateBlockRepsCount(sub, minRep, maxRep, i + 1, addr + P.TreeSize(sub), end, cs[1..]);
      TilesFront(addr, cs);
    } else {
      assert cs == [];
    }
  }

  /** One repetition of a block repeat: the sub-pattern at addr, then the rest. */
  lemma BlockRepsStep(sub: P.FixedTree, minRep: nat, maxRep: nat, i: nat, addr: nat, end: nat,
                      cs: seq<Annotation>)
    requires i < maxRep && addr < end
    requires AnnotateBlockReps(sub, minRep, maxRep, i, addr, end, false) == B.Some(cs)
    ensures cs != [] && AnnotateFixed(sub, addr, end) == B.Some(cs[0])
    ensures cs[0].address == addr && cs[0].size == P.TreeSize(sub)
    ensures AnnotateBlockReps(sub, minRep, maxRep, i + 1, addr + P.TreeSize(sub), end, false) == B.Some(cs[1..])
  {
    AnnotateFixedShape(sub, addr, end);
  }

  /** A first annotation at addr followed by a tiling of the rest tiles the whole. */
  lemma TilesFront(addr: nat, cs: seq<Annotation>)
    requires cs != [] && cs[0].address == addr
    requires Tiles(End(cs[0]), cs[1..], End(cs[0]) + SizeSum(cs[1..]))
    ensures SizeSum(cs) == cs[0].size + SizeSum(cs[1..]) && Tiles(addr, cs, addr + SizeSum(cs))
  {
    var c, rest := cs[0], cs[1..];
    assert [c] + rest == cs;
    TilesCons(addr, c, rest);
  }

  /** Annotations that all have the same size add up to their number times it. */
  lemma {:induction false} SizeSumUniform(cs: seq<Annotation>, size: nat)
    requires forall k :: 0 <= k < |cs| ==> cs[k].size == size
    ensures SizeSum(cs) == |cs| * size
    decreases |cs|
  {
    if cs != [] {
      SizeSumUniform(cs[..|cs| - 1], size);
      MulSucc(|cs| - 1, size);
    }
  }

  /**
   * A block repeat annotation has at most the maximum number of
   * repetitions, and fewer only when the element ended after at least the
   * minimum number.
   */
  lemma BlockRepeatMeetsMinimum(sub: P.FixedTree, minRep: nat, maxRep: nat, addr: nat, end: nat)
    requires AnnotateBlock(P.BlockRepeatNode(sub, minRep, maxRep), addr, end).Some?
    ensures var a := AnnotateBlock(P.BlockRepeatNode(sub, minRep, maxRep), addr, end).value;
            var n := |a.children|;
            n <= maxRep
            && a.size == n * P.TreeSize(sub)
            && (n == maxRep || (n >= minRep && End(a) >= end))
  {
    var cs := AnnotateBlockReps(sub, minRep, maxRep, 0, addr, end, false).value;
    AnnotateBlockRepsCount(sub, minRep, maxRep, 0, addr, end, cs);
    SizeSumUniform(cs, P.TreeSize(sub));
  }

  /**
   * As written, a block repeat of an 8-bit field with at least 2 and at
   * most 5 repetitions, in an element of 8 bits, is annotated with a single
   * repetition; with the corrected rule it fails.
   */
  lemma BlockRepeatAsWrittenStopsShort()
    ensures AnnotateBlockAsWritten(P.BlockRepeatNode(P.FieldNode(8), 2, 5), 0, 8)
              == B.Some(Structured(0, 8, [Field(0, 8)]))
    ensures AnnotateBlock(P.BlockRepeatNode(P.FieldNode(8), 2, 5), 0, 8) == B.None
  {
    var sub := P.FieldNode(8);
    assert P.TreeSize(sub) == 8;
    assert AnnotateBlockReps(sub, 2, 5, 1, 8, 8, true) == B.Some([]);
    assert AnnotateFixed(sub, 0, 8) == B.Some(Field(0, 8));
    assert AnnotateBlockReps(sub, 2, 5, 0, 0, 8, true) == B.Some([Field(0, 8)] + []);
    assert AnnotateBlockReps(sub, 2, 5, 1, 8, 8, false) == B.None;
    assert [Field(0, 8)] + [] == [Field(0, 8)];
    assert [Field(0, 8)][..0] == [];
    assert SizeSum([Field(0, 8)]) == SizeSum([]) + 8;
    assert AnnotateBlockAsWritten(P.BlockRepeatNode(sub, 2, 5), 0, 8)
             == Structure(0, B.Some([Field(0, 8)]));
  }

  /** An element pattern with children cannot start at or past the end of the element. */
  lemma ElementFailsAtEnd(p: P.FixedTree, addr: nat, end: nat)
    requires p.ElementNode? && |p.children| > 0 && addr >= end
    ensures AnnotateFixed(p, addr, end) == B.None
  {
  }

  /** annotate dispatched on the kind of fixed pattern. */
  method AnnotateFixedPattern(p: P.FixedTree, addr: nat, end: nat) returns (r: B.Option<Annotation>)
    ensures r == AnnotateFixed(p, addr, end)
    ensures p.FieldNode? ==> (r.Some? <==> addr + p.width <= end)
    ensures r.Some? ==> r.value.address == addr && r.value.size == P.TreeSize(p)
    decreases p, 2
  {
    match p {
      case FieldNode(width) =>
        if addr + width > end {
          return B.None;
        }
        r := B.Some(Field(addr, width));
      case ElementNode(children) =>
        r := AnnotateElementPattern(p, addr, end);
      case FixedRepeatNode(sub, n) =>
        r := AnnotateFixedRepeatPattern(p, addr, end);
    }
    if r.Some? {
      AnnotateFixedShape(p, addr, end);
    }
  }

  /** annotate for an element pattern: its children in order, each after the previous one. */
  method AnnotateElementPattern(p: P.FixedTree, address: nat, end: nat) returns (r: B.Option<Annotation>)
    requires p.ElementNode?
    ensures r == AnnotateFixed(p, address, end)
    decreases p, 1
  {
    var annotation := new StructuredAnnotation(address);
    var addr: nat := address;
    var i := 0;
    PrefixedNothing(AnnotateChildren(p, 0, address, end));
    while i < |p.children|
      invariant 0 <= i <= |p.children|
      invariant fresh(annotation) && annotation.Valid() && annotation.address == address
      invariant AnnotateChildren(p, 0, address, end)
                  == Prefixed(annotation.annotations, AnnotateChildren(p, i, addr, end))
    {
      if addr >= end {
        return B.None;
      }
      var child := p.children[i];
      var c := AnnotateFixedPattern(child, addr, end);
      if c.None? {
        return B.None;
      }
      PrefixedStep(annotation.annotations, c.value,
                   AnnotateChildren(p, i + 1, addr + P.TreeSize(child), end));
      annotation.AddAnnotation(c.value);
      addr := addr + P.TreeSize(child);
      i := i + 1;
    }
    PrefixedAll(annotation.annotations);
    r := B.Some(annotation.Snapshot());
  }

  /** annotate for a fixed repeat: every one of its repetitions must start before the end. */
  method AnnotateFixedRepeatPattern(p: P.FixedTree, address: nat, end: nat) returns (r: B.Option<Annotation>)
    requires p.FixedRepeatNode?
    ensures r == AnnotateFixed(p, address, end)
    decreases p, 1
  {
    var child := p.subpattern;
    var annotation := new StructuredAnnotation(address);
    var addr: nat := address;
    var i := 0;
    PrefixedNothing(AnnotateRepeats(child, p.repetition, address, end));
    while i < p.repetition
      invariant 0 <= i <= p.repetition
      invariant fresh(annotation) && annotation.Valid() && annotation.address == address
      invariant AnnotateRepeats(child, p.repetition, address, end)
                  == Prefixed(annotation.annotations, AnnotateRepeats(child, p.repetition - i, addr, end))
    {
      if addr >= end {
        return B.None;
      }
      var c := AnnotateFixedPattern(child, addr, end);
      if c.None? {
        return B.None;
      }
      PrefixedStep(annotation.annotations, c.value,
                   AnnotateRepeats(child, p.repetition - i - 1, addr + P.TreeSize(child), end));
      annotation.AddAnnotation(c.value);
      i := i + 1;
      addr := addr + P.TreeSize(child);
    }
    PrefixedAll(annotation.annotations);
    r := B.Some(annotation.Snapshot());
  }

  /**
   * annotate for a block repeat: repetitions up to the maximum, stopping
   * at the end of the element once the minimum is met (corrected rule).
   */
  method AnnotateBlockRepeatPattern(p: P.BlockTree, address: nat, end: nat) returns (r: B.Option<Annotation>)
    requires p.BlockRepeatNode?
    ensures r == AnnotateBlock(p, address, end)
  {
    var child := p.subpattern;
    var annotation := new StructuredAnnotation(address);
    var addr: nat := address;
    var i := 0;
    PrefixedNothing(AnnotateBlockReps(child, p.minRepetition, p.maxRepetition, 0, address, end, false));
    while i < p.maxRepetition
      invariant 0 <= i <= p.maxRepetition
      invariant fresh(annotation) && annotation.Valid() && annotation.address == address
      invariant AnnotateBlockReps(child, p.minRepetition, p.maxRepetition, 0, address, end, false)
                  == Prefixed(annotation.annotations,
                              AnnotateBlockReps(child, p.minRepetition, p.maxRepetition, i, addr, end, false))
    {
      if addr >= end && i >= p.minRepetition {
        break;
      }
      if addr >= end {
        return B.None;
      }
      var c := AnnotateFixedPattern(child, addr, end);
      if c.None? {
        return B.None;
      }
      PrefixedStep(annotation.annotations, c.value,
                   AnnotateBlockReps(child, p.minRepetition, p.maxRepetition, i + 1, addr + P.TreeSize(child), end, false));
      annotation.AddAnnotation(c.value);
      i := i + 1;
      addr := addr + P.TreeSize(child);
    }
    PrefixedAll(annotation.annotations);
    r := B.Some(annotation.Snapshot());
  }

  /**
   * annotate(parent, element, pattern, addr) for a block pattern: the
   * annotation, when there is one, is added to the element's annotations.
   */
  method AnnotateBlockPattern(element: AnnotatedElement, p: P.BlockTree, addr: nat) returns (ok: bool)
    modifies element
    ensures var r := AnnotateBlock(p, addr, element.address + element.size);
            ok == r.Some?
            && element.annotations == if ok then old(element.annotations) + [r.value] else old(element.annotations)
  {
    var end := element.address + element.size;
    var r: B.Option<Annotation>;
    if p.BlockRepeatNode? {
      r := AnnotateBlockRepeatPattern(p, addr, end);
    } else {
      r := AnnotateFixedPattern(p.pattern, addr, end);
    }
    if r.None? {
      return false;
    }
    element.AddAnnotation(r.value);
    return true;
  }
}
