/**
 * Workspace objects of the sequence-perception application: elements (one
 * integer of the sequence) and groups (an ordered tuple of items), their
 * structure, their flattened magnitudes and the anchoring of a whole tree of
 * items onto contiguous positions ("spans").
 *
 * Elements and groups share one class, PSObject, distinguished by `kind`.
 * The tree below an object never changes after construction (`kind` and the
 * ghost footprint `repr` are constants); only the span and the memoised
 * relations of an object are updated in place.
 */
module PsObjects {
  import opened Wrappers

  /** The positions (first, last) an object occupies; a group without items has last == first - 1. */
  datatype Span = Span(first: int, last: int)

  /** One entry of a projected layout: an object and the span it would be given. */
  datatype Entry = Entry(obj: PSObject, span: Span)

  /** The structure of an object: an element's magnitude, or the tuple of a group's items' structures. */
  datatype Structure = Magnitude(m: int) | Tuple(parts: seq<Structure>)

  datatype Kind = ElementKind(magnitude: int) | GroupKind(items: seq<PSObject>)

  /** A relation between two workspace objects; its internals are not part of this model. */
  class PSRelation {
    const first: PSObject
    const second: PSObject

    constructor (first: PSObject, second: PSObject)
      ensures this.first == first && this.second == second
    {
      this.first := first;
      this.second := second;
    }
  }

  // ---------------------------------------------------------------------------
  // The meaning of a structure, defined on the Structure datatype alone.
  // ---------------------------------------------------------------------------

  /** The magnitudes of a structure, left to right. */
  function Flatten(s: Structure): seq<int>
    decreases s, 1
  {
    match s
    case Magnitude(m) => [m]
    case Tuple(parts) => FlattenParts(s, |parts|)
  }

  /** The magnitudes of the first n parts of a tuple structure, left to right. */
  function FlattenParts(s: Structure, n: nat): seq<int>
    requires s.Tuple? && n <= |s.parts|
    decreases s, 0, n
  {
    if n == 0 then [] else FlattenParts(s, n - 1) + Flatten(s.parts[n - 1])
  }

  /** True when no tuple anywhere in the structure is empty. */
  predicate NoEmptyTuple(s: Structure)
  {
    match s
    case Magnitude(_) => true
    case Tuple(parts) => |parts| > 0 && forall i | 0 <= i < |parts| :: NoEmptyTuple(parts[i])
  }

  // ---------------------------------------------------------------------------
  // Layouts as sequences of entries.
  // ---------------------------------------------------------------------------

  function Objects(p: seq<Entry>): set<PSObject>
  {
    set k | 0 <= k < |p| :: p[k].obj
  }

  /** No object occurs twice in a layout. */
  predicate DistinctObjects(p: seq<Entry>)
  {
    forall k, l | 0 <= k < l < |p| :: p[k].obj != p[l].obj
  }

  /** The layout p moved d positions to the right. */
  function ShiftEntries(p: seq<Entry>, d: int): (r: seq<Entry>)
    ensures |r| == |p|
  {
    seq(|p|, k requires 0 <= k < |p| => Entry(p[k].obj, Span(p[k].span.first + d, p[k].span.last + d)))
  }

  /** Every object of the layout that already has a span has exactly its projected one. */
  predicate Agrees(p: seq<Entry>)
    reads Objects(p)
  {
    forall k | 0 <= k < |p| :: p[k].obj.span.Some? ==> p[k].obj.span == Some(p[k].span)
  }

  /** Every object of the layout has exactly its projected span. */
  predicate Realized(p: seq<Entry>)
    reads Objects(p)
  {
    forall k | 0 <= k < |p| :: p[k].obj.span == Some(p[k].span)
  }

  /**
   * The differences between existing and projected spans, two per object that
   * already has a span (start difference, then end difference), in layout order.
   */
  function Deltas(p: seq<Entry>): seq<int>
    reads Objects(p)
  {
    if p == [] then []
    else
      var e := p[|p| - 1];
      assert e.obj in Objects(p);
      assert Objects(p[..|p| - 1]) <= Objects(p) by {
        forall o | o in Objects(p[..|p| - 1]) ensures o in Objects(p) {
          var k :| 0 <= k < |p| - 1 && p[..|p| - 1][k].obj == o;
          assert p[k].obj == o;
        }
      }
      Deltas(p[..|p| - 1]) + EntryDeltas(e)
  }

  /** The start and end differences of one entry whose object already has a span. */
  function EntryDeltas(e: Entry): seq<int>
    reads e.obj
  {
    match e.obj.span
    case None => []
    case Some(s) => [s.first - e.span.first, s.last - e.span.last]
  }

  lemma ObjectsConcat(x: seq<Entry>, y: seq<Entry>)
    ensures Objects(x + y) == Objects(x) + Objects(y)
  {
    forall o | o in Objects(x + y) ensures o in Objects(x) + Objects(y) {
      var k :| 0 <= k < |x + y| && (x + y)[k].obj == o;
      if k >= |x| { assert y[k - |x|].obj == o; }
    }
    forall o | o in Objects(x) ensures o in Objects(x + y) {
      var k :| 0 <= k < |x| && x[k].obj == o;
      assert (x + y)[k].obj == o;
    }
    forall o | o in Objects(y) ensures o in Objects(x + y) {
      var k :| 0 <= k < |y| && y[k].obj == o;
      assert (x + y)[|x| + k].obj == o;
    }
  }

  lemma DistinctConcat(x: seq<Entry>, y: seq<Entry>)
    requires DistinctObjects(x) && DistinctObjects(y) && Objects(x) !! Objects(y)
    ensures DistinctObjects(x + y)
  {
    forall k, l | 0 <= k < l < |x + y| ensures (x + y)[k].obj != (x + y)[l].obj {
      if l < |x| {
      } else if k >= |x| {
        assert (x + y)[k] == y[k - |x|] && (x + y)[l] == y[l - |x|];
      } else {
        assert (x + y)[k].obj in Objects(x);
        assert (x + y)[l] == y[l - |x|];
        assert (x + y)[l].obj in Objects(y);
      }
    }
  }

  lemma ShiftConcat(x: seq<Entry>, y: seq<Entry>, d: int)
    ensures ShiftEntries(x + y, d) == ShiftEntries(x, d) + ShiftEntries(y, d)
  {
  }

  /** Shifting a layout places the same objects, and places none twice exactly when the original does not. */
  lemma ShiftObjects(p: seq<Entry>, d: int)
    ensures Objects(ShiftEntries(p, d)) == Objects(p)
    ensures DistinctObjects(ShiftEntries(p, d)) == DistinctObjects(p)
  {
    assert forall k | 0 <= k < |p| :: ShiftEntries(p, d)[k].obj == p[k].obj;
  }

  /** x + y places no object twice exactly when x and y do not and share no object. */
  lemma DistinctSplit(x: seq<Entry>, y: seq<Entry>)
    requires DistinctObjects(x + y)
    ensures DistinctObjects(x) && DistinctObjects(y) && Objects(x) !! Objects(y)
  {
    forall k, l | 0 <= k < l < |x| ensures x[k].obj != x[l].obj {
      assert (x + y)[k] == x[k] && (x + y)[l] == x[l];
    }
    forall k, l | 0 <= k < l < |y| ensures y[k].obj != y[l].obj {
      assert (x + y)[|x| + k] == y[k] && (x + y)[|x| + l] == y[l];
    }
    forall k, l | 0 <= k < |x| && 0 <= l < |y| ensures x[k].obj != y[l].obj {
      assert (x + y)[k] == x[k] && (x + y)[|x| + l] == y[l];
    }
  }

  /** Every object of p that has a span has its span in p moved d positions to the right. */
  predicate AnchoredAt(p: seq<Entry>, d: int)
    reads Objects(p)
  {
    forall k | 0 <= k < |p| ::
      p[k].obj.span.Some? ==> p[k].obj.span == Some(Span(p[k].span.first + d, p[k].span.last + d))
  }

  /** The layout p moved by d agrees with the existing spans exactly when p is anchored at d. */
  lemma AgreesShifted(p: seq<Entry>, d: int)
    ensures Agrees(ShiftEntries(p, d)) == AnchoredAt(p, d)
  {
    ShiftObjects(p, d);
    assert forall k | 0 <= k < |p| ::
      ShiftEntries(p, d)[k] == Entry(p[k].obj, Span(p[k].span.first + d, p[k].span.last + d));
  }

  /** All deltas equal d exactly when every anchored object sits at its projected span moved by d. */
  lemma {:induction false} DeltasAt(p: seq<Entry>, d: int)
    ensures AllAre(Deltas(p), d) == AnchoredAt(p, d)
  {
    if p != [] {
      var q, e := p[..|p| - 1], p[|p| - 1];
      assert forall k | 0 <= k < |q| :: q[k] == p[k];
      DeltasAt(q, d);
      AllAreConcat(Deltas(q), EntryDeltas(e), d);
      EntryDeltasAt(e, d);
      assert AnchoredAt(p, d) == (AnchoredAt(q, d) &&
        (e.obj.span.Some? ==> e.obj.span == Some(Span(e.span.first + d, e.span.last + d))));
    }
  }

  lemma EntryDeltasAt(e: Entry, d: int)
    ensures AllAre(EntryDeltas(e), d) ==
      (e.obj.span.Some? ==> e.obj.span == Some(Span(e.span.first + d, e.span.last + d)))
  {
    match e.obj.span {
      case None =>
      case Some(s) =>
        assert EntryDeltas(e)[0] == s.first - e.span.first && EntryDeltas(e)[1] == s.last - e.span.last;
    }
  }

  /** Every number of ds is d. */
  predicate AllAre(ds: seq<int>, d: int)
  {
    forall k | 0 <= k < |ds| :: ds[k] == d
  }

  lemma AllAreConcat(a: seq<int>, b: seq<int>, d: int)
    ensures AllAre(a + b, d) == (AllAre(a, d) && AllAre(b, d))
  {
    if AllAre(a, d) && AllAre(b, d) {
      forall k | 0 <= k < |a + b| ensures (a + b)[k] == d {
        if k >= |a| { assert (a + b)[k] == b[k - |a|]; }
      }
    }
    if AllAre(a + b, d) {
      assert forall k | 0 <= k < |a| :: a[k] == (a + b)[k];
      assert forall k | 0 <= k < |b| :: b[k] == (a + b)[|a| + k];
    }
  }

  /**
   * The deltas of p single out d exactly when the layout q, which is p shifted by d,
   * agrees with every existing span and some object of p has a span.
   */
  lemma DeltasSingleOut(p: seq<Entry>, q: seq<Entry>, d: int)
    requires q == ShiftEntries(p, d)
    ensures var ds := Deltas(p);
      (ds != [] && AllAre(ds, ds[0]) && ds[0] == d) ==
      (Agrees(q) && exists o | o in Objects(p) :: o.span.Some?)
  {
    AgreesShifted(p, d);
    DeltasAt(p, d);
    DeltasEmpty(p);
    SomeSpanned(p);
  }

  /** Some entry of p has a span exactly when some object of p has one. */
  lemma SomeSpanned(p: seq<Entry>)
    ensures (exists k | 0 <= k < |p| :: p[k].obj.span.Some?) == (exists o | o in Objects(p) :: o.span.Some?)
  {
    if exists o | o in Objects(p) :: o.span.Some? {
      var o :| o in Objects(p) && o.span.Some?;
      var k :| 0 <= k < |p| && p[k].obj == o;
    }
  }

  /** Whether every object of p that has a span has exactly its projected one (the check loop of PSGroup.SetSpanStart). */
  method CheckSpans(p: seq<Entry>) returns (ok: bool)
    ensures ok == Agrees(p)
  {
    for i := 0 to |p|
      invariant forall k | 0 <= k < i :: p[k].obj.span.Some? ==> p[k].obj.span == Some(p[k].span)
    {
      if p[i].obj.span.Some? && p[i].obj.span != Some(p[i].span) {
        return false;
      }
    }
    return true;
  }

  /** Gives every object of p its projected span (the write loop of PSGroup.SetSpanStart). */
  method WriteSpans(p: seq<Entry>)
    requires DistinctObjects(p)
    modifies Objects(p)
    ensures Realized(p)
    ensures forall o | o in Objects(p) :: o.relations == old(o.relations)
  {
    for i := 0 to |p|
      invariant forall k | 0 <= k < i :: p[k].obj.span == Some(p[k].span)
      invariant forall o | o in Objects(p) :: o.relations == old(o.relations)
    {
      assert p[i].obj in Objects(p);
      p[i].obj.span := Some(p[i].span);
    }
  }

  /** The deltas of p, collected by a loop over its entries in order. */
  method CollectDeltas(p: seq<Entry>) returns (ds: seq<int>)
    ensures ds == Deltas(p)
  {
    ds := [];
    for i := 0 to |p|
      invariant ds == Deltas(p[..i])
    {
      assert p[..i + 1][..i] == p[..i];
      match p[i].obj.span {
        case None =>
        case Some(s) =>
          ds := ds + [s.first - p[i].span.first, s.last - p[i].span.last];
      }
    }
    assert p[..|p|] == p;
  }

  /** Whether no number after the first differs from the first. */
  method AllSame(ds: seq<int>) returns (same: bool)
    requires ds != []
    ensures same == AllAre(ds, ds[0])
  {
    for i := 1 to |ds|
      invariant forall k | 0 <= k < i :: ds[k] == ds[0]
    {
      if ds[i] != ds[0] {
        return false;
      }
    }
    return true;
  }

  /** There are no deltas exactly when no object of the layout has a span. */
  lemma {:induction false} DeltasEmpty(p: seq<Entry>)
    ensures (Deltas(p) == []) == (forall k | 0 <= k < |p| :: p[k].obj.span.None?)
  {
    if p != [] {
      var q := p[..|p| - 1];
      assert forall k | 0 <= k < |q| :: q[k] == p[k];
      DeltasEmpty(q);
    }
  }

  /** Items with pairwise disjoint trees inside `others` stay so with an item disjoint from `others` in front. */
  lemma PrependDisjoint(c: PSObject, xs: seq<PSObject>, others: set<PSObject>)
    requires forall i, j | 0 <= i < j < |xs| :: xs[i].repr !! xs[j].repr
    requires forall j | 0 <= j < |xs| :: xs[j].repr <= others
    requires c.repr !! others
    ensures forall i, j | 0 <= i < j < |[c] + xs| :: ([c] + xs)[i].repr !! ([c] + xs)[j].repr
  {
    forall i, j | 0 <= i < j < |[c] + xs| ensures ([c] + xs)[i].repr !! ([c] + xs)[j].repr {
      assert ([c] + xs)[j] == xs[j - 1];
      if i > 0 {
        assert ([c] + xs)[i] == xs[i - 1];
      }
    }
  }

  /** As PrependDisjoint, with the new item at the end. */
  lemma AppendDisjoint(xs: seq<PSObject>, c: PSObject, others: set<PSObject>)
    requires forall i, j | 0 <= i < j < |xs| :: xs[i].repr !! xs[j].repr
    requires forall j | 0 <= j < |xs| :: xs[j].repr <= others
    requires c.repr !! others
    ensures forall i, j | 0 <= i < j < |xs + [c]| :: (xs + [c])[i].repr !! (xs + [c])[j].repr
  {
    forall i, j | 0 <= i < j < |xs + [c]| ensures (xs + [c])[i].repr !! (xs + [c])[j].repr {
      assert (xs + [c])[i] == xs[i];
      if j < |xs| {
        assert (xs + [c])[j] == xs[j];
      }
    }
  }

  /** The trees of a concatenation of item lists. */
  lemma {:induction false} ReprOfConcat(a: seq<PSObject>, b: seq<PSObject>)
    ensures ReprOf(a + b) == ReprOf(a) + ReprOf(b)
  {
    if b != [] {
      assert (a + b)[..|a + b| - 1] == a + b[..|b| - 1];
      ReprOfConcat(a, b[..|b| - 1]);
    } else {
      assert a + b == a;
    }
  }


  /** The objects of the trees of all the given items. */
  ghost function ReprOf(items: seq<PSObject>): set<PSObject>
  {
    if items == [] then {} else ReprOf(items[..|items| - 1]) + items[|items| - 1].repr
  }

  /** A height above every item's height. */
  ghost function HeightAbove(items: seq<PSObject>): (h: nat)
    ensures forall i | 0 <= i < |items| :: items[i].height < h
  {
    if items == [] then 0
    else
      var h := HeightAbove(items[..|items| - 1]);
      var last := items[|items| - 1].height + 1;
      assert forall i | 0 <= i < |items| - 1 :: items[..|items| - 1][i] == items[i];
      if h < last then last else h
  }

  // ---------------------------------------------------------------------------
  // Elements and groups.
  // ---------------------------------------------------------------------------

  class PSObject {
    const kind: Kind
    /** The objects of the tree rooted here: this object and its items' trees. */
    ghost const repr: set<PSObject>
    /** Bounds the depth of the tree rooted here; the measure of every recursion over it. */
    ghost const height: nat
    var span: Option<Span>
    /** Relations to other objects, created on demand and then reused. */
    var relations: map<PSObject, PSRelation>

    function Items(): seq<PSObject>
    {
      if kind.GroupKind? then kind.items else []
    }

    /** Every item sits lower in the tree than its group, recursively: recursion over items terminates. */
    ghost predicate Tree()
      decreases height
    {
      forall i | 0 <= i < |Items()| :: Items()[i].height < height && Items()[i].Tree()
    }

    /**
     * The tree invariant: the tree is well founded, `repr` is exactly the set of
     * objects its layout places, and no object is placed twice (items' trees
     * are disjoint and do not contain their group), recursively.
     */
    ghost predicate Valid()
      decreases height
    {
      && Tree()
      && repr == Objects(ProjectedSpans(0))
      && DistinctObjects(ProjectedSpans(0))
      && (forall i | 0 <= i < |Items()| :: Items()[i].height < height && Items()[i].Valid())
    }

    ghost predicate ItemsValid()
    {
      forall i | 0 <= i < |Items()| :: Items()[i].Valid()
    }

    /** The items' trees are pairwise disjoint. */
    ghost predicate ItemsDisjoint()
    {
      forall i, j | 0 <= i < j < |Items()| :: Items()[i].repr !! Items()[j].repr
    }

    /** The objects of the trees of the first n items. */
    ghost function PrefixRepr(n: nat): set<PSObject>
      requires n <= |Items()|
    {
      if n == 0 then {} else PrefixRepr(n - 1) + Items()[n - 1].repr
    }

    constructor Element(magnitude: int)
      ensures Valid() && kind == ElementKind(magnitude)
      ensures repr == {this}
      ensures span == None && relations == map[]
    {
      kind := ElementKind(magnitude);
      repr := {this};
      height := 0;
      span := None;
      relations := map[];
      new;
      assert Objects(ProjectedSpans(0)) == {this} by {
        assert ProjectedSpans(0)[0].obj == this;
      }
    }

    constructor Group(items: seq<PSObject>)
      requires forall i | 0 <= i < |items| :: items[i].Valid()
      requires forall i, j | 0 <= i < j < |items| :: items[i].repr !! items[j].repr
      ensures Valid() && kind == GroupKind(items)
      ensures repr == {this} + ReprOf(items)
      ensures span == None && relations == map[]
    {
      kind := GroupKind(items);
      repr := {this} + ReprOf(items);
      height := HeightAbove(items);
      span := None;
      relations := map[];
      new;
      assert Items() == items;
      assert Tree();
      assert items[..|items|] == items;
      ReprOfIsPrefixRepr(|items|);
      assert forall i | 0 <= i < |items| :: this !in items[i].repr;
      PrefixReprExcludes(|items|, this);
      GroupCovers(0);
    }

    lemma {:induction false} PrefixReprExcludes(n: nat, o: PSObject)
      requires n <= |Items()|
      requires forall i | 0 <= i < n :: o !in Items()[i].repr
      ensures o !in PrefixRepr(n)
    {
      if n > 0 {
        PrefixReprExcludes(n - 1, o);
      }
    }

    lemma ReprOfIsPrefixRepr(n: nat)
      requires n <= |Items()|
      ensures ReprOf(Items()[..n]) == PrefixRepr(n)
    {
      if n > 0 {
        assert Items()[..n][..n - 1] == Items()[..n - 1];
        ReprOfIsPrefixRepr(n - 1);
      }
    }

    /** An element's structure is its magnitude; a group's is the tuple of its items' structures. */
    function Structure(): Structure
      requires Tree()
      decreases height, 1
    {
      match kind
      case ElementKind(m) => Magnitude(m)
      case GroupKind(items) => Tuple(ItemStructures(|items|))
    }

    function ItemStructures(n: nat): (r: seq<Structure>)
      requires Tree() && n <= |Items()|
      decreases height, 0, n
      ensures |r| == n
    {
      if n == 0 then [] else ItemStructures(n - 1) + [Items()[n - 1].Structure()]
    }

    /**
     * The magnitudes of the tree, left to right. None where PSGroup.FlattenedMagnitudes raises:
     * folding the items of a group without items has no initial value.
     */
    function FlattenedMagnitudes(): Option<seq<int>>
      requires Tree()
      decreases height, 1
    {
      match kind
      case ElementKind(m) => Some([m])
      case GroupKind(items) => if |items| == 0 then None else FlattenedPrefix(|items|)
    }

    /** The fold of `+` over the flattened magnitudes of the first n items. */
    function FlattenedPrefix(n: nat): Option<seq<int>>
      requires Tree() && 1 <= n <= |Items()|
      decreases height, 0, n
    {
      var last := Items()[n - 1].FlattenedMagnitudes();
      if n == 1 then last
      else
        match (FlattenedPrefix(n - 1), last)
        case (Some(a), Some(b)) => Some(a + b)
        case _ => None
    }

    /**
     * The spans the tree would get if this object started at `start`: the items'
     * layouts one after the other, each starting right after the previous one
     * ends, and this object's own entry last.
     */
    function ProjectedSpans(start: int): (r: seq<Entry>)
      requires Tree()
      decreases height, 1
      ensures |r| > 0 && r[|r| - 1].obj == this && r[|r| - 1].span.first == start
    {
      match kind
      case ElementKind(_) => [Entry(this, Span(start, start))]
      case GroupKind(items) =>
        PrefixSpans(start, |items|) + [Entry(this, Span(start, PrefixEnd(start, |items|)))]
    }

    /** The spans accumulated after laying out the first n items from `start`. */
    function PrefixSpans(start: int, n: nat): seq<Entry>
      requires Tree() && n <= |Items()|
      decreases height, 0, n
    {
      if n == 0 then []
      else PrefixSpans(start, n - 1) + Items()[n - 1].ProjectedSpans(PrefixEnd(start, n - 1) + 1)
    }

    /**
     * The right end after laying out the first n items from `start`: `start - 1`
     * before any item, then the end of the last entry added, which is the item's own.
     */
    function PrefixEnd(start: int, n: nat): int
      requires Tree() && n <= |Items()|
      decreases height, 0, n
    {
      if n == 0 then start - 1
      else
        var cs := Items()[n - 1].ProjectedSpans(PrefixEnd(start, n - 1) + 1);
        cs[|cs| - 1].span.last
    }

    /** The projected spans, computed by a loop over the items as PSGroup._CalculateSpanGivenStart does. */
    method CalculateSpanGivenStart(start: int) returns (spans: seq<Entry>)
      requires Tree()
      decreases height
      ensures spans == ProjectedSpans(start)
    {
      match kind {
        case ElementKind(_) =>
          spans := [Entry(this, Span(start, start))];
        case GroupKind(items) =>
          assert items == Items();
          spans := [];
          var rightEnd := start - 1;
          for i := 0 to |items|
            invariant spans == PrefixSpans(start, i) && rightEnd == PrefixEnd(start, i)
          {
            assert items[i].height < height && items[i].Tree();
            var itemSpans := items[i].CalculateSpanGivenStart(rightEnd + 1);
            spans := spans + itemSpans;
            rightEnd := spans[|spans| - 1].span.last;
          }
          spans := spans + [Entry(this, Span(start, rightEnd))];
      }
    }

    // -------------------------------------------------------------------------
    // Properties of the projected layout.
    // -------------------------------------------------------------------------

    /** A layout covers exactly the tree's objects, each once, wherever it starts. */
    lemma ProjectionCovers(start: int)
      requires Valid()
      ensures Objects(ProjectedSpans(start)) == repr
      ensures DistinctObjects(ProjectedSpans(start))
    {
      LayoutMoves(start);
    }

    /** The layout from any start places the same objects as the layout from 0, and as distinctly. */
    lemma LayoutMoves(start: int)
      requires Tree()
      ensures Objects(ProjectedSpans(start)) == Objects(ProjectedSpans(0))
      ensures DistinctObjects(ProjectedSpans(start)) == DistinctObjects(ProjectedSpans(0))
    {
      ProjectionShift(0, start);
      ShiftObjects(ProjectedSpans(0), start);
    }

    /** A group whose items are valid and disjoint and do not contain it lays out each object once. */
    lemma GroupCovers(start: int)
      requires Tree() && kind.GroupKind? && ItemsValid() && ItemsDisjoint()
      requires this !in PrefixRepr(|Items()|)
      ensures Objects(ProjectedSpans(start)) == {this} + PrefixRepr(|Items()|)
      ensures DistinctObjects(ProjectedSpans(start))
    {
      var own := [Entry(this, Span(start, PrefixEnd(start, |Items()|)))];
      assert ProjectedSpans(start) == PrefixSpans(start, |Items()|) + own;
      assert Objects(own) == {this} by {
        assert own[0].obj == this;
      }
      ItemsCovered(start, |Items()|);
      PrefixCovers(start, |Items()|);
      PrefixDistinct(start, |Items()|);
      ObjectsConcat(PrefixSpans(start, |Items()|), own);
      DistinctConcat(PrefixSpans(start, |Items()|), own);
    }

    /** Each of the first n items' layouts, laid out from `start`, places exactly the objects of its tree. */
    ghost predicate ItemsCover(start: int, n: nat)
      requires Tree() && n <= |Items()|
    {
      n == 0 ||
      (ItemsCover(start, n - 1) && Objects(Items()[n - 1].ProjectedSpans(PrefixEnd(start, n - 1) + 1)) == Items()[n - 1].repr)
    }

    /** Valid items cover their trees wherever they are laid out. */
    lemma {:induction false} ItemsCovered(start: int, n: nat)
      requires Tree() && ItemsValid() && n <= |Items()|
      ensures ItemsCover(start, n)
    {
      if n > 0 {
        ItemsCovered(start, n - 1);
        Items()[n - 1].ProjectionCovers(PrefixEnd(start, n - 1) + 1);
      }
    }

    /** The first n items' layouts place exactly the objects of their trees. */
    lemma {:induction false} PrefixCovers(start: int, n: nat)
      requires Tree() && n <= |Items()| && ItemsCover(start, n)
      ensures Objects(PrefixSpans(start, n)) == PrefixRepr(n)
    {
      if n > 0 {
        PrefixCovers(start, n - 1);
        PrefixCoversStep(start, n, PrefixRepr(n - 1), Items()[n - 1].repr);
      }
    }

    /** One step of PrefixCovers: the next item's layout adds the objects it places. */
    lemma PrefixCoversStep(start: int, n: nat, before: set<PSObject>, last: set<PSObject>)
      requires Tree() && 0 < n <= |Items()|
      requires Objects(PrefixSpans(start, n - 1)) == before
      requires Objects(Items()[n - 1].ProjectedSpans(PrefixEnd(start, n - 1) + 1)) == last
      ensures Objects(PrefixSpans(start, n)) == before + last
    {
      ObjectsConcat(PrefixSpans(start, n - 1), Items()[n - 1].ProjectedSpans(PrefixEnd(start, n - 1) + 1));
    }

    /** With disjoint item trees, the first n items' layouts place no object twice. */
    lemma {:induction false} PrefixDistinct(start: int, n: nat)
      requires Tree() && ItemsValid() && ItemsDisjoint() && n <= |Items()|
      ensures DistinctObjects(PrefixSpans(start, n))
    {
      if n > 0 {
        PrefixDistinct(start, n - 1);
        ItemsCovered(start, n - 1);
        PrefixCovers(start, n - 1);
        PrefixReprDisjoint(n - 1, n - 1);
        PrefixDistinctStep(start, n);
      }
    }

    /** One step of PrefixDistinct: the next item's layout adds only objects not placed yet. */
    lemma PrefixDistinctStep(start: int, n: nat)
      requires Tree() && 0 < n <= |Items()| && Items()[n - 1].Valid()
      requires DistinctObjects(PrefixSpans(start, n - 1))
      requires Objects(PrefixSpans(start, n - 1)) == PrefixRepr(n - 1)
      requires PrefixRepr(n - 1) !! Items()[n - 1].repr
      ensures DistinctObjects(PrefixSpans(start, n))
    {
      Items()[n - 1].ProjectionCovers(PrefixEnd(start, n - 1) + 1);
      assert Objects(PrefixSpans(start, n - 1)) !! Objects(Items()[n - 1].ProjectedSpans(PrefixEnd(start, n - 1) + 1));
      DistinctConcat(PrefixSpans(start, n - 1), Items()[n - 1].ProjectedSpans(PrefixEnd(start, n - 1) + 1));
    }

    /** The first n items' trees are disjoint from the tree of any later item. */
    lemma {:induction false} PrefixReprDisjoint(n: nat, j: nat)
      requires ItemsDisjoint() && n <= j < |Items()|
      ensures PrefixRepr(n) !! Items()[j].repr
    {
      if n > 0 {
        PrefixReprDisjoint(n - 1, j);
      }
    }

    /** Laying out d positions further right moves every projected span by d. */
    lemma {:induction false} ProjectionShift(start: int, d: int)
      requires Tree()
      decreases height, 1
      ensures ProjectedSpans(start + d) == ShiftEntries(ProjectedSpans(start), d)
    {
      if kind.GroupKind? {
        PrefixShift(start, d, |Items()|);
        PrefixEndShift(start, d, |Items()|);
        ShiftConcat(PrefixSpans(start, |Items()|), [Entry(this, Span(start, PrefixEnd(start, |Items()|)))], d);
      }
    }

    lemma {:induction false} PrefixShift(start: int, d: int, n: nat)
      requires Tree() && n <= |Items()|
      decreases height, 0, n
      ensures PrefixSpans(start + d, n) == ShiftEntries(PrefixSpans(start, n), d)
    {
      if n > 0 {
        PrefixShift(start, d, n - 1);
        PrefixEndShift(start, d, n - 1);
        Items()[n - 1].ProjectionShift(PrefixEnd(start, n - 1) + 1, d);
        ShiftConcat(PrefixSpans(start, n - 1), Items()[n - 1].ProjectedSpans(PrefixEnd(start, n - 1) + 1), d);
      }
    }

    /** The right end moves with the start, since the width does not depend on it. */
    lemma PrefixEndShift(start: int, d: int, n: nat)
      requires Tree() && n <= |Items()|
      ensures PrefixEnd(start + d, n) == PrefixEnd(start, n) + d
    {
      if n > 0 {
        PrefixWidth(start, n);
        PrefixWidth(start + d, n);
      }
    }

    ghost predicate StructureHasParts()
      requires Tree()
    {
      Structure().Tuple? && |Structure().parts| == |Items()|
    }

    /** A group's structure has one part per item: that item's structure. */
    lemma StructureParts()
      requires Tree() && kind.GroupKind?
      ensures StructureHasParts()
      ensures forall k | 0 <= k < |Items()| ::
        Items()[k].Tree() && Structure().parts[k] == Items()[k].Structure()
    {
      forall k | 0 <= k < |Items()|
        ensures Items()[k].Tree() && Structure().parts[k] == Items()[k].Structure()
      {
        ItemStructuresAt(|Items()|, k);
      }
    }

    lemma {:induction false} ItemStructuresAt(n: nat, k: nat)
      requires Tree() && k < n <= |Items()|
      decreases n
      ensures ItemStructures(n)[k] == Items()[k].Structure()
    {
      if k < n - 1 {
        ItemStructuresAt(n - 1, k);
      }
    }

    /**
     * The right end of a layout is start + (number of magnitudes) - 1; a tree
     * with no magnitudes ends just before its start.
     */
    lemma {:induction false} ProjectionWidth(start: int)
      requires Tree()
      decreases height, 1
      ensures var p := ProjectedSpans(start);
        p[|p| - 1].span.last == start + |Flatten(Structure())| - 1
    {
      match kind {
        case ElementKind(_) =>
        case GroupKind(items) =>
          PrefixWidth(start, |items|);
      }
    }

    lemma {:induction false} PrefixWidth(start: int, n: nat)
      requires Tree() && kind.GroupKind? && n <= |Items()|
      decreases height, 0, n
      ensures StructureHasParts()
      ensures PrefixEnd(start, n) == start - 1 + |FlattenParts(Structure(), n)|
    {
      if n > 0 {
        var rightEnd := PrefixEnd(start, n - 1);
        var child := Items()[n - 1];
        assert child.height < height && child.Tree();
        StructureParts();
        PrefixWidth(start, n - 1);
        child.ProjectionWidth(rightEnd + 1);
      }
    }

    /**
     * The flattened magnitudes are defined exactly when the structure has no
     * empty tuple, and are then the structure's magnitudes left to right.
     */
    lemma {:induction false} FlattenedMatchesStructure()
      requires Tree()
      decreases height, 1
      ensures FlattenedMagnitudes() ==
        if NoEmptyTuple(Structure()) then Some(Flatten(Structure())) else None
    {
      match kind {
        case ElementKind(_) =>
        case GroupKind(items) =>
          if |items| > 0 {
            FlattenedPrefixMatches(|items|);
          }
      }
    }

    lemma {:induction false} FlattenedPrefixMatches(n: nat)
      requires Tree() && kind.GroupKind? && 1 <= n <= |Items()|
      decreases height, 0, n
      ensures StructureHasParts()
      ensures FlattenedPrefix(n) ==
        if forall k | 0 <= k < n :: NoEmptyTuple(Structure().parts[k])
        then Some(FlattenParts(Structure(), n)) else None
    {
      var child := Items()[n - 1];
      assert child.height < height;
      StructureParts();
      child.FlattenedMatchesStructure();
      var parts := Structure().parts;
      assert FlattenParts(Structure(), n) == FlattenParts(Structure(), n - 1) + Flatten(parts[n - 1]);
      if n == 1 {
        assert FlattenParts(Structure(), 0) == [];
        assert FlattenParts(Structure(), 1) == Flatten(parts[0]);
      } else {
        FlattenedPrefixMatches(n - 1);
        if !forall k | 0 <= k < n :: NoEmptyTuple(parts[k]) {
          var k :| 0 <= k < n && !NoEmptyTuple(parts[k]);
          if k < n - 1 {
            assert FlattenedPrefix(n - 1) == None;
          } else {
            assert child.FlattenedMagnitudes() == None;
          }
        }
      }
    }

    // -------------------------------------------------------------------------
    // The shape of a valid group, derived from its layout.
    // -------------------------------------------------------------------------

    /** A valid group's tree is itself plus its items' trees, which are pairwise disjoint and exclude it. */
    lemma GroupShape()
      requires Valid() && kind.GroupKind?
      ensures repr == {this} + PrefixRepr(|Items()|)
      ensures this !in PrefixRepr(|Items()|)
      ensures ItemsDisjoint()
    {
      var own := [Entry(this, Span(0, PrefixEnd(0, |Items()|)))];
      assert ProjectedSpans(0) == PrefixSpans(0, |Items()|) + own;
      assert Objects(own) == {this} by {
        assert own[0].obj == this;
      }
      ItemsCovered(0, |Items()|);
      PrefixCovers(0, |Items()|);
      ObjectsConcat(PrefixSpans(0, |Items()|), own);
      DistinctSplit(PrefixSpans(0, |Items()|), own);
      PrefixDisjoint(0, |Items()|);
    }

    /** Item trees whose layouts together place no object twice are pairwise disjoint. */
    lemma {:induction false} PrefixDisjoint(start: int, n: nat)
      requires Tree() && n <= |Items()| && ItemsCover(start, n)
      requires DistinctObjects(PrefixSpans(start, n))
      ensures forall i, j | 0 <= i < j < n :: Items()[i].repr !! Items()[j].repr
    {
      if n > 0 {
        PrefixSplit(start, n);
        PrefixDisjoint(start, n - 1);
        PrefixCovers(start, n - 1);
        PrefixDisjointStep(n, Objects(PrefixSpans(start, n - 1)),
          Objects(Items()[n - 1].ProjectedSpans(PrefixEnd(start, n - 1) + 1)));
      }
    }

    /** A prefix layout placing no object twice splits into the shorter prefix and the last item's layout. */
    lemma PrefixSplit(start: int, n: nat)
      requires Tree() && 0 < n <= |Items()| && DistinctObjects(PrefixSpans(start, n))
      ensures DistinctObjects(PrefixSpans(start, n - 1))
      ensures Objects(PrefixSpans(start, n - 1)) !! Objects(Items()[n - 1].ProjectedSpans(PrefixEnd(start, n - 1) + 1))
    {
      var before := PrefixSpans(start, n - 1);
      var last := Items()[n - 1].ProjectedSpans(PrefixEnd(start, n - 1) + 1);
      assert PrefixSpans(start, n) == before + last;
      DistinctSplit(before, last);
    }

    /**
     * One step of PrefixDisjoint: pairwise disjoint trees for the first n - 1 items,
     * and a last tree disjoint from all of theirs, are pairwise disjoint trees for n items.
     */
    lemma PrefixDisjointStep(n: nat, before: set<PSObject>, last: set<PSObject>)
      requires 0 < n <= |Items()| && before == PrefixRepr(n - 1) && last == Items()[n - 1].repr
      requires before !! last
      requires forall i, j | 0 <= i < j < n - 1 :: Items()[i].repr !! Items()[j].repr
      ensures forall i, j | 0 <= i < j < n :: Items()[i].repr !! Items()[j].repr
    {
      forall i, j | 0 <= i < j < n ensures Items()[i].repr !! Items()[j].repr {
        if j == n - 1 {
          PrefixItemDisjoint(i, n - 1, last);
        } else {
          assert i < j < n - 1;
        }
      }
    }

    /** An item's tree inside a prefix is disjoint from whatever the whole prefix is disjoint from. */
    lemma PrefixItemDisjoint(i: nat, n: nat, other: set<PSObject>)
      requires i < n <= |Items()| && PrefixRepr(n) !! other
      ensures Items()[i].repr !! other
    {
      PrefixReprContains(i, n);
    }

    lemma {:induction false} PrefixReprContains(i: nat, n: nat)
      requires i < n <= |Items()|
      ensures Items()[i].repr <= PrefixRepr(n)
    {
      if i < n - 1 {
        PrefixReprContains(i, n - 1);
      }
    }

    // -------------------------------------------------------------------------
    // Anchoring: spans are written in place.
    // -------------------------------------------------------------------------

    /**
     * Anchors the tree with this object starting at `start`. Fails (the assertion
     * of PSGroup.SetSpanStart) when some object already has a span different from its projected
     * one, and then changes nothing; otherwise every object of the tree gets its
     * projected span.
     */
    method SetSpanStart(start: int) returns (ok: bool)
      requires Valid()
      modifies repr
      ensures ok == old(Agrees(ProjectedSpans(start)))
      ensures ok ==> Realized(ProjectedSpans(start))
      ensures ok ==> forall o | o in repr :: o.relations == old(o.relations)
      ensures !ok ==> unchanged(repr)
    {
      ProjectionCovers(start);
      match kind {
        case ElementKind(_) =>
          assert ProjectedSpans(start) == [Entry(this, Span(start, start))];
          assert this in Objects(ProjectedSpans(start));
          if span.Some? {
            ok := span == Some(Span(start, start));
            return;
          }
          span := Some(Span(start, start));
          ok := true;
        case GroupKind(_) =>
          var projected := CalculateSpanGivenStart(start);
          ok := CheckSpans(projected);
          if ok {
            WriteSpans(projected);
          }
      }
    }

    /**
     * Works out where a group lies from the spans its objects already have: each
     * such object gives the differences between its span and the span it would
     * have were the group to start at 0. When there is at least one difference and
     * all are equal, the group is anchored at that common difference.
     */
    method InferSpans() returns (anchored: bool)
      requires Valid() && kind.GroupKind?
      modifies repr
      ensures var ds := old(Deltas(ProjectedSpans(0)));
        anchored == (ds != [] && AllAre(ds, ds[0]))
      ensures anchored ==> Realized(ProjectedSpans(old(Deltas(ProjectedSpans(0)))[0]))
      ensures anchored ==> forall o | o in repr :: o.relations == old(o.relations)
      ensures !anchored ==> unchanged(repr)
    {
      var projected := CalculateSpanGivenStart(0);
      var deltas := CollectDeltas(projected);
      if deltas == [] {
        return false;
      }
      var same := AllSame(deltas);
      if !same {
        return false;
      }
      CommonDeltaAgrees(deltas[0]);
      var ok := SetSpanStart(deltas[0]);
      assert ok;
      anchored := true;
    }

    /** When every delta is d, the layout starting at d agrees with every existing span. */
    lemma CommonDeltaAgrees(d: int)
      requires Tree()
      ensures AllAre(Deltas(ProjectedSpans(0)), d) ==> Agrees(ProjectedSpans(d))
    {
      DeltasAt(ProjectedSpans(0), d);
      AgreesShifted(ProjectedSpans(0), d);
      ProjectionShift(0, d);
    }

    /**
     * The deltas single out d exactly when d is a start at which the layout agrees
     * with every existing span and at least one object of the tree has a span: the
     * inferred start is the only consistent one.
     */
    lemma InferredStartIsUnique(d: int)
      requires Valid()
      ensures var ds := Deltas(ProjectedSpans(0));
        (ds != [] && AllAre(ds, ds[0]) && ds[0] == d) ==
        (Agrees(ProjectedSpans(d)) && exists o | o in repr :: o.span.Some?)
    {
      ProjectionCovers(0);
      ProjectionShift(0, d);
      DeltasSingleOut(ProjectedSpans(0), ProjectedSpans(d), d);
    }

    // -------------------------------------------------------------------------
    // Hypothetical extension of a group.
    // -------------------------------------------------------------------------

    /**
     * A new group with `component` placed before this group's items, anchored
     * where the existing spans allow. This group itself is not changed.
     */
    method HypotheticallyAddComponentBefore(component: PSObject) returns (g: PSObject)
      requires Valid() && kind.GroupKind? && component.Valid() && component.repr !! repr
      modifies repr - {this}, component.repr
      ensures fresh(g) && g.Valid() && g.Items() == [component] + Items()
      ensures g.repr == {g} + component.repr + (repr - {this})
      ensures g.relations == map[]
      ensures g.span.Some? ==> Realized(g.ProjectedSpans(g.span.value.first))
      ensures g.span == None ==> unchanged(repr - {this}, component.repr)
      ensures g.span == None ==> var ds := Deltas(g.ProjectedSpans(0)); !(ds != [] && AllAre(ds, ds[0]))
      ensures g.span.Some? ==> exists o | o in component.repr + (repr - {this}) :: old(o.span).Some?
      ensures forall o | o in component.repr + (repr - {this}) && old(o.span).Some? :: o.span == old(o.span)
      ensures forall o | o in component.repr + (repr - {this}) :: o.relations == old(o.relations)
    {
      Prependable(component, [component] + Items());
      g := NewInferredGroup([component] + Items(), component.repr + (repr - {this}));
    }

    /**
     * A new group with `component` placed after this group's items, anchored
     * where the existing spans allow. This group itself is not changed.
     */
    method HypotheticallyAddComponentAfter(component: PSObject) returns (g: PSObject)
      requires Valid() && kind.GroupKind? && component.Valid() && component.repr !! repr
      modifies repr - {this}, component.repr
      ensures fresh(g) && g.Valid() && g.Items() == Items() + [component]
      ensures g.repr == {g} + (repr - {this}) + component.repr
      ensures g.relations == map[]
      ensures g.span.Some? ==> Realized(g.ProjectedSpans(g.span.value.first))
      ensures g.span == None ==> unchanged(repr - {this}, component.repr)
      ensures g.span == None ==> var ds := Deltas(g.ProjectedSpans(0)); !(ds != [] && AllAre(ds, ds[0]))
      ensures g.span.Some? ==> exists o | o in (repr - {this}) + component.repr :: old(o.span).Some?
      ensures forall o | o in (repr - {this}) + component.repr && old(o.span).Some? :: o.span == old(o.span)
      ensures forall o | o in (repr - {this}) + component.repr :: o.relations == old(o.relations)
    {
      Appendable(component, Items() + [component]);
      g := NewInferredGroup(Items() + [component], (repr - {this}) + component.repr);
    }

    /**
     * The items with `component` added in front may form a new group: all are
     * valid, their trees are pairwise disjoint, and together they are the
     * component's tree and this group's items' trees.
     */
    lemma Prependable(component: PSObject, items: seq<PSObject>)
      requires Valid() && kind.GroupKind? && component.Valid() && component.repr !! repr
      requires items == [component] + Items()
      ensures forall i | 0 <= i < |items| :: items[i].Valid()
      ensures forall i, j | 0 <= i < j < |items| :: items[i].repr !! items[j].repr
      ensures ReprOf(items) == component.repr + (repr - {this})
    {
      ItemsWithin();
      PrependDisjoint(component, Items(), repr - {this});
      ItemsReprOf();
      ReprOfConcat([component], Items());
      assert [component][..0] == [];
    }

    /** As Prependable, with `component` added at the end. */
    lemma Appendable(component: PSObject, items: seq<PSObject>)
      requires Valid() && kind.GroupKind? && component.Valid() && component.repr !! repr
      requires items == Items() + [component]
      ensures forall i | 0 <= i < |items| :: items[i].Valid()
      ensures forall i, j | 0 <= i < j < |items| :: items[i].repr !! items[j].repr
      ensures ReprOf(items) == (repr - {this}) + component.repr
    {
      ItemsWithin();
      AppendDisjoint(Items(), component, repr - {this});
      ItemsReprOf();
      ReprOfConcat(Items(), [component]);
      assert [component][..0] == [];
    }

    /** A valid group's items are valid, and their trees are pairwise disjoint parts of the group's tree without itself. */
    lemma ItemsWithin()
      requires Valid() && kind.GroupKind?
      ensures ItemsValid() && ItemsDisjoint()
      ensures forall j | 0 <= j < |Items()| :: Items()[j].repr <= repr - {this}
    {
      GroupShape();
      forall j | 0 <= j < |Items()| ensures Items()[j].repr <= repr - {this} {
        PrefixReprContains(j, |Items()|);
      }
    }

    /** The items' trees of a valid group are its tree without itself. */
    lemma ItemsReprOf()
      requires Valid() && kind.GroupKind?
      ensures ReprOf(Items()) == repr - {this}
    {
      GroupShape();
      assert Items()[..|Items()|] == Items();
      ReprOfIsPrefixRepr(|Items()|);
    }

    /** InferSpans on a new group, restated in terms of the group's own span. */
    method Anchor()
      requires Valid() && kind.GroupKind? && span == None
      modifies repr
      ensures span.Some? ==> Realized(ProjectedSpans(span.value.first))
      ensures span.Some? ==> forall o | o in repr :: o.relations == old(o.relations)
      ensures span == None ==> unchanged(repr)
      ensures span == None ==> var ds := Deltas(ProjectedSpans(0)); !(ds != [] && AllAre(ds, ds[0]))
      ensures span.Some? ==> exists o | o in repr :: old(o.span).Some?
      ensures forall o | o in repr && old(o.span).Some? :: o.span == old(o.span)
    {
      ghost var ds := Deltas(ProjectedSpans(0));
      ProjectionCovers(0);
      DeltasEmpty(ProjectedSpans(0));
      SomeSpanned(ProjectedSpans(0));
      if ds != [] {
        CommonDeltaAgrees(ds[0]);
        ProjectionCovers(ds[0]);
      }
      var anchored := InferSpans();
      if !anchored {
        assert Deltas(ProjectedSpans(0)) == ds;
      }
      if anchored {
        ghost var p := ProjectedSpans(ds[0]);
        assert p[|p| - 1].obj == this;
        forall o | o in repr && old(o.span).Some? ensures o.span == old(o.span) {
          var k :| 0 <= k < |p| && p[k].obj == o;
        }
      }
    }

    // -------------------------------------------------------------------------
    // Relations.
    // -------------------------------------------------------------------------

    /** The relation to `other`, created on first request and reused afterwards. */
    method GetRelationTo(other: PSObject) returns (rel: PSRelation)
      modifies this`relations
      ensures other in relations && relations[other] == rel
      ensures other in old(relations) ==> rel == old(relations)[other] && relations == old(relations)
      ensures other !in old(relations) ==>
        fresh(rel) && rel.first == this && rel.second == other && relations == old(relations)[other := rel]
    {
      if other in relations {
        return relations[other];
      }
      rel := new PSRelation(this, other);
      relations := relations[other := rel];
    }
  }

  /** A new group of the given items, anchored where the items' existing spans allow (the body of HypotheticallyAdd*). */
  method NewInferredGroup(items: seq<PSObject>, ghost tree: set<PSObject>) returns (g: PSObject)
    requires forall i | 0 <= i < |items| :: items[i].Valid()
    requires forall i, j | 0 <= i < j < |items| :: items[i].repr !! items[j].repr
    requires ReprOf(items) == tree
    modifies tree
    ensures fresh(g) && g.Valid() && g.Items() == items
    ensures g.repr == {g} + tree
    ensures g.relations == map[]
    ensures g.span.Some? ==> Realized(g.ProjectedSpans(g.span.value.first))
    ensures g.span == None ==> unchanged(tree)
    ensures g.span == None ==> var ds := Deltas(g.ProjectedSpans(0)); !(ds != [] && AllAre(ds, ds[0]))
    ensures g.span.Some? ==> exists o | o in tree :: old(o.span).Some?
    ensures forall o | o in tree && old(o.span).Some? :: o.span == old(o.span)
    ensures forall o | o in tree :: o.relations == old(o.relations)
  {
    g := new PSObject.Group(items);
    g.Anchor();
  }
}
