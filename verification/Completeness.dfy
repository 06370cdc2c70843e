/** DWARF that comes from a C layout that is not packed: nothing is lost to opaque definitions, whichever members
    were dropped. */
module Completeness {
  import opened Dwarf
  import opened Header
  import opened Offsets
  import opened Meaning
  import opened Repair
  import opened Fixpoint
  import opened ClosedForm
  import opened Walk
  import opened WalkFacts
  import opened Declarators
  import opened Paths

  // ---- From the walk to the repair ----

  lemma KeptNamed(g: Graph, tags: map<Offset, string>, ms: seq<MemberDie>, m: Header.Member)
    requires m in KeptMembers(g, tags, ms)
    ensures m.name != ""
  {
    var i := KeptFrom(g, tags, ms, m);
  }

  /** A definition of the walk can be verified and has not been repaired. */
  lemma WalkedSane(g: Graph, st: State, o: Offset)
    requires TagsMatch(g, st) && Contents(g, st, {}) && Unrepaired(st) && o in st.tags
    ensures st.tags[o] in st.structs && Sane(st.structs[st.tags[o]]) && Fresh(st.structs[st.tags[o]])
  {
    hide KeptMembers, AllTagged;
    assert st.tags[o] in st.tags.Values;
    var d := st.structs[st.tags[o]];
    var kept := KeptMembers(g, st.tags, g[o].members);
    assert d.members == Finished(d.kind, d.size, kept);
    forall i | 0 <= i < |d.members|
      ensures d.members[i].name != ""
    {
      AtOffsetZeroSubset(kept, d.members[i]);
      if d.members[i] in kept {
        KeptNamed(g, st.tags, g[o].members, d.members[i]);
      }
    }
  }

  /** What the walk leaves behind is ready for verification. */
  lemma WalkReady(g: Graph, st: State)
    requires Invariant(g, st, {})
    ensures OrderKnown(st) && AllSane(Ordered(st)) && AllFresh(Ordered(st)) && DistinctTags(Ordered(st))
    ensures forall t :: t in st.structs ==> Sane(st.structs[t]) && t in st.order
  {
    hide Sane, Fresh, Emittable, Listed, DependencyOrder, Acyclic;
    forall t | t in st.structs
      ensures Sane(st.structs[t]) && Fresh(st.structs[t]) && t in st.order && st.structs[t].tag == t
    {
      assert t in st.tags.Values;
      var o :| o in st.tags && st.tags[o] == t;
      WalkedSane(g, st, o);
    }
    TagsDiffer(st);
  }

  // ---- Alignment ----

  /** Where C puts things of this type, the aggregates being aligned as given. */
  ghost function TrueAlign(align: map<Offset, nat>, t: Type): int {
    match t
    case Pointer => 8
    case Base(_, size) => size
    case Enumeration(size) => if size == 0 then 4 else size
    case Qualified(of) => TrueAlign(align, of)
    case Typedef(of) => TrueAlign(align, of)
    case Array(element, _) => TrueAlign(align, element)
    case Aggregate(o) => if o in align then align[o] else 0
    case _ => 0
  }

  /** A member lies where C may put it: aligned, within its aggregate, and no more aligned than it. */
  ghost predicate WellAligned(g: Graph, align: map<Offset, nat>, o: Offset, m: MemberDie)
    requires o in g && o in align && Understood(m.location)
  {
    var at, a := Position(m.location), TrueAlign(align, m.ty);
    && 0 <= at && at + ByteSize(g, m.ty) <= g[o].byteSize
    && a > 0 && at % a == 0 && align[o] % a == 0
  }

  /** DWARF of a C layout without packing; members and aggregates may be aligned more than their type demands.
      Only what the header may declare is constrained. */
  ghost predicate NonPacked(g: Graph, align: map<Offset, nat>) {
    && align.Keys == g.Keys
    && (forall o :: o in g ==> align[o] > 0 && g[o].byteSize % align[o] == 0)
    && (forall o, i :: o in g && 0 <= i < |g[o].members| && Declarable(g, g[o].kind, g[o].members[i]) ==>
          WellAligned(g, align, o, g[o].members[i]))
    && (forall o, i, j ::
          o in g && g[o].kind.Struct? && 0 <= i < j < |g[o].members|
          && Declarable(g, Struct, g[o].members[i]) && Declarable(g, Struct, g[o].members[j])
          ==> Before(g, g[o].members[i], g[o].members[j]))
  }

  ghost predicate Before(g: Graph, m: MemberDie, n: MemberDie)
    requires Understood(m.location) && Understood(n.location)
  {
    Position(m.location) + ByteSize(g, m.ty) <= Position(n.location)
  }

  lemma Divides(n: int, b: int, a: Alignment)
    requires b > 0 && n % b == 0 && b % a == 0
    ensures n % a == 0
  {
    var p, q := b / a, n / b;
    assert n == b * q && b == a * p;
    Associates(a, p, q);
    Multiple(n, a, p * q);
  }

  lemma Multiple(n: int, a: Alignment, k: int)
    requires n == a * k
    ensures n % a == 0
  {
    if a == 1 {} else if a == 2 {} else if a == 4 {} else {}
  }

  /** The definitions named so far have the size that DWARF gives, and an alignment that divides the true one. */
  ghost predicate Faithful(g: Graph, st: State, align: map<Offset, nat>, known: Layouts, done: seq<string>) {
    forall o :: o in st.tags && o in g && o in align && st.tags[o] in done ==>
      && st.tags[o] in known
      && known[st.tags[o]].size == g[o].byteSize
      && align[o] % known[st.tags[o]].align == 0
  }

  lemma {:induction false} TypeFaithful(g: Graph, st: State, align: map<Offset, nat>, known: Layouts, done: seq<string>, t: Type)
    requires Faithful(g, st, align, known, done) && NonPacked(g, align)
    requires Declared(g, st.tags, t).Some?
    requires var c := Declared(g, st.tags, t).value.ctype; c.Tagged? ==> c.tag in done
    ensures var d := Declared(g, st.tags, t).value;
      && DeclaredSize(d.ctype, d.dims, known) == ByteSize(g, t)
      && TrueAlign(align, t) > 0 && TrueAlign(align, t) % TypeAlign(d.ctype, known) == 0
    decreases Length(t)
  {
    hide NonPacked, Emittable, ArrayDims, Within;
    match t
    case Array(element, ranges) =>
      TypeFaithful(g, st, align, known, done, element);
      DimsBound(ranges);
      ArraySize(ArrayDims(ranges), Declared(g, st.tags, element).value, known);
      TimesIsProduct(ranges, ArrayDims(ranges), ByteSize(g, element));
    case Qualified(of) => TypeFaithful(g, st, align, known, done, of);
    case Typedef(of) => TypeFaithful(g, st, align, known, done, of);
    case Aggregate(o) => AggregateAligned(g, align, o);
    case _ =>
  }

  lemma AggregateAligned(g: Graph, align: map<Offset, nat>, o: Offset)
    requires NonPacked(g, align) && o in g
    ensures o in align && align[o] > 0 && g[o].byteSize % align[o] == 0
  {
    hide Declarable, WellAligned, Before;
  }

  // ---- One definition ----

  function KeptIndices(g: Graph, tags: map<Offset, string>, ms: seq<MemberDie>): seq<nat> {
    if ms == [] then []
    else
      var n := |ms| - 1;
      KeptIndices(g, tags, ms[..n]) + if Kept(g, tags, ms[n]) then [n] else []
  }

  /** The kept members are a subsequence of the members in DWARF. */
  lemma {:induction false} KeptInOrder(g: Graph, tags: map<Offset, string>, ms: seq<MemberDie>)
    ensures var js, kept := KeptIndices(g, tags, ms), KeptMembers(g, tags, ms);
      && |js| == |kept|
      && (forall i :: 0 <= i < |js| ==>
            js[i] < |ms| && Kept(g, tags, ms[js[i]]) && kept[i] == KeptMember(g, tags, ms[js[i]]))
      && (forall i, k :: 0 <= i < k < |js| ==> js[i] < js[k])
  {
    hide Kept, KeptMember;
    if ms == [] {
    } else {
      KeptInOrder(g, tags, ms[..|ms| - 1]);
    }
  }

  /** A kept member that the header may declare, against the layouts known. */
  ghost predicate PlacedLike(g: Graph, align: map<Offset, nat>, o: Offset, m: Header.Member, known: Layouts)
    requires o in g && o in align
  {
    && 0 <= m.offset && End(m, known) <= g[o].byteSize
    && m.offset % TypeAlign(m.ctype, known) == 0
    && align[o] % TypeAlign(m.ctype, known) == 0
  }

  lemma MemberPlaced(g: Graph, st: State, align: map<Offset, nat>, known: Layouts, done: seq<string>, o: Offset, j: nat)
    requires Faithful(g, st, align, known, done) && NonPacked(g, align) && o in g && j < |g[o].members|
    requires Kept(g, st.tags, g[o].members[j]) && Declarable(g, g[o].kind, g[o].members[j])
    requires var c := KeptMember(g, st.tags, g[o].members[j]).ctype; c.Tagged? ==> c.tag in done
    ensures o in align && PlacedLike(g, align, o, KeptMember(g, st.tags, g[o].members[j]), known)
    ensures DeclaredSize(KeptMember(g, st.tags, g[o].members[j]).ctype,
                         KeptMember(g, st.tags, g[o].members[j]).dims, known) == ByteSize(g, g[o].members[j].ty)
  {
    hide Declared, DecodedOffset, HasIdentifier, Representable, DeclaredSize, TypeAlign, Faithful;
    var die := g[o].members[j];
    var m := KeptMember(g, st.tags, die);
    DecodedExactly(die.location);
    TypeFaithful(g, st, align, known, done, die.ty);
    var a := TrueAlign(align, die.ty);
    assert WellAligned(g, align, o, die);
    Divides(m.offset, a, TypeAlign(m.ctype, known));
    Divides(align[o], a, TypeAlign(m.ctype, known));
  }

  lemma {:induction false} AlignAttained(ms: seq<Header.Member>, known: Layouts)
    ensures MembersAlign(ms, known) == 1 ||
      exists i :: 0 <= i < |ms| && MembersAlign(ms, known) == TypeAlign(ms[i].ctype, known)
  {
    hide TypeAlign;
    if ms == [] {
    } else {
      AlignAttained(ms[1..], known);
      if MembersAlign(ms[1..], known) != 1 {
        var i :| 0 <= i < |ms[1..]| && MembersAlign(ms[1..], known) == TypeAlign(ms[1..][i].ctype, known);
        assert ms[1..][i] == ms[i + 1];
      }
    }
  }

  lemma AllDivide(g: Graph, align: map<Offset, nat>, o: Offset, ms: seq<Header.Member>, known: Layouts)
    requires NonPacked(g, align) && o in g && o in align
    requires forall i :: 0 <= i < |ms| ==> align[o] % TypeAlign(ms[i].ctype, known) == 0
    ensures align[o] % MembersAlign(ms, known) == 0 && g[o].byteSize % MembersAlign(ms, known) == 0
  {
    hide TypeAlign, Declarable, Before, WellAligned, MembersAlign;
    AlignAttained(ms, known);
    Divides(g[o].byteSize, align[o], MembersAlign(ms, known));
  }

  /** The definition of o, with what is known when it is reached. */
  ghost predicate Reached(g: Graph, st: State, align: map<Offset, nat>, known: Layouts, done: seq<string>, o: Offset) {
    && NonPacked(g, align) && Faithful(g, st, align, known, done)
    && o in st.tags && o in g && Emittable(g[o]) && st.tags[o] in st.structs
    && var d := st.structs[st.tags[o]];
       && Outline(g[o], st.tags[o], d) && Listed(g, st.tags, g[o], d) && NamesOnly(d, done) && Fresh(d) && Sane(d)
  }

  /** The i-th kept member is declarable unless it is dropped from a union. */
  lemma KeptPlaced(g: Graph, st: State, align: map<Offset, nat>, known: Layouts, done: seq<string>, o: Offset, i: nat)
    requires Reached(g, st, align, known, done, o) && o in align
    requires var kept := KeptMembers(g, st.tags, g[o].members);
      i < |kept| && (g[o].kind.Union? ==> kept[i].offset == 0)
    ensures var kept, js := KeptMembers(g, st.tags, g[o].members), KeptIndices(g, st.tags, g[o].members);
      && |js| == |kept| && js[i] < |g[o].members|
      && Declarable(g, g[o].kind, g[o].members[js[i]]) && Kept(g, st.tags, g[o].members[js[i]])
      && kept[i] == KeptMember(g, st.tags, g[o].members[js[i]])
      && PlacedLike(g, align, o, kept[i], known)
      && DeclaredSize(kept[i].ctype, kept[i].dims, known) == ByteSize(g, g[o].members[js[i]].ty)
  {
    hide Declared, DecodedOffset, HasIdentifier, Representable, NonPacked, Faithful, Sane, Fresh, PlacedLike,
      DeclaredSize, ByteSize, LeafTagged;
    var ms := g[o].members;
    var kept, js := KeptMembers(g, st.tags, ms), KeptIndices(g, st.tags, ms);
    KeptInOrder(g, st.tags, ms);
    var die, d := ms[js[i]], st.structs[st.tags[o]];
    assert LeafTagged(g, st.tags, die.ty);
    DecodedExactly(die.location);
    RepresentableExactly(g, st.tags, die.ty);
    AtOffsetZeroSubset(kept, kept[i]);
    assert kept[i] in d.members;
    MemberPlaced(g, st, align, known, done, o, js[i]);
  }

  lemma StructPlaced(g: Graph, st: State, align: map<Offset, nat>, known: Layouts, done: seq<string>, o: Offset)
    requires Reached(g, st, align, known, done, o) && o in align && g[o].kind.Struct?
    ensures WellPlaced(st.structs[st.tags[o]], known)
    ensures align[o] % MembersAlign(st.structs[st.tags[o]].members, known) == 0
  {
    hide Kept, NonPacked, Faithful, Sane, Fresh, Declarable, KeptMember, Before, MembersAlign, DeclaredSize, ByteSize,
      TypeAlign, AllTagged, NamesOnly, KeptMembers, KeptIndices;
    var ms, d := g[o].members, st.structs[st.tags[o]];
    var kept, js := KeptMembers(g, st.tags, ms), KeptIndices(g, st.tags, ms);
    KeptInOrder(g, st.tags, ms);
    forall i | 0 <= i < |kept|
      ensures InOrder(d, i, known) && PlacedLike(g, align, o, kept[i], known)
    {
      KeptPlaced(g, st, align, known, done, o, i);
      if i > 0 {
        KeptPlaced(g, st, align, known, done, o, i - 1);
        NextMember(g, st, align, o, js[i - 1], js[i]);
      }
    }
    AllDivide(g, align, o, kept, known);
  }

  lemma NextMember(g: Graph, st: State, align: map<Offset, nat>, o: Offset, i: nat, j: nat)
    requires NonPacked(g, align) && o in g && g[o].kind.Struct? && i < j < |g[o].members|
    requires Declarable(g, Struct, g[o].members[i]) && Declarable(g, Struct, g[o].members[j])
    requires Kept(g, st.tags, g[o].members[i]) && Kept(g, st.tags, g[o].members[j])
    ensures KeptMember(g, st.tags, g[o].members[i]).offset + ByteSize(g, g[o].members[i].ty)
            <= KeptMember(g, st.tags, g[o].members[j]).offset
  {
    hide Declared, DecodedOffset, HasIdentifier, Representable, ByteSize, WellAligned;
    DecodedExactly(g[o].members[i].location);
    DecodedExactly(g[o].members[j].location);
    assert Before(g, g[o].members[i], g[o].members[j]);
  }

  lemma UnionPlaced(g: Graph, st: State, align: map<Offset, nat>, known: Layouts, done: seq<string>, o: Offset)
    requires Reached(g, st, align, known, done, o) && o in align && g[o].kind.Union?
    ensures WellPlaced(st.structs[st.tags[o]], known)
    ensures align[o] % MembersAlign(st.structs[st.tags[o]].members, known) == 0
  {
    hide Kept, NonPacked, Faithful, Sane, Fresh, Declarable, KeptMember, Before, MembersAlign, DeclaredSize, ByteSize,
      AllTagged, NamesOnly, KeptMembers, KeptIndices;
    var ms, d := g[o].members, st.structs[st.tags[o]];
    var kept, js := KeptMembers(g, st.tags, ms), KeptIndices(g, st.tags, ms);
    PadSize(d.size, known);
    forall k | 0 <= k < |d.members|
      ensures align[o] % TypeAlign(d.members[k].ctype, known) == 0
      ensures DeclaredSize(d.members[k].ctype, d.members[k].dims, known) <= d.size
    {
      AtOffsetZeroSubset(kept, d.members[k]);
      if d.members[k] != UnionPad(d.size) {
        var i :| 0 <= i < |kept| && kept[i] == d.members[k];
        KeptPlaced(g, st, align, known, done, o, i);
      }
    }
    AllDivide(g, align, o, d.members, known);
  }

  // ---- The outcome has the right size ----

  lemma {:induction false} OutcomeSize(d: Definition, known: Layouts)
    requires Sane(d)
    ensures BodyLayout(d.kind, Outcome(d, known), known).size == d.size
    decreases Remaining(d, known)
  {
    hide BodyLayout, Outcome, Remaining, Render, Sane, FirstBadMember, Repaired;
    RepairOne(d, known);
    var l := LayoutOf(d, known);
    if Compare(d, l).Some? {
      var m := Compare(d, l).value;
      SameKind(d, m);
      OutcomeSize(Repaired(d, m), known);
    }
  }

  /** The layout of the closed form of a well placed definition. */
  lemma ClosedLayout(d: Definition, known: Layouts)
    requires Sane(d) && Fresh(d) && WellPlaced(d, known)
    ensures LayoutOf(Padded(d, known), known).size == d.size
    ensures LayoutOf(Padded(d, known), known).align == MembersAlign(d.members, known)
  {
    hide WellPlaced, Outcome, StructEnd, StructOffsets, UnionEnd, UnionOffsets, MembersAlign, Gaps, TailGap, RenderFrom;
    OutcomeSize(d, known);
    OutcomeIsClosed(d, known);
    var d' := Padded(d, known);
    PaddedTag(d, known);
    if d.members == [] {
      NoMembers(d, known);
    } else {
      RenderedAlign(d', 0, known);
      assert d'.members[0..] == d'.members;
    }
  }

  lemma NoMembers(d: Definition, known: Layouts)
    requires Sane(d) && Fresh(d) && d.members == []
    ensures Padded(d, known) == d
    ensures LayoutOf(d, known).align == 1 == MembersAlign(d.members, known)
  {
    assert Gaps(d, known) == {};
    ByteBodies(d, known);
  }

  // ---- The whole header ----

  lemma OwnerOf(g: Graph, st: State, k: nat) returns (o: Offset)
    requires Invariant(g, st, {}) && k < |st.order|
    ensures o in st.tags && o in g && st.tags[o] == st.order[k]
  {
    hide Contents, Unrepaired, DependencyOrder, Acyclic, Emittable;
    assert st.order[k] in st.tags.Values;
    o :| o in st.tags && st.tags[o] == st.order[k];
  }

  lemma ReachedAt(g: Graph, st: State, align: map<Offset, nat>, known: Layouts, k: nat, o: Offset)
    requires Invariant(g, st, {}) && Acyclic(g) && NonPacked(g, align) && k < |st.order|
    requires o in st.tags && o in g && st.tags[o] == st.order[k]
    requires Faithful(g, st, align, known, st.order[..k])
    ensures Reached(g, st, align, known, st.order[..k], o)
  {
    hide Acyclic, Emittable, Sane, Fresh, NonPacked, Faithful, KeptMembers, AllTagged, NamesOnly;
    WalkedSane(g, st, o);
  }

  lemma {:induction false} WellPlacedFrom(g: Graph, st: State, align: map<Offset, nat>, known: Layouts, k: nat)
    requires Invariant(g, st, {}) && Acyclic(g) && NonPacked(g, align) && k <= |st.order| && OrderKnown(st)
    requires Faithful(g, st, align, known, st.order[..k])
    ensures AllWellPlaced(Ordered(st)[k..], known)
    decreases |st.order| - k
  {
    hide Acyclic, Emittable, Sane, Fresh, NonPacked, Faithful, Invariant, WellPlaced, LayoutOf, Padded, MembersAlign,
      Listed, NamesOnly;
    if k == |st.order| {
    } else {
      var o := OwnerOf(g, st, k);
      var d := Ordered(st)[k];
      ReachedAt(g, st, align, known, k, o);
      AggregateAligned(g, align, o);
      if g[o].kind.Struct? {
        StructPlaced(g, st, align, known, st.order[..k], o);
      } else {
        UnionPlaced(g, st, align, known, st.order[..k], o);
      }
      ClosedLayout(d, known);
      var next := known[d.tag := LayoutOf(Padded(d, known), known)];
      FaithfulNext(g, st, align, known, next, k, o);
      WellPlacedFrom(g, st, align, next, k + 1);
      assert Ordered(st)[k..][1..] == Ordered(st)[k + 1..];
    }
  }

  lemma FaithfulNext(g: Graph, st: State, align: map<Offset, nat>, known: Layouts, next: Layouts, k: nat, o: Offset)
    requires Invariant(g, st, {}) && k < |st.order| && o in st.tags && o in g && o in align && st.tags[o] == st.order[k]
    requires Faithful(g, st, align, known, st.order[..k])
    requires st.order[k] in next && next == known[st.order[k] := next[st.order[k]]]
    requires next[st.order[k]].size == g[o].byteSize && align[o] % next[st.order[k]].align == 0
    ensures Faithful(g, st, align, next, st.order[..k + 1])
  {
    hide Contents, Unrepaired, DependencyOrder, Acyclic, Emittable;
    forall p | p in st.tags && p in g && p in align && st.tags[p] in st.order[..k + 1]
      ensures st.tags[p] in next && next[st.tags[p]].size == g[p].byteSize
      ensures align[p] % next[st.tags[p]].align == 0
    {
      if st.tags[p] == st.order[k] {
        assert p == o;
      } else {
        assert st.tags[p] in st.order[..k];
      }
    }
  }

  /** Completeness: DWARF of a layout that is not packed needs no opaque definition, whatever members cannot be
      declared, and each repair is a gap closed. */
  lemma NothingGetsOpaque(g: Graph, st: State, align: map<Offset, nat>)
    requires Invariant(g, st, {}) && Acyclic(g) && NonPacked(g, align)
    ensures OrderKnown(st) && AllSane(Ordered(st))
    ensures AllWellPlaced(Ordered(st), map[])
    ensures RemainingAll(Ordered(st), map[]) == AllGaps(Ordered(st), map[])
  {
    hide Invariant, Acyclic, NonPacked, AllWellPlaced, RemainingAll, AllGaps, AllFresh, AllSane, DistinctTags;
    WalkReady(g, st);
    assert Ordered(st)[0..] == Ordered(st) && st.order[..0] == [];
    WellPlacedFrom(g, st, align, map[], 0);
    RepairsAreAllGaps(Ordered(st), map[]);
  }
}
