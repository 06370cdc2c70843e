/** Inputs at which the generators do what their introduction does not say. */
module Examples {
  import opened Dwarf
  import opened Lists
  import opened Header
  import opened Meaning
  import opened Repair
  import opened Fixpoint
  import opened ClosedForm
  import opened Walk
  import opened WalkFacts
  import opened Declarators
  import opened Failure
  import opened Reports
  import opened Completeness
  import opened AbiHeader
  import Api
  import ApiWalk
  import ApiReports
  import Natural

  function Scalar4(name: string, at: int): MemberDie {
    MemberDie(Some(name), Base(0x07, 4), None, Constant(at))
  }

  /** The graph of one aggregate that contains no other. */
  function Single(a: AggregateDie): Graph {
    map[0 := a]
  }

  ghost predicate Flat(a: AggregateDie) {
    forall i :: 0 <= i < |a.members| ==>
      Leaf(a.members[i].ty).None? && Understood(a.members[i].location)
  }

  /** The walk over one flat aggregate succeeds and gives it a tag. */
  lemma SingleWalks(a: AggregateDie)
    requires Flat(a) && Emittable(a)
    ensures Dwarf.Closed(Single(a)) && Acyclic(Single(a))
    ensures Emit(Single(a), EMPTY, 0).Some?
    ensures var st := Emit(Single(a), EMPTY, 0).value;
      0 in st.tags && st.tags.Keys == {0} && Invariant(Single(a), st, {})
  {
    hide Emit, Invariant, Representable, HasIdentifier;
    var g := Single(a);
    assert IsRank(g, map[0 := 0]);
    WalkFails(g, 0);
    assert forall o :: !Flawed(g, o);
    WalkEstablishes(g, 0);
    TaggedKeys(g, Emit(g, EMPTY, 0).value);
  }

  lemma TaggedKeys(g: Graph, st: State)
    requires Invariant(g, st, {})
    ensures st.tags.Keys <= g.Keys
  {
  }

  // ---- A packed structure ----

  /** A byte, and four bytes right behind it. */
  const PACKED := AggregateDie(Struct, Some("packed"), false, 5,
    [MemberDie(Some("a"), Base(0x07, 1), None, Constant(0)), Scalar4("b", 1)])

  function PackedMembers(): seq<Member> {
    [Member("a", CType.Plain(UInt8), [], 0), Member("b", CType.Plain(UInt32), [], 1)]
  }

  lemma PackedKept(tags: map<Offset, string>)
    ensures KeptMembers(Single(PACKED), tags, PACKED.members) == PackedMembers()
  {
    hide Kept, KeptMember;
    var g, ms := Single(PACKED), PACKED.members;
    assert ms[..1] == [ms[0]] && ms[..1][..0] == [];
    PackedMember(tags, 0);
    PackedMember(tags, 1);
    assert KeptMembers(g, tags, ms[..1]) == [PackedMembers()[0]];
  }

  lemma PackedMember(tags: map<Offset, string>, i: nat)
    requires i < 2
    ensures Kept(Single(PACKED), tags, PACKED.members[i])
    ensures KeptMember(Single(PACKED), tags, PACKED.members[i]) == PackedMembers()[i]
  {
  }

  lemma PackedDefinition(d: Definition)
    requires d.kind == Struct && d.size == 5 && d.members == PackedMembers() && Fresh(d) && !d.opaqueBytes
    ensures !WellPlaced(d, map[]) && Remaining(d, map[]) == 1
  {
    assert !InOrder(d, 1, map[]);
    assert AlignUp(1, 4) == 4;
    assert End(d.members[0], map[]) == 1;
    assert RepairsAt(1, 4, 1) == 1 && !Repair.Fits(1, 4, 1);
    assert RemainingFrom(d, 1, 1, map[]) == 1;
    assert AlignUp(0, 1) == 0 && RepairsAt(0, 1, 0) == 0 && Repair.Fits(0, 1, 0);
  }

  /** Neither member is dropped: the whole definition becomes opaque, after one repair. */
  lemma PackedGoesOpaque()
    ensures Dwarf.Closed(Single(PACKED)) && Acyclic(Single(PACKED)) && Walks(Single(PACKED), 0)
    ensures var defs := WalkedDefinitions(Single(PACKED), 0);
      && |defs| == 1 && defs[0].members == PackedMembers() && RemainingAll(defs, map[]) == 1
      && forall n :: Exact(Run(defs, n)) ==> |Run(defs, n)| == 1 && Run(defs, n)[0].opaqueBytes
  {
    hide Emit, Invariant, Run, Exact, WellPlaced, Remaining, KeptMembers, Fresh;
    var g := Single(PACKED);
    SingleWalks(PACKED);
    WalksExactly(g, 0);
    var st, defs := Emit(g, EMPTY, 0).value, WalkedDefinitions(g, 0);
    WalkReady(g, st);
    OnlyOne(g, st);
    PackedKept(st.tags);
    PackedDefinition(defs[0]);
    forall n | Exact(Run(defs, n))
      ensures |Run(defs, n)| == 1 && Run(defs, n)[0].opaqueBytes
    {
      OpaqueIffMisplaced(defs, n, 0);
      assert Run(defs, n)[..0] == [];
    }
  }

  /** The only aggregate has the only definition. */
  lemma OnlyOne(g: Graph, st: State)
    requires Invariant(g, st, {}) && OrderKnown(st) && st.tags.Keys == {0} && 0 in g
    ensures |Ordered(st)| == 1
    ensures var d := Ordered(st)[0];
      && d.kind == g[0].kind && d.size == g[0].byteSize && d.tag == st.tags[0] && !d.opaqueBytes && Fresh(d)
      && d.members == Finished(g[0].kind, g[0].byteSize, KeptMembers(g, st.tags, g[0].members))
  {
    hide KeptMembers, Finished, DependencyOrder, Acyclic, AllTagged, Emittable;
    var tag := st.tags[0];
    assert st.tags.Values == {tag};
    assert tag in st.order;
    if |st.order| > 1 {
      OnlyFirst(st.order, tag, 1);
    }
  }

  lemma OnlyFirst(order: seq<string>, tag: string, i: nat)
    requires NoRepeats(order) && i < |order| && forall t :: t in order ==> t == tag
    ensures i == 0
  {
    assert order[0] in order && order[i] in order;
  }

  // ---- A union with a member behind its beginning ----

  const SPREAD := AggregateDie(Union, Some("spread"), false, 8, [Scalar4("a", 0), Scalar4("b", 4)])

  /** The second member is neither declared nor reported. */
  lemma UnionLosesMember()
    ensures Dwarf.Closed(Single(SPREAD)) && Emit(Single(SPREAD), EMPTY, 0).Some?
    ensures var st := Emit(Single(SPREAD), EMPTY, 0).value;
      && 0 in st.tags && st.tags[0] in st.structs
      && st.structs[st.tags[0]].members == [Member("a", CType.Plain(UInt32), [], 0), UnionPad(8)]
      && ReportsOf(st.warnings, st.tags[0]) == []
  {
    hide Emit, Invariant;
    var g := Single(SPREAD);
    SingleWalks(SPREAD);
    var st := Emit(g, EMPTY, 0).value;
    EveryFate(g, 0, 0);
    var fates := Fates(g, st.tags, st.tags[0], SPREAD);
    assert IsFate(g, st.tags, st.tags[0], Union, SPREAD.members[0], fates[0]);
    assert IsFate(g, st.tags, st.tags[0], Union, SPREAD.members[1], fates[1]);
    assert fates == [InDefinition(Member("a", CType.Plain(UInt32), [], 0)), LeftOut];
    assert fates[..1] == [fates[0]] && fates[..1][..0] == [];
    assert MembersAmong(fates[..1]) == [fates[0].m] && WarningsAmong(fates[..1]) == [];
  }

  // ---- In API mode, a member without a name whose type has one ----

  const INNER := AggregateDie(Struct, Some("inner"), false, 4, [Scalar4("x", 0)])

  const OUTER := AggregateDie(Struct, Some("outer"), false, 4, [MemberDie(None, Aggregate(1), None, Constant(0))])

  function Nested(): Graph {
    map[0 := OUTER, 1 := INNER]
  }

  /** The definition of the outer structure declares nothing, and no warning is about it. */
  lemma UnnamedMemberLost(d: ApiWalk.ApiDefinition)
    ensures Dwarf.Closed(Nested()) && Acyclic(Nested())
    ensures var st := ApiWalk.ApiEmit(Nested(), ApiWalk.NOTHING, 0);
      d in st.defs && d.name == "outer" ==> d.body == [Api.Ellipsis] && ApiReports.About(st.warnings, "outer") == []
  {
    hide ApiWalk.ApiEmit, Api.PartWritten, Api.PartialItems, ApiReports.ApiReportsOf, ApiReports.About, Dwarf.Closed,
      Acyclic, ApiReports.SilentlyOmitted;
    NestedCoherent();
    InnerReferred();
    var g := Nested();
    if d in ApiWalk.ApiEmit(g, ApiWalk.NOTHING, 0).defs && d.name == "outer" {
      var o := ApiReports.EveryApiFate(g, 0, d);
      assert o == 0;
      assert |ApiReports.Omitted(g, 0, 1)| == 1;
      assert d.body == [d.body[0]];
    }
  }

  lemma InnerReferred()
    requires Dwarf.Closed(Nested()) && Acyclic(Nested())
    ensures ApiReports.SilentlyOmitted(OUTER.members[0], Api.ApiDeclared(Nested(), Aggregate(1), false))
    ensures |ApiReports.Omitted(Nested(), 0, 1)| == 1
  {
    hide Dwarf.Closed, Acyclic;
    assert Nested()[1] == INNER && Nested()[0] == OUTER;
    assert ApiReports.Omitted(Nested(), 0, 0) == [];
  }

  lemma NestedCoherent()
    ensures Dwarf.Closed(Nested()) && Acyclic(Nested()) && ApiWalk.Coherent(Nested())
  {
    var g, rank := Nested(), map[0 := 1, 1 := 0];
    assert IsRank(g, rank) && ApiWalk.SameNamesAgree(g, rank);
  }

  /** And there is such a definition. */
  lemma OuterDefined()
    ensures Dwarf.Closed(Nested()) && Acyclic(Nested())
    ensures ApiWalk.Defined(ApiWalk.ApiEmit(Nested(), ApiWalk.NOTHING, 0).defs, "outer")
  {
    hide ApiWalk.ApiEmit, ApiWalk.RefersOnly, Dwarf.Closed, Acyclic, ApiWalk.Coherent, ApiWalk.Defined;
    NestedCoherent();
    ApiWalk.DefinitionsInOrder(Nested(), 0);
    assert Api.IsNamed(OUTER);
  }

  // ---- A plain layout ----

  /** Eight bytes behind one, in a structure of their own: the inner structure is aligned as its member is. */
  const OUTER_PLAIN := AggregateDie(Struct, Some("plain"), false, 16,
    [MemberDie(Some("c"), Base(0x07, 1), None, Constant(0)), MemberDie(Some("s"), Aggregate(1), None, Constant(8))])

  const INNER_PLAIN := AggregateDie(Struct, Some("wide"), false, 8,
    [MemberDie(Some("x"), Base(0x07, 8), None, NoLocation)])

  function Plainly(): Graph {
    map[0 := OUTER_PLAIN, 1 := INNER_PLAIN]
  }

  lemma ScalarWidth(g: Graph, size: int, s: Scalar)
    requires Dwarf.Closed(g) && Acyclic(g) && Expresses(Base(0x07, size), s)
    ensures Natural.Widest(g, Base(0x07, size), size) && Representable(g, Base(0x07, size))
  {
    hide Dwarf.Closed, Acyclic;
  }

  lemma OnlyMember(g: Graph, o: Offset, w: int)
    requires Dwarf.Closed(g) && Acyclic(g) && o in g && |g[o].members| == 1 && LeafIn(g, g[o].members[0].ty)
    requires Natural.Widest(g, g[o].members[0].ty, w)
    ensures Natural.Widest(g, Aggregate(o), w)
  {
    hide Dwarf.Closed, Acyclic;
    Natural.AggregateHas(g, o);
    assert Natural.MemberHas(g, o, 0, w);
    forall v | Natural.HasScalar(g, Aggregate(o), v)
      ensures v <= w
    {
      assert Natural.HasMember(g, o, v);
      assert Natural.MemberHas(g, o, 0, v);
      assert Natural.HasScalar(g, g[o].members[0].ty, v);
    }
  }

  /** cffi lays this out as it is, and nothing is repaired. */
  lemma PlainlyAtOnce()
    ensures Dwarf.Closed(Plainly()) && Acyclic(Plainly()) && Walks(Plainly(), 0)
    ensures RemainingAll(WalkedDefinitions(Plainly(), 0), map[]) == 0
  {
    hide RemainingAll, Walks, WalkedDefinitions, HasIdentifier, Natural.Widest;
    var g := Plainly();
    assert IsRank(g, map[0 := 1, 1 := 0]);
    PlainParts(g);
    PlainHeader(g, 0);
  }

  lemma PlainParts(g: Graph)
    requires g == Plainly() && Dwarf.Closed(g) && Acyclic(g)
    ensures Natural.PlainLayout(g)
  {
    hide Dwarf.Closed, Acyclic, Natural.Widest, HasIdentifier;
    assert HasIdentifier(Some("c")) && HasIdentifier(Some("s")) && HasIdentifier(Some("x")) by { ShortNames(); }
    ScalarWidth(g, 1, UInt8);
    ScalarWidth(g, 8, UInt64);
    OnlyMember(g, 1, 8);
    PlainInner(g);
    PlainOuter(g);
  }

  lemma ShortNames()
    ensures HasIdentifier(Some("c")) && HasIdentifier(Some("s")) && HasIdentifier(Some("x"))
  {
  }

  lemma PlainInner(g: Graph)
    requires g == Plainly() && Dwarf.Closed(g) && Acyclic(g) && HasIdentifier(Some("x"))
    requires Natural.Widest(g, Base(0x07, 8), 8) && Representable(g, Base(0x07, 8)) && Natural.Widest(g, Aggregate(1), 8)
    ensures Natural.PlainAggregate(g, 1)
  {
    hide Dwarf.Closed, Acyclic, Natural.Widest, HasIdentifier, Representable;
    assert Natural.Ends(g, 1) == [8];
    assert Natural.FirstFrom(0, 8, 0) && Natural.FirstFrom(8, 8, 8);
    assert Natural.NextMember(g, 1, 0, 0);
    assert Natural.IsLast(Struct, [8], 8);
  }

  lemma PlainOuter(g: Graph)
    requires g == Plainly() && Dwarf.Closed(g) && Acyclic(g) && HasIdentifier(Some("c")) && HasIdentifier(Some("s"))
    requires Natural.Widest(g, Base(0x07, 1), 1) && Representable(g, Base(0x07, 1)) && Natural.Widest(g, Aggregate(1), 8)
    ensures Natural.PlainAggregate(g, 0)
  {
    hide Dwarf.Closed, Acyclic, Natural.Widest, HasIdentifier;
    assert Natural.Ends(g, 0) == [1, 16];
    assert Natural.FirstFrom(0, 1, 0) && Natural.FirstFrom(1, 8, 8) && Natural.FirstFrom(16, 8, 16);
    assert Natural.NextMember(g, 0, 0, 0) && Natural.NextMember(g, 0, 1, 1);
    assert Natural.IsLast(Struct, [1, 16], 16);
    assert Natural.Widest(g, Aggregate(0), 8) by { OuterWidest(g); }
  }

  lemma OuterWidest(g: Graph)
    requires g == Plainly() && Dwarf.Closed(g) && Acyclic(g)
    requires Natural.Widest(g, Base(0x07, 1), 1) && Natural.Widest(g, Aggregate(1), 8)
    ensures Natural.Widest(g, Aggregate(0), 8)
  {
    hide Dwarf.Closed, Acyclic;
    Natural.AggregateHas(g, 0);
    assert Natural.MemberHas(g, 0, 1, 8);
    forall v | Natural.HasScalar(g, Aggregate(0), v)
      ensures v <= 8
    {
      assert Natural.HasMember(g, 0, v);
      var i :| 0 <= i < 2 && Natural.MemberHas(g, 0, i, v);
      assert Natural.HasScalar(g, g[0].members[i].ty, v);
    }
  }
}
