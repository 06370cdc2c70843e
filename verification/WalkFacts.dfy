/** What the walk keeps, over any type graph: every aggregate has one tag and no two share one; every finished
    definition lists exactly the members DWARF gives it that C can express; and, when no aggregate contains itself,
    definitions come after everything they name. */
module WalkFacts {
  import opened Dwarf
  import opened Lists
  import opened Header
  import opened Offsets
  import opened Repair
  import opened Walk

  // ---- The members of a definition, read off DWARF ----

  /** A member that the header declares. */
  predicate Kept(g: Graph, tags: map<Offset, string>, m: MemberDie) {
    && HasIdentifier(m.name) && m.bitSize.None?
    && Declared(g, tags, m.ty).Some? && DecodedOffset(m.location).Some?
  }

  function KeptMember(g: Graph, tags: map<Offset, string>, m: MemberDie): Member
    requires Kept(g, tags, m)
  {
    var d := Declared(g, tags, m.ty).value;
    Member(m.name.value, d.ctype, d.dims, DecodedOffset(m.location).value)
  }

  function KeptMembers(g: Graph, tags: map<Offset, string>, ms: seq<MemberDie>): seq<Member> {
    if ms == [] then []
    else
      var n := |ms| - 1;
      KeptMembers(g, tags, ms[..n]) + if Kept(g, tags, ms[n]) then [KeptMember(g, tags, ms[n])] else []
  }

  /** A member whose type the walk looks at. */
  predicate Walked(m: MemberDie) {
    HasIdentifier(m.name) && m.bitSize.None?
  }

  /** Every aggregate that these members contain and that gets a definition has its tag. */
  ghost predicate AllTagged(g: Graph, tags: map<Offset, string>, ms: seq<MemberDie>) {
    forall i :: 0 <= i < |ms| && Walked(ms[i]) ==> LeafTagged(g, tags, ms[i].ty)
  }

  ghost predicate LeafTagged(g: Graph, tags: map<Offset, string>, t: Type) {
    Leaf(t).Some? ==> LeafIn(g, t) && (Emittable(g[Leaf(t).value]) ==> Leaf(t).value in tags)
  }

  ghost predicate Grown(tags: map<Offset, string>, tags': map<Offset, string>) {
    forall o :: o in tags ==> o in tags' && tags'[o] == tags[o]
  }

  lemma {:induction false} DeclaredStable(g: Graph, tags: map<Offset, string>, tags': map<Offset, string>, t: Type)
    requires Grown(tags, tags') && LeafTagged(g, tags, t)
    ensures Declared(g, tags', t) == Declared(g, tags, t)
    decreases Length(t)
  {
    match t
    case Array(element, _) => DeclaredStable(g, tags, tags', element);
    case Qualified(of) => DeclaredStable(g, tags, tags', of);
    case Typedef(of) => DeclaredStable(g, tags, tags', of);
    case _ =>
  }

  lemma {:induction false} KeptStable(g: Graph, tags: map<Offset, string>, tags': map<Offset, string>, ms: seq<MemberDie>)
    requires Grown(tags, tags') && AllTagged(g, tags, ms)
    ensures KeptMembers(g, tags', ms) == KeptMembers(g, tags, ms)
    ensures AllTagged(g, tags', ms)
  {
    hide Declared, DecodedOffset, HasIdentifier;
    if ms == [] {
    } else {
      var n := |ms| - 1;
      KeptStable(g, tags, tags', ms[..n]);
      if Walked(ms[n]) {
        DeclaredStable(g, tags, tags', ms[n].ty);
      }
    }
  }

  // ---- The invariant ----

  /** Tags are given once and to one aggregate each, and are exactly the keys of the definitions. */
  ghost predicate TagsMatch(g: Graph, st: State) {
    && st.tags.Keys <= g.Keys
    && st.structs.Keys == st.tags.Values
    && (forall o :: o in st.tags ==> Emittable(g[o]))
    && (forall o, p :: o in st.tags && p in st.tags && st.tags[o] == st.tags[p] ==> o == p)
  }

  ghost predicate Outline(a: AggregateDie, tag: string, d: Definition) {
    d.tag == tag && d.kind == a.kind && d.size == a.byteSize
  }

  /** The definition lists what the walk keeps of the members of its aggregate. */
  ghost predicate Listed(g: Graph, tags: map<Offset, string>, a: AggregateDie, d: Definition) {
    && AllTagged(g, tags, a.members)
    && d.members == Finished(a.kind, a.byteSize, KeptMembers(g, tags, a.members))
  }

  ghost predicate Contents(g: Graph, st: State, open: set<Offset>) {
    forall o :: o in st.tags && o in g && st.tags[o] in st.structs ==>
      && Outline(g[o], st.tags[o], st.structs[st.tags[o]])
      && (o !in open ==> Listed(g, st.tags, g[o], st.structs[st.tags[o]]))
  }

  /** Nothing has been padded or made opaque yet. */
  ghost predicate Unrepaired(st: State) {
    forall t :: t in st.structs ==>
      st.structs[t].pads == map[] && st.structs[t].trailingPad == 0 && !st.structs[t].opaqueBytes
  }

  ghost predicate OrderMatches(st: State, open: set<Offset>) {
    && open <= st.tags.Keys
    && NoRepeats(st.order)
    && (forall t :: t in st.order ==> t in st.structs)
    && (forall o :: o in st.tags ==> (o in open <==> st.tags[o] !in st.order))
  }

  ghost predicate NamesOnly(d: Definition, tags: seq<string>) {
    forall m :: m in d.members && m.ctype.Tagged? ==> m.ctype.tag in tags
  }

  /** Every definition names, by value, only definitions before it. */
  ghost predicate DependencyOrder(st: State) {
    forall i :: 0 <= i < |st.order| ==>
      st.order[i] in st.structs && NamesOnly(st.structs[st.order[i]], st.order[..i])
  }

  ghost predicate Invariant(g: Graph, st: State, open: set<Offset>) {
    && TagsMatch(g, st)
    && Contents(g, st, open)
    && Unrepaired(st)
    && OrderMatches(st, open)
    && (Acyclic(g) ==> DependencyOrder(st))
  }

  /** The definitions that are still being walked contain o. */
  ghost predicate Below(g: Graph, o: Offset, open: set<Offset>) {
    Acyclic(g) ==> forall p :: p in open && p in g && o in g ==> Rank(g)[o] < Rank(g)[p]
  }

  /** From st to st' the walk only added: tags, definitions and the order are kept, except that excepted
      definitions may get more members. */
  ghost predicate Preserved(st: State, st': State, except: set<string>) {
    && Grown(st.tags, st'.tags)
    && (forall t :: t in st.structs && t !in except ==> t in st'.structs && st'.structs[t] == st.structs[t])
    && st.order <= st'.order
  }

  // ---- Single steps of the walk ----

  lemma OpenedInvariant(g: Graph, st: State, o: Offset, open: set<Offset>)
    requires Invariant(g, st, open) && o in g && o !in st.tags && Emittable(g[o])
    ensures Invariant(g, Opened(st, o, g[o]), open + {o})
    ensures Preserved(st, Opened(st, o, g[o]), {})
  {
    hide Emittable, Acyclic, TagsMatch, Contents, OrderMatches, DependencyOrder, NewTag;
    OpenedTags(g, st, o);
    OpenedContents(g, st, o, open);
    OpenedOrder(g, st, o, open);
  }

  lemma OpenedOrder(g: Graph, st: State, o: Offset, open: set<Offset>)
    requires TagsMatch(g, st) && OrderMatches(st, open) && o in g && o !in st.tags
    ensures OrderMatches(Opened(st, o, g[o]), open + {o})
    ensures DependencyOrder(st) ==> DependencyOrder(Opened(st, o, g[o]))
  {
    hide Emittable, NamesOnly;
    var r := Opened(st, o, g[o]);
    assert NewTag(st, g[o]) !in st.structs;
    assert forall p :: p in st.tags ==> st.tags[p] in st.tags.Values;
    assert forall i :: 0 <= i < |st.order| ==> r.structs[st.order[i]] == st.structs[st.order[i]];
  }

  lemma OpenedTags(g: Graph, st: State, o: Offset)
    requires TagsMatch(g, st) && o in g && o !in st.tags && Emittable(g[o])
    ensures TagsMatch(g, Opened(st, o, g[o]))
  {
    hide Emittable, NewTag;
    var r := Opened(st, o, g[o]);
    var tag := NewTag(st, g[o]);
    assert forall p :: p in st.tags ==> st.tags[p] in st.tags.Values;
    assert r.tags.Values == st.tags.Values + {tag} by {
      assert r.tags[o] == tag;
      forall t | t in st.tags.Values
        ensures t in r.tags.Values
      {
        var p :| p in st.tags && st.tags[p] == t;
        assert r.tags[p] == t;
      }
    }
  }

  lemma OpenedContents(g: Graph, st: State, o: Offset, open: set<Offset>)
    requires TagsMatch(g, st) && Contents(g, st, open) && o in g && o !in st.tags && Emittable(g[o])
    ensures Contents(g, Opened(st, o, g[o]), open + {o})
  {
    hide Emittable, KeptMembers, Finished, AllTagged, NewTag;
    var r := Opened(st, o, g[o]);
    assert forall p :: p in st.tags ==> st.tags[p] in st.tags.Values;
    forall p | p in r.tags && p in g && r.tags[p] in r.structs
      ensures Outline(g[p], r.tags[p], r.structs[r.tags[p]])
      ensures p !in open + {o} ==> Listed(g, r.tags, g[p], r.structs[r.tags[p]])
    {
      if p != o {
        assert r.structs[r.tags[p]] == st.structs[st.tags[p]];
        if p !in open {
          KeptStable(g, st.tags, r.tags, g[p].members);
        }
      }
    }
  }

  lemma AddedInvariant(g: Graph, st: State, o: Offset, m: Member, open: set<Offset>)
    requires Invariant(g, st, open) && o in open && o in st.tags && st.tags[o] in st.structs
    ensures Invariant(g, AddMember(st, st.tags[o], m), open)
    ensures Preserved(st, AddMember(st, st.tags[o], m), {st.tags[o]})
  {
    hide Emittable, AllTagged, KeptMembers, Finished, Acyclic;
    var tag := st.tags[o];
    var r := AddMember(st, tag, m);
    assert r.structs.Keys == st.structs.Keys;
    assert forall t :: t in st.order ==> t != tag;
    if Acyclic(g) {
      assert forall i :: 0 <= i < |st.order| ==> r.structs[st.order[i]] == st.structs[st.order[i]];
    }
  }

  lemma WarnedInvariant(g: Graph, st: State, w: Warning, open: set<Offset>)
    requires Invariant(g, st, open)
    ensures Invariant(g, Warn(st, w), open)
  {
    hide Emittable, AllTagged, KeptMembers, Finished, Acyclic, Listed, Outline;
  }

  // ---- Finishing a definition ----

  lemma {:induction false} DeclaredLeaf(g: Graph, tags: map<Offset, string>, t: Type)
    requires Declared(g, tags, t).Some? && Declared(g, tags, t).value.ctype.Tagged?
    ensures Leaf(t).Some? && Leaf(t).value in g && Leaf(t).value in tags
    ensures Declared(g, tags, t).value.ctype == CType.Tagged(g[Leaf(t).value].kind, tags[Leaf(t).value])
    decreases Length(t)
  {
    match t
    case Array(element, _) => DeclaredLeaf(g, tags, element);
    case Qualified(of) => DeclaredLeaf(g, tags, of);
    case Typedef(of) => DeclaredLeaf(g, tags, of);
    case _ =>
  }

  /** A kept member comes from one of the members in DWARF. */
  lemma {:induction false} KeptFrom(g: Graph, tags: map<Offset, string>, ms: seq<MemberDie>, m: Member) returns (i: nat)
    requires m in KeptMembers(g, tags, ms)
    ensures i < |ms| && Kept(g, tags, ms[i]) && m == KeptMember(g, tags, ms[i])
  {
    hide Kept, KeptMember;
    var n := |ms| - 1;
    if m in KeptMembers(g, tags, ms[..n]) {
      i := KeptFrom(g, tags, ms[..n], m);
    } else {
      i := n;
    }
  }

  lemma {:induction false} AtOffsetZeroSubset(ms: seq<Member>, m: Member)
    ensures m in AtOffsetZero(ms) <==> m in ms && m.offset == 0
  {
    if ms == [] {
    } else {
      AtOffsetZeroSubset(ms[1..], m);
      assert ms == [ms[0]] + ms[1..];
    }
  }

  lemma FinishedNames(g: Graph, st: State, o: Offset, open: set<Offset>, m: Member)
    requires Invariant(g, st, open + {o}) && o in g && o in st.tags && Below(g, o, open) && Acyclic(g)
    requires m in Finished(g[o].kind, g[o].byteSize, KeptMembers(g, st.tags, g[o].members)) && m.ctype.Tagged?
    ensures m.ctype.tag in st.order
  {
    hide Declared, DecodedOffset, Acyclic, HasIdentifier;
    var kept := KeptMembers(g, st.tags, g[o].members);
    AtOffsetZeroSubset(kept, m);
    var i := KeptFrom(g, st.tags, g[o].members, m);
    var t := g[o].members[i].ty;
    DeclaredLeaf(g, st.tags, t);
    var inner := Leaf(t).value;
    assert IsRank(g, Rank(g));
    assert Rank(g)[inner] < Rank(g)[o];
    assert inner !in open + {o};
  }

  lemma CompletedInvariant(g: Graph, st: State, o: Offset, open: set<Offset>)
    requires Invariant(g, st, open + {o}) && o in g && o in st.tags && o !in open && Below(g, o, open)
    requires AllTagged(g, st.tags, g[o].members)
    requires st.tags[o] in st.structs &&
             st.structs[st.tags[o]].members == KeptMembers(g, st.tags, g[o].members)
    ensures Invariant(g, Completed(st, st.tags[o]), open)
  {
    hide Emittable, AllTagged, KeptMembers, Finished, Acyclic, Contents, OrderMatches, DependencyOrder;
    assert Completed(st, st.tags[o]).structs.Keys == st.structs.Keys;
    CompletedContents(g, st, o, open);
    CompletedTags(g, st, o, open);
    if Acyclic(g) {
      CompletedOrder(g, st, o, open);
    }
  }

  lemma CompletedContents(g: Graph, st: State, o: Offset, open: set<Offset>)
    requires TagsMatch(g, st) && Contents(g, st, open + {o}) && o in st.tags && o !in open
    requires AllTagged(g, st.tags, g[o].members)
    requires st.structs[st.tags[o]].members == KeptMembers(g, st.tags, g[o].members)
    ensures Contents(g, Completed(st, st.tags[o]), open)
  {
    hide Emittable, AllTagged, KeptMembers, Finished;
  }

  lemma CompletedTags(g: Graph, st: State, o: Offset, open: set<Offset>)
    requires TagsMatch(g, st) && OrderMatches(st, open + {o}) && o in st.tags && o !in open
    ensures OrderMatches(Completed(st, st.tags[o]), open)
  {
    hide Emittable, Finished;
    var r, tag := Completed(st, st.tags[o]), st.tags[o];
    assert o in open + {o};
    assert tag !in st.order;
    forall p | p in r.tags
      ensures p in open <==> r.tags[p] !in r.order
    {
      assert p in open + {o} <==> p in open || p == o;
    }
  }

  lemma CompletedOrder(g: Graph, st: State, o: Offset, open: set<Offset>)
    requires Invariant(g, st, open + {o}) && o in g && o in st.tags && o !in open && Below(g, o, open) && Acyclic(g)
    requires st.tags[o] in st.structs &&
             st.structs[st.tags[o]].members == KeptMembers(g, st.tags, g[o].members)
    ensures DependencyOrder(Completed(st, st.tags[o]))
  {
    hide Emittable, AllTagged, KeptMembers, Finished, Acyclic, Contents, Unrepaired;
    var tag := st.tags[o];
    var r := Completed(st, tag);
    var n := |st.order|;
    assert Outline(g[o], tag, st.structs[tag]) by { OutlineOf(g, st, o, open + {o}); }
    forall i | 0 <= i < |r.order|
      ensures NamesOnly(r.structs[r.order[i]], r.order[..i])
    {
      assert r.order[..i] == st.order[..i];
      if i < n {
        assert r.structs[r.order[i]] == st.structs[st.order[i]];
      } else {
        assert st.order[..n] == st.order;
        forall m | m in r.structs[tag].members && m.ctype.Tagged?
          ensures m.ctype.tag in st.order
        {
          FinishedNames(g, st, o, open, m);
        }
      }
    }
  }

  lemma OutlineOf(g: Graph, st: State, o: Offset, open: set<Offset>)
    requires Contents(g, st, open) && o in st.tags && o in g && st.tags[o] in st.structs
    ensures Outline(g[o], st.tags[o], st.structs[st.tags[o]])
  {
  }

  // ---- The whole walk ----

  lemma PreservedTwice(st0: State, st1: State, st2: State, except: set<string>)
    requires Preserved(st0, st1, except) && Preserved(st1, st2, except)
    ensures Preserved(st0, st2, except)
  {
  }

  lemma CompletedPreserves(st0: State, st: State, tag: string)
    requires Preserved(st0, st, {tag}) && tag !in st0.structs && tag in st.structs
    ensures Preserved(st0, Completed(st, tag), {})
  {
    hide Finished;
  }

  /** The first i members of o have been walked. */
  ghost predicate Building(g: Graph, st: State, o: Offset, i: nat) {
    && o in g && i <= |g[o].members|
    && o in st.tags && st.tags[o] in st.structs
    && st.structs[st.tags[o]].members == KeptMembers(g, st.tags, g[o].members[..i])
    && AllTagged(g, st.tags, g[o].members[..i])
  }

  lemma InnerBelow(g: Graph, o: Offset, i: nat, open: set<Offset>)
    requires o in g && i < |g[o].members| && Leaf(g[o].members[i].ty).Some? && Below(g, o, open)
    ensures Below(g, Leaf(g[o].members[i].ty).value, open + {o})
  {
    hide Acyclic;
    if Acyclic(g) {
      assert IsRank(g, Rank(g));
    }
  }

  /** What a step did to the definition under construction when it added member i, or did not. */
  lemma BuiltOne(g: Graph, st: State, st1: State, st2: State, o: Offset, i: nat)
    requires Building(g, st, o, i) && i < |g[o].members| && Preserved(st, st1, {})
    requires Walked(g[o].members[i]) ==> LeafTagged(g, st1.tags, g[o].members[i].ty)
    requires st2.tags == st1.tags && st.tags[o] in st2.structs
    requires
      var m, tag := g[o].members[i], st.tags[o];
      st2.structs[tag].members ==
        st1.structs[tag].members + if Kept(g, st1.tags, m) then [KeptMember(g, st1.tags, m)] else []
    ensures Building(g, st2, o, i + 1)
  {
    hide Kept, KeptMember, LeafTagged, Walked;
    var ms := g[o].members;
    KeptStable(g, st.tags, st1.tags, ms[..i]);
    assert ms[..i + 1][..i] == ms[..i];
    NextTagged(g, st1.tags, ms, i);
  }

  lemma NextTagged(g: Graph, tags: map<Offset, string>, ms: seq<MemberDie>, i: nat)
    requires i < |ms| && AllTagged(g, tags, ms[..i])
    requires Walked(ms[i]) ==> LeafTagged(g, tags, ms[i].ty)
    ensures AllTagged(g, tags, ms[..i + 1])
  {
    hide LeafTagged, Walked;
    var next := ms[..i + 1];
    forall j | 0 <= j < |next| && Walked(next[j])
      ensures LeafTagged(g, tags, next[j].ty)
    {
      if j < i {
        assert ms[..i][j] == next[j];
      }
    }
  }

  lemma {:induction false} VisitInvariant(g: Graph, st: State, t: Type, open: set<Offset>)
    requires Dwarf.Closed(g) && LeafIn(g, t) && Invariant(g, st, open)
    requires Leaf(t).Some? ==> Below(g, Leaf(t).value, open)
    requires Visit(g, st, t).Some?
    ensures var r := Visit(g, st, t).value;
      Invariant(g, r, open) && Preserved(st, r, {}) && LeafTagged(g, r.tags, t)
    decreases Missing(g, st), 1, 0
  {
    hide Invariant, Dwarf.Closed, Emittable;
    if Leaf(t).Some? {
      EmitInvariant(g, st, Leaf(t).value, open);
    }
  }

  lemma {:induction false} WalkMemberInvariant(g: Graph, st: State, o: Offset, i: nat, open: set<Offset>)
    requires Dwarf.Closed(g) && Invariant(g, st, open + {o}) && Building(g, st, o, i) && i < |g[o].members|
    requires Below(g, o, open) && LeafIn(g, g[o].members[i].ty)
    requires WalkMember(g, st, st.tags[o], g[o].members[i]).Some?
    ensures var r := WalkMember(g, st, st.tags[o], g[o].members[i]).value;
      Invariant(g, r, open + {o}) && Building(g, r, o, i + 1) && Preserved(st, r, {st.tags[o]})
    decreases Missing(g, st), 2, 0
  {
    hide Invariant, Dwarf.Closed, Declared, DecodedOffset, IsIdentifier, AllTagged, KeptMembers, LeafTagged, Below, Visit;
    var m, tag := g[o].members[i], st.tags[o];
    if !Walked(m) {
      var w := if !HasIdentifier(m.name) then AnonymousDropped(tag) else BitfieldDropped(tag, m.name.value);
      WarnedInvariant(g, st, w, open + {o});
      BuiltOne(g, st, st, Warn(st, w), o, i);
    } else {
      if Leaf(m.ty).Some? {
        InnerBelow(g, o, i, open);
      }
      VisitInvariant(g, st, m.ty, open + {o});
      var st1 := Visit(g, st, m.ty).value;
      assert st1.tags[o] == tag && st1.structs[tag] == st.structs[tag];
      var r := WalkMember(g, st, tag, m).value;
      BuiltOne(g, st, st1, r, o, i);
      if Declared(g, st1.tags, m.ty).None? {
        WarnedInvariant(g, st1, TypeDropped(tag, m.name.value), open + {o});
      } else {
        AddedInvariant(g, st1, o, KeptMember(g, st1.tags, m), open + {o});
        PreservedTwice(st, st1, r, {tag});
      }
    }
  }

  lemma {:induction false} WalkMembersInvariant(g: Graph, st: State, o: Offset, i: nat, open: set<Offset>)
    requires Dwarf.Closed(g) && Invariant(g, st, open + {o}) && Building(g, st, o, i)
    requires Below(g, o, open) && LeavesIn(g, g[o].members) && LeavesIn(g, g[o].members[i..])
    requires WalkMembers(g, st, st.tags[o], g[o].members[i..]).Some?
    ensures var r := WalkMembers(g, st, st.tags[o], g[o].members[i..]).value;
      && Invariant(g, r, open + {o}) && Building(g, r, o, |g[o].members|)
      && Preserved(st, r, {st.tags[o]}) && r.tags[o] == st.tags[o]
    decreases Missing(g, st), 3, |g[o].members| - i
  {
    hide Invariant, Dwarf.Closed, WalkMember, AllTagged, KeptMembers, Below;
    var ms, tag := g[o].members, st.tags[o];
    if i == |ms| {
    } else {
      assert ms[i..][0] == ms[i] && ms[i..][1..] == ms[i + 1..];
      WalkMemberInvariant(g, st, o, i, open);
      var st1 := WalkMember(g, st, tag, ms[i]).value;
      FewerMissing(g, st, st1);
      WalkMembersInvariant(g, st1, o, i + 1, open);
      PreservedTwice(st, st1, WalkMembers(g, st, tag, ms[i..]).value, {tag});
    }
  }

  /** Emitting an aggregate keeps the invariant, whatever is still open around it. */
  lemma {:induction false} EmitInvariant(g: Graph, st: State, o: Offset, open: set<Offset>)
    requires Dwarf.Closed(g) && o in g && Invariant(g, st, open) && Below(g, o, open)
    requires Emit(g, st, o).Some?
    ensures var r := Emit(g, st, o).value;
      Invariant(g, r, open) && Preserved(st, r, {}) && (Emittable(g[o]) <==> o in r.tags)
    decreases Missing(g, st), 0, 0
  {
    hide Invariant, Dwarf.Closed, AllTagged, KeptMembers, Emittable, Below;
    if o in st.tags {
      TaggedEmittable(g, st, o, open);
    } else if !Emittable(g[o]) {
    } else {
      var st1 := Opened(st, o, g[o]);
      var tag, ms := st1.tags[o], g[o].members;
      OpenedInvariant(g, st, o, open);
      FewerMissing(g, st, st1);
      NothingBuilt(g, st1, o);
      MembersLeaves(g, o);
      assert ms[0..] == ms;
      NotOpen(g, st, o, open);
      WalkMembersInvariant(g, st1, o, 0, open);
      var st2 := WalkMembers(g, st1, tag, ms).value;
      assert ms[..|ms|] == ms;
      CompletedInvariant(g, st2, o, open);
      PreservedThenCompleted(st, st1, st2, tag);
    }
  }

  lemma TaggedEmittable(g: Graph, st: State, o: Offset, open: set<Offset>)
    requires Invariant(g, st, open) && o in st.tags
    ensures o in g && Emittable(g[o])
  {
    hide Emittable;
  }

  lemma NotOpen(g: Graph, st: State, o: Offset, open: set<Offset>)
    requires Invariant(g, st, open) && o !in st.tags
    ensures o !in open
  {
  }

  lemma MembersLeaves(g: Graph, o: Offset)
    requires Dwarf.Closed(g) && o in g
    ensures LeavesIn(g, g[o].members)
  {
  }

  lemma NothingBuilt(g: Graph, st: State, o: Offset)
    requires o in g && o in st.tags && st.tags[o] in st.structs && st.structs[st.tags[o]].members == []
    ensures Building(g, st, o, 0)
  {
  }

  lemma PreservedThenCompleted(st: State, st1: State, st2: State, tag: string)
    requires Preserved(st, st1, {}) && Preserved(st1, st2, {tag}) && tag !in st.structs && tag in st2.structs
    ensures Preserved(st, Completed(st2, tag), {})
  {
    CompletedPreserves(st, st2, tag);
  }

  /** Whatever the root, the walk of an extractor that starts empty establishes the invariant with nothing open. */
  lemma WalkEstablishes(g: Graph, root: Offset)
    requires Dwarf.Closed(g) && root in g && Emit(g, EMPTY, root).Some?
    ensures var st := Emit(g, EMPTY, root).value;
      Invariant(g, st, {}) && (root in st.tags <==> !g[root].isDeclaration && g[root].byteSize > 0)
  {
    hide Invariant, Dwarf.Closed, Emit, Acyclic;
    NothingWalked(g);
    EmitInvariant(g, EMPTY, root, {});
  }

  lemma NothingWalked(g: Graph)
    ensures Invariant(g, EMPTY, {})
  {
    hide Acyclic, Emittable;
    assert EMPTY.tags.Values == {};
  }
}
