/** DWARF of a plain C layout: no packing, no extra alignment, nothing that the header drops.  C then lays the header
    out like the library, and nothing is repaired. */
module Natural {
  import opened Dwarf
  import opened Header
  import opened Offsets
  import opened Meaning
  import opened Repair
  import opened Fixpoint
  import opened ClosedForm
  import opened Walk
  import opened WalkFacts
  import opened Declarators
  import opened Paths
  import opened Completeness
  import Api

  // ---- Alignment, by the scalars in a type ----

  /** The type has a scalar of this width in it, or is one. */
  ghost predicate HasScalar(g: Graph, t: Type, w: int)
    requires Dwarf.Closed(g) && Acyclic(g) && LeafIn(g, t)
    decreases Height(g, t), 1, Length(t)
  {
    match t
    case Qualified(of) => HasScalar(g, of, w)
    case Typedef(of) => HasScalar(g, of, w)
    case Array(element, _) => HasScalar(g, element, w)
    case Aggregate(o) => exists i :: 0 <= i < |g[o].members| && MemberHas(g, o, i, w)
    case _ => exists s :: Expresses(t, s) && s.Size() == w
  }

  ghost predicate MemberHas(g: Graph, o: Offset, i: nat, w: int)
    requires Dwarf.Closed(g) && Acyclic(g) && o in g && i < |g[o].members|
    decreases Height(g, Aggregate(o)), 0, 0
  {
    Api.InnerHeight(g, o, i);
    HasScalar(g, g[o].members[i].ty, w)
  }

  /** The alignment of a type is the width of the widest scalar in it. */
  ghost predicate Widest(g: Graph, t: Type, a: int)
    requires Dwarf.Closed(g) && Acyclic(g) && LeafIn(g, t)
  {
    HasScalar(g, t, a) && forall w :: HasScalar(g, t, w) ==> w <= a
  }

  lemma AggregateHas(g: Graph, o: Offset)
    requires Dwarf.Closed(g) && Acyclic(g) && o in g
    ensures forall w, i :: 0 <= i < |g[o].members| && MemberHas(g, o, i, w) ==> HasScalar(g, Aggregate(o), w)
    ensures forall w :: HasScalar(g, Aggregate(o), w) ==> HasMember(g, o, w)
  {
    hide Dwarf.Closed, Acyclic;
    forall w | HasScalar(g, Aggregate(o), w)
      ensures HasMember(g, o, w)
    {
      var t := Aggregate(o);
      assert HasScalar(g, t, w);
      var i :| 0 <= i < |g[t.die].members| && MemberHas(g, t.die, i, w);
    }
  }

  ghost predicate HasMember(g: Graph, o: Offset, w: int)
    requires Dwarf.Closed(g) && Acyclic(g) && o in g
  {
    exists i :: 0 <= i < |g[o].members| && MemberHas(g, o, i, w)
  }

  lemma ChainHas(g: Graph, t: Type, of: Type)
    requires Dwarf.Closed(g) && Acyclic(g) && LeafIn(g, t)
    requires t == Qualified(of) || t == Typedef(of) || (t.Array? && t.element == of)
    ensures forall w :: HasScalar(g, t, w) <==> HasScalar(g, of, w)
  {
    hide Dwarf.Closed, Acyclic;
  }

  // ---- Plain layouts ----

  function EndBefore(ends: seq<int>, i: nat): int
    requires i <= |ends|
  {
    if i == 0 then 0 else ends[i - 1]
  }

  /** Where the members end. */
  ghost function Ends(g: Graph, o: Offset): (ends: seq<int>)
    requires o in g && forall i :: 0 <= i < |g[o].members| ==> Understood(g[o].members[i].location)
    ensures |ends| == |g[o].members|
  {
    seq(|g[o].members|, i requires 0 <= i < |g[o].members| =>
      Position(g[o].members[i].location) + ByteSize(g, g[o].members[i].ty))
  }

  /** From e on, the first place that is a multiple of the alignment. */
  predicate FirstFrom(e: int, a: int, at: int)
  {
    a > 0 && e <= at < e + a && at % a == 0
  }

  ghost predicate NextMember(g: Graph, o: Offset, i: nat, e: int)
    requires Dwarf.Closed(g) && Acyclic(g) && o in g && i < |g[o].members|
    requires Understood(g[o].members[i].location)
  {
    Api.InnerHeight(g, o, i);
    exists a :: Widest(g, g[o].members[i].ty, a) && FirstFrom(e, a, Position(g[o].members[i].location))
  }

  /** Each member of a structure lies as early as it can behind the one before it, those of a union at 0, and the
      size is the least that covers them and suits the alignment. */
  ghost predicate PlainAggregate(g: Graph, o: Offset)
    requires Dwarf.Closed(g) && Acyclic(g) && o in g
  {
    && !g[o].isDeclaration && g[o].byteSize > 0 && g[o].members != []
    && (forall i :: 0 <= i < |g[o].members| ==> Declarable(g, g[o].kind, g[o].members[i]))
    && var ends := Ends(g, o);
       && (g[o].kind.Struct? ==> forall i :: 0 <= i < |ends| ==> NextMember(g, o, i, EndBefore(ends, i)))
       && exists a, last :: Widest(g, Aggregate(o), a) && IsLast(g[o].kind, ends, last) && FirstFrom(last, a, g[o].byteSize)
  }

  /** Where the whole ends before it is filled up. */
  ghost predicate IsLast(kind: Kind, ends: seq<int>, last: int) {
    match kind
    case Struct => ends != [] && last == ends[|ends| - 1]
    case Union => last in ends && forall i :: 0 <= i < |ends| ==> ends[i] <= last
  }

  ghost predicate PlainLayout(g: Graph)
    requires Dwarf.Closed(g) && Acyclic(g)
  {
    forall o :: o in g ==> PlainAggregate(g, o)
  }

  // ---- Facts about alignment ----

  lemma {:induction false} PowerWidths(g: Graph, t: Type, w: int)
    requires Dwarf.Closed(g) && Acyclic(g) && LeafIn(g, t) && HasScalar(g, t, w)
    ensures w == 1 || w == 2 || w == 4 || w == 8
    decreases Height(g, t), Length(t)
  {
    hide Dwarf.Closed, Acyclic, Expresses;
    match t
    case Qualified(of) => PowerWidths(g, of, w);
    case Typedef(of) => PowerWidths(g, of, w);
    case Array(element, _) => PowerWidths(g, element, w);
    case Aggregate(o) =>
      var i :| 0 <= i < |g[o].members| && MemberHas(g, o, i, w);
      Api.InnerHeight(g, o, i);
      PowerWidths(g, g[o].members[i].ty, w);
    case _ =>
  }

  lemma WidestUnique(g: Graph, t: Type, a: int, b: int)
    requires Dwarf.Closed(g) && Acyclic(g) && LeafIn(g, t) && Widest(g, t, a) && Widest(g, t, b)
    ensures a == b
  {
    hide Dwarf.Closed, Acyclic, HasScalar;
  }

  /** The alignments of all aggregates. */
  ghost function Alignments(g: Graph): (align: map<Offset, nat>)
    requires Dwarf.Closed(g) && Acyclic(g) && PlainLayout(g)
    ensures align.Keys == g.Keys
    ensures forall o :: o in g ==> IsAlignment(g, o, align[o])
  {
    hide Dwarf.Closed, Acyclic, PlainLayout, Widest;
    map o | o in g :: AlignmentOf(g, o)
  }

  ghost predicate IsAlignment(g: Graph, o: Offset, a: int)
    requires Dwarf.Closed(g) && Acyclic(g) && o in g
  {
    Widest(g, Aggregate(o), a)
  }

  ghost function AlignmentOf(g: Graph, o: Offset): (a: nat)
    requires Dwarf.Closed(g) && Acyclic(g) && PlainLayout(g) && o in g
    ensures IsAlignment(g, o, a)
  {
    assert PlainAggregate(g, o);
    var a :| Widest(g, Aggregate(o), a);
    PowerWidths(g, Aggregate(o), a);
    a
  }

  lemma {:induction false} TrueIsWidest(g: Graph, t: Type)
    requires Dwarf.Closed(g) && Acyclic(g) && PlainLayout(g) && LeafIn(g, t) && Representable(g, t)
    ensures Widest(g, t, TrueAlign(Alignments(g), t))
    decreases Length(t)
  {
    hide Dwarf.Closed, Acyclic, PlainLayout, Expresses, HasScalar;
    match t
    case Qualified(of) =>
      TrueIsWidest(g, of);
      ChainHas(g, t, of);
    case Typedef(of) =>
      TrueIsWidest(g, of);
      ChainHas(g, t, of);
    case Array(element, _) =>
      TrueIsWidest(g, element);
      ChainHas(g, t, element);
    case Aggregate(o) =>
    case _ => ScalarWidest(g, t);
  }

  lemma ScalarWidest(g: Graph, t: Type)
    requires Dwarf.Closed(g) && Acyclic(g) && PlainLayout(g) && Representable(g, t)
    requires t.NoType? || t.Pointer? || t.Base? || t.Enumeration? || t.Exotic?
    ensures LeafIn(g, t) && Widest(g, t, TrueAlign(Alignments(g), t))
  {
    hide Dwarf.Closed, Acyclic, PlainLayout, Encodes;
    var s :| Expresses(t, s);
    if t.Base? {
      EncodedSize(t);
    }
  }

  lemma EncodedSize(t: Type)
    requires t.Base?
    ensures forall s :: Expresses(t, s) ==> s.Size() == t.byteSize
  {
  }

  /** No member is more aligned than its aggregate, and one is as much. */
  lemma MemberNarrower(g: Graph, o: Offset, i: nat, a: int)
    requires Dwarf.Closed(g) && Acyclic(g) && PlainLayout(g) && o in g && i < |g[o].members|
    requires LeafIn(g, g[o].members[i].ty) && Widest(g, g[o].members[i].ty, a)
    ensures a <= Alignments(g)[o]
  {
    hide Dwarf.Closed, Acyclic, PlainLayout;
    AggregateHas(g, o);
    assert MemberHas(g, o, i, a);
    assert HasScalar(g, Aggregate(o), a);
  }

  lemma SomeAsWide(g: Graph, o: Offset) returns (i: nat)
    requires Dwarf.Closed(g) && Acyclic(g) && PlainLayout(g) && o in g
    ensures i < |g[o].members| && LeafIn(g, g[o].members[i].ty)
    ensures Widest(g, g[o].members[i].ty, Alignments(g)[o])
  {
    hide Dwarf.Closed, Acyclic, PlainLayout;
    var a := Alignments(g)[o];
    AggregateHas(g, o);
    assert HasMember(g, o, a);
    i :| 0 <= i < |g[o].members| && MemberHas(g, o, i, a);
    Api.InnerHeight(g, o, i);
    forall w | HasScalar(g, g[o].members[i].ty, w)
      ensures w <= a
    {
      assert MemberHas(g, o, i, w);
      assert HasScalar(g, Aggregate(o), w);
    }
  }

  // ---- A plain layout is not packed ----

  lemma Powers(a: int, b: int)
    requires a == 1 || a == 2 || a == 4 || a == 8
    requires b == 1 || b == 2 || b == 4 || b == 8
    requires a <= b
    ensures b % a == 0
  {
  }

  lemma {:induction false} TimesNat(ranges: seq<Subrange>, w: int)
    requires w >= 0
    ensures TimesElements(ranges, w) >= 0
  {
    if ranges == [] {
    } else {
      TimesNat(ranges[1..], w);
    }
  }

  lemma {:induction false} SizeNat(g: Graph, t: Type)
    requires Representable(g, t)
    ensures ByteSize(g, t) >= 0
    decreases Length(t)
  {
    match t
    case Qualified(of) => SizeNat(g, of);
    case Typedef(of) => SizeNat(g, of);
    case Array(element, ranges) =>
      SizeNat(g, element);
      TimesNat(ranges, ByteSize(g, element));
    case Base(_, _) => EncodedSize(t);
    case _ =>
  }

  /** What a plain aggregate says of one member. */
  lemma MemberPlain(g: Graph, o: Offset, i: nat)
    requires Dwarf.Closed(g) && Acyclic(g) && PlainLayout(g) && o in g && i < |g[o].members|
    ensures var m := g[o].members[i];
      && LeafIn(g, m.ty) && Declarable(g, g[o].kind, m) && ByteSize(g, m.ty) >= 0
      && Widest(g, m.ty, TrueAlign(Alignments(g), m.ty)) && 0 < TrueAlign(Alignments(g), m.ty)
      && Alignments(g)[o] % TrueAlign(Alignments(g), m.ty) == 0 && Alignments(g)[o] > 0
  {
    hide Dwarf.Closed, Acyclic, Widest, Declarable, ByteSize, TrueAlign;
    var m := g[o].members[i];
    Api.InnerHeight(g, o, i);
    assert PlainAggregate(g, o);
    DeclarableType(g, g[o].kind, m);
    SizeNat(g, m.ty);
    TrueIsWidest(g, m.ty);
    var a, b := TrueAlign(Alignments(g), m.ty), Alignments(g)[o];
    MemberNarrower(g, o, i, a);
    WidestPower(g, m.ty, a);
    WidestPower(g, Aggregate(o), b);
    Powers(a, b);
  }

  lemma DeclarableType(g: Graph, kind: Kind, m: MemberDie)
    requires Declarable(g, kind, m)
    ensures Representable(g, m.ty) && Understood(m.location) && (kind.Union? ==> Position(m.location) == 0)
  {
  }

  lemma WidestPower(g: Graph, t: Type, a: int)
    requires Dwarf.Closed(g) && Acyclic(g) && LeafIn(g, t) && Widest(g, t, a)
    ensures a == 1 || a == 2 || a == 4 || a == 8
  {
    PowerWidths(g, t, a);
  }

  /** The places of a plain structure. */
  ghost predicate PlacedPlainly(g: Graph, o: Offset, i: nat)
    requires Dwarf.Closed(g) && Acyclic(g) && PlainLayout(g) && o in g && i < |g[o].members|
    requires forall k :: 0 <= k < |g[o].members| ==> Understood(g[o].members[k].location)
  {
    FirstFrom(EndBefore(Ends(g, o), i), TrueAlign(Alignments(g), g[o].members[i].ty), Position(g[o].members[i].location))
  }

  lemma AllPlain(g: Graph, o: Offset)
    requires Dwarf.Closed(g) && Acyclic(g) && PlainLayout(g) && o in g
    ensures forall i :: 0 <= i < |g[o].members| ==> Understood(g[o].members[i].location)
    ensures g[o].kind.Struct? ==> forall i :: 0 <= i < |g[o].members| ==> PlacedPlainly(g, o, i)
    ensures exists last :: IsLast(g[o].kind, Ends(g, o), last) && FirstFrom(last, Alignments(g)[o], g[o].byteSize)
  {
    hide Dwarf.Closed, Acyclic, Widest, Declarable, ByteSize, TrueAlign, IsLast, FirstFrom;
    assert PlainAggregate(g, o);
    forall i | 0 <= i < |g[o].members|
      ensures Understood(g[o].members[i].location)
    {
      DeclarableType(g, g[o].kind, g[o].members[i]);
    }
    var a, last :| Widest(g, Aggregate(o), a) && IsLast(g[o].kind, Ends(g, o), last) && FirstFrom(last, a, g[o].byteSize);
    WidestUnique(g, Aggregate(o), a, Alignments(g)[o]);
    if g[o].kind.Struct? {
      forall i | 0 <= i < |g[o].members|
        ensures PlacedPlainly(g, o, i)
      {
        MemberPlain(g, o, i);
        assert NextMember(g, o, i, EndBefore(Ends(g, o), i));
        var b :| Widest(g, g[o].members[i].ty, b) &&
          FirstFrom(EndBefore(Ends(g, o), i), b, Position(g[o].members[i].location));
        WidestUnique(g, g[o].members[i].ty, b, TrueAlign(Alignments(g), g[o].members[i].ty));
      }
    }
  }

  /** Members follow each other. */
  lemma {:induction false} EndsGrow(g: Graph, o: Offset, i: nat, j: nat)
    requires Dwarf.Closed(g) && Acyclic(g) && PlainLayout(g) && o in g && g[o].kind.Struct?
    requires i <= j <= |g[o].members|
    requires forall k :: 0 <= k < |g[o].members| ==> Understood(g[o].members[k].location)
    ensures EndBefore(Ends(g, o), i) <= EndBefore(Ends(g, o), j)
    ensures EndBefore(Ends(g, o), i) >= 0
    decreases j
  {
    hide Dwarf.Closed, Acyclic, PlainLayout, Widest, Declarable, ByteSize, TrueAlign;
    if j == 0 {
    } else {
      AllPlain(g, o);
      MemberPlain(g, o, j - 1);
      assert PlacedPlainly(g, o, j - 1);
      EndsGrow(g, o, if i == j then j - 1 else i, j - 1);
    }
  }

  lemma PlainNotPacked(g: Graph)
    requires Dwarf.Closed(g) && Acyclic(g) && PlainLayout(g)
    ensures NonPacked(g, Alignments(g))
  {
    hide Dwarf.Closed, Acyclic, PlainLayout, Widest, Declarable, ByteSize, TrueAlign, Understood, Position;
    var align := Alignments(g);
    forall o | o in g
      ensures align[o] > 0 && g[o].byteSize % align[o] == 0
    {
      AllPlain(g, o);
    }
    forall o, i | o in g && 0 <= i < |g[o].members| && Declarable(g, g[o].kind, g[o].members[i])
      ensures Understood(g[o].members[i].location) && WellAligned(g, align, o, g[o].members[i])
    {
      AlignedPlainly(g, o, i);
    }
    forall o, i, j | o in g && g[o].kind.Struct? && 0 <= i < j < |g[o].members|
      ensures Understood(g[o].members[i].location) && Understood(g[o].members[j].location)
      ensures Before(g, g[o].members[i], g[o].members[j])
    {
      AllPlain(g, o);
      EndsGrow(g, o, i + 1, j);
      assert PlacedPlainly(g, o, j);
    }
    DeclarableUnderstood(g);
  }

  lemma DeclarableUnderstood(g: Graph)
    ensures forall kind, m :: Declarable(g, kind, m) ==> Understood(m.location)
  {
  }

  lemma AlignedPlainly(g: Graph, o: Offset, i: nat)
    requires Dwarf.Closed(g) && Acyclic(g) && PlainLayout(g) && o in g && i < |g[o].members|
    ensures Understood(g[o].members[i].location) && WellAligned(g, Alignments(g), o, g[o].members[i])
  {
    hide Dwarf.Closed, Acyclic, PlainLayout, Widest, ByteSize, TrueAlign, Representable;
    AllPlain(g, o);
    MemberPlain(g, o, i);
    var ends := Ends(g, o);
    var last :| IsLast(g[o].kind, ends, last) && FirstFrom(last, Alignments(g)[o], g[o].byteSize);
    if g[o].kind.Struct? {
      EndsGrow(g, o, i, i);
      EndsGrow(g, o, i + 1, |ends|);
      assert PlacedPlainly(g, o, i);
    } else {
      assert ends[i] <= last;
    }
  }

  // ---- Nothing to repair ----

  /** The definitions named so far have the size and the alignment that DWARF gives. */
  ghost predicate Alike(g: Graph, st: State, align: map<Offset, nat>, known: Layouts, done: seq<string>) {
    forall o :: o in st.tags && o in g && o in align && st.tags[o] in done ==>
      st.tags[o] in known && known[st.tags[o]].size == g[o].byteSize && known[st.tags[o]].align == align[o]
  }

  lemma AlikeFaithful(g: Graph, st: State, align: map<Offset, nat>, known: Layouts, done: seq<string>)
    requires Alike(g, st, align, known, done)
    ensures Faithful(g, st, align, known, done)
  {
    forall o | o in st.tags && o in g && o in align && st.tags[o] in done
      ensures align[o] % known[st.tags[o]].align == 0
    {
      Multiple(align[o], known[st.tags[o]].align, 1);
    }
  }

  lemma {:induction false} TypeAlike(g: Graph, st: State, align: map<Offset, nat>, known: Layouts, done: seq<string>, t: Type)
    requires Alike(g, st, align, known, done) && align.Keys == g.Keys
    requires Declared(g, st.tags, t).Some?
    requires var c := Declared(g, st.tags, t).value.ctype; c.Tagged? ==> c.tag in done
    ensures TypeAlign(Declared(g, st.tags, t).value.ctype, known) == TrueAlign(align, t)
    decreases Length(t)
  {
    hide Emittable;
    match t
    case Qualified(of) => TypeAlike(g, st, align, known, done, of);
    case Typedef(of) => TypeAlike(g, st, align, known, done, of);
    case Array(element, _) => TypeAlike(g, st, align, known, done, element);
    case _ =>
  }

  lemma {:induction false} AllKept(g: Graph, tags: map<Offset, string>, ms: seq<MemberDie>)
    requires forall i :: 0 <= i < |ms| ==> Kept(g, tags, ms[i])
    ensures |KeptMembers(g, tags, ms)| == |ms|
    ensures forall i :: 0 <= i < |ms| ==> KeptMembers(g, tags, ms)[i] == KeptMember(g, tags, ms[i])
  {
    hide Kept, KeptMember;
    if ms == [] {
    } else {
      AllKept(g, tags, ms[..|ms| - 1]);
    }
  }

  lemma {:induction false} AtLeastEach(ms: seq<Header.Member>, i: nat, known: Layouts)
    requires i < |ms|
    ensures TypeAlign(ms[i].ctype, known) <= MembersAlign(ms, known)
  {
    hide TypeAlign;
    if i == 0 {
    } else {
      AtLeastEach(ms[1..], i - 1, known);
    }
  }

  /** Every member is declared, with the alignment and the size that DWARF gives its type. */
  lemma MemberKept(g: Graph, st: State, known: Layouts, done: seq<string>, o: Offset, i: nat)
    requires Dwarf.Closed(g) && Acyclic(g) && PlainLayout(g) && Alike(g, st, Alignments(g), known, done)
    requires Reached(g, st, Alignments(g), known, done, o) && i < |g[o].members|
    ensures Kept(g, st.tags, g[o].members[i])
    ensures var d, m := st.structs[st.tags[o]], KeptMember(g, st.tags, g[o].members[i]);
      && Understood(g[o].members[i].location) && m.offset == Position(g[o].members[i].location) && m in d.members
      && TypeAlign(m.ctype, known) == TrueAlign(Alignments(g), g[o].members[i].ty)
      && DeclaredSize(m.ctype, m.dims, known) == ByteSize(g, g[o].members[i].ty)
  {
    hide Dwarf.Closed, Acyclic, PlainLayout, Declared, DecodedOffset, HasIdentifier, Representable, NonPacked, Sane, Fresh,
      ByteSize, DeclaredSize, TypeAlign, TrueAlign, Widest, LeafTagged, Understood, Position, Emittable, Faithful, Alike;
    var die := g[o].members[i];
    MemberPlain(g, o, i);
    assert LeafTagged(g, st.tags, die.ty);
    RepresentableExactly(g, st.tags, die.ty);
    DecodedExactly(die.location);
    var m := KeptMember(g, st.tags, die);
    KeptInto(g, st.tags, g[o].members, i);
    AtOffsetZeroSubset(KeptMembers(g, st.tags, g[o].members), m);
    assert m in st.structs[st.tags[o]].members;
    TypeAlike(g, st, Alignments(g), known, done, die.ty);
    MemberPlaced(g, st, Alignments(g), known, done, o, i);
  }

  /** Every declared member comes from one in DWARF, or pins the size of a union. */
  lemma FromMember(g: Graph, st: State, known: Layouts, done: seq<string>, o: Offset, m: Header.Member) returns (i: nat)
    requires Dwarf.Closed(g) && Acyclic(g) && PlainLayout(g)
    requires Reached(g, st, Alignments(g), known, done, o) && m in st.structs[st.tags[o]].members
    requires m != UnionPad(g[o].byteSize)
    ensures i < |g[o].members| && Kept(g, st.tags, g[o].members[i]) && m == KeptMember(g, st.tags, g[o].members[i])
  {
    hide Dwarf.Closed, Acyclic, PlainLayout, NonPacked, Faithful, Kept, KeptMember, Sane, Fresh, AllTagged;
    AtOffsetZeroSubset(KeptMembers(g, st.tags, g[o].members), m);
    i := KeptFrom(g, st.tags, g[o].members, m);
  }

  lemma SameAlignment(g: Graph, st: State, known: Layouts, done: seq<string>, o: Offset)
    requires Dwarf.Closed(g) && Acyclic(g) && PlainLayout(g) && Alike(g, st, Alignments(g), known, done)
    requires Reached(g, st, Alignments(g), known, done, o)
    ensures MembersAlign(st.structs[st.tags[o]].members, known) == Alignments(g)[o]
  {
    hide Dwarf.Closed, Acyclic, PlainLayout, Alike, Kept, KeptMember, TypeAlign, TrueAlign, Widest, ByteSize, Faithful,
      Declarable, Understood, Position, MembersAlign, UnionPad, NonPacked, Listed, NamesOnly, Sane, Fresh;
    var ms, align := st.structs[st.tags[o]].members, Alignments(g)[o];
    var i := SomeAsWide(g, o);
    MemberKept(g, st, known, done, o, i);
    MemberPlain(g, o, i);
    WidestUnique(g, g[o].members[i].ty, align, TrueAlign(Alignments(g), g[o].members[i].ty));
    var j :| 0 <= j < |ms| && ms[j] == KeptMember(g, st.tags, g[o].members[i]);
    AtLeastEach(ms, j, known);
    AlignAttained(ms, known);
    if MembersAlign(ms, known) != 1 {
      var k :| 0 <= k < |ms| && MembersAlign(ms, known) == TypeAlign(ms[k].ctype, known);
      if ms[k] == UnionPad(g[o].byteSize) {
        PadNarrow(g[o].byteSize, known);
      } else {
        var l := FromMember(g, st, known, done, o, ms[k]);
        MemberKept(g, st, known, done, o, l);
        MemberPlain(g, o, l);
        MemberNarrower(g, o, l, TrueAlign(Alignments(g), g[o].members[l].ty));
      }
    }
  }

  lemma PadNarrow(size: Positive, known: Layouts)
    ensures TypeAlign(UnionPad(size).ctype, known) == 1
  {
  }

  /** Padding up to the next place is none when a member is there already. */
  lemma NoGap(e: nat, a: Alignment, at: int)
    requires FirstFrom(e, a, at)
    ensures AlignUp(e, a) == at
  {
    LeastMultiple(e, a, at);
  }

  lemma StructExact(g: Graph, st: State, known: Layouts, done: seq<string>, o: Offset)
    requires Dwarf.Closed(g) && Acyclic(g) && PlainLayout(g) && Alike(g, st, Alignments(g), known, done)
    requires Reached(g, st, Alignments(g), known, done, o) && g[o].kind.Struct?
    ensures var d := st.structs[st.tags[o]];
      Gaps(d, known) == {} && TailCount(d, known) == 0
  {
    hide Dwarf.Closed, Acyclic, PlainLayout, Alike, Kept, KeptMember, TypeAlign, TrueAlign, Widest, ByteSize, Faithful,
      Declarable, Understood, Position, MembersAlign, DeclaredSize, AlignUp, NonPacked, Sane, Fresh, AllTagged, FirstFrom;
    var d := st.structs[st.tags[o]];
    AllPlain(g, o);
    forall i | 0 <= i < |g[o].members|
      ensures Kept(g, st.tags, g[o].members[i])
    {
      MemberKept(g, st, known, done, o, i);
    }
    AllKept(g, st.tags, g[o].members);
    forall i | 0 <= i < |d.members|
      ensures End(d.members[i], known) == Ends(g, o)[i]
    {
      MemberKept(g, st, known, done, o, i);
    }
    forall i | 0 <= i < |d.members|
      ensures Gap(d, i, known) == 0
    {
      MemberKept(g, st, known, done, o, i);
      EndsGrow(g, o, i, i);
      assert PlacedPlainly(g, o, i);
      NoGap(PreviousEnd(d, i, known), TypeAlign(d.members[i].ctype, known), d.members[i].offset);
    }
    SameAlignment(g, st, known, done, o);
    EndsGrow(g, o, |d.members|, |d.members|);
    NoGap(PreviousEnd(d, |d.members|, known), MembersAlign(d.members, known), d.size);
  }

  // ---- The whole header ----

  lemma {:induction false} NoGapsFrom(g: Graph, st: State, known: Layouts, k: nat)
    requires Dwarf.Closed(g) && Acyclic(g) && PlainLayout(g) && NonPacked(g, Alignments(g))
    requires Invariant(g, st, {}) && k <= |st.order| && OrderKnown(st)
    requires Alike(g, st, Alignments(g), known, st.order[..k])
    ensures AllGaps(Ordered(st)[k..], known) == 0
    decreases |st.order| - k
  {
    hide Dwarf.Closed, Acyclic, PlainLayout, Emittable, Sane, Fresh, NonPacked, Alike, Faithful, Invariant, WellPlaced,
      LayoutOf, Padded, MembersAlign, Listed, NamesOnly, Gaps, TailGap;
    if k == |st.order| {
    } else {
      var o := OwnerOf(g, st, k);
      var d, align := Ordered(st)[k], Alignments(g);
      AlikeFaithful(g, st, align, known, st.order[..k]);
      ReachedAt(g, st, align, known, k, o);
      if g[o].kind.Struct? {
        StructPlaced(g, st, align, known, st.order[..k], o);
        StructExact(g, st, known, st.order[..k], o);
      } else {
        UnionPlaced(g, st, align, known, st.order[..k], o);
      }
      ClosedLayout(d, known);
      SameAlignment(g, st, known, st.order[..k], o);
      var next := known[d.tag := LayoutOf(Padded(d, known), known)];
      AlikeNext(g, st, align, known, next, k, o);
      NoGapsFrom(g, st, next, k + 1);
      assert Ordered(st)[k..][1..] == Ordered(st)[k + 1..];
    }
  }

  lemma AlikeNext(g: Graph, st: State, align: map<Offset, nat>, known: Layouts, next: Layouts, k: nat, o: Offset)
    requires Invariant(g, st, {}) && k < |st.order| && o in st.tags && o in g && o in align && st.tags[o] == st.order[k]
    requires Alike(g, st, align, known, st.order[..k])
    requires st.order[k] in next && next == known[st.order[k] := next[st.order[k]]]
    requires next[st.order[k]].size == g[o].byteSize && next[st.order[k]].align == align[o]
    ensures Alike(g, st, align, next, st.order[..k + 1])
  {
    hide Contents, Unrepaired, DependencyOrder, Acyclic, Emittable;
    forall p | p in st.tags && p in g && p in align && st.tags[p] in st.order[..k + 1]
      ensures st.tags[p] in next && next[st.tags[p]].size == g[p].byteSize && next[st.tags[p]].align == align[p]
    {
      if st.tags[p] == st.order[k] {
        assert p == o;
      } else {
        assert st.tags[p] in st.order[..k];
      }
    }
  }

  /** DWARF of a plain C layout, with nothing dropped, needs no repair at all. */
  lemma PlainNeedsNothing(g: Graph, st: State)
    requires Dwarf.Closed(g) && Acyclic(g) && PlainLayout(g) && Invariant(g, st, {})
    ensures OrderKnown(st) && AllSane(Ordered(st)) && RemainingAll(Ordered(st), map[]) == 0
  {
    hide Dwarf.Closed, Acyclic, PlainLayout, Invariant, NonPacked, AllWellPlaced, AllGaps, AllFresh, AllSane, DistinctTags,
      RemainingAll;
    PlainNotPacked(g);
    NothingGetsOpaque(g, st, Alignments(g));
    WalkReady(g, st);
    assert Ordered(st)[0..] == Ordered(st) && st.order[..0] == [];
    NoGapsFrom(g, st, map[], 0);
  }
}
