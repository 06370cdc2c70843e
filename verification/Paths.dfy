/** Access paths: in an exact header every path reaches the bytes that DWARF says it reaches, and the header has
    exactly the paths through members it declares. */
module Paths {
  import opened Dwarf
  import opened Header
  import opened Offsets
  import opened Meaning
  import opened Repair
  import opened Fixpoint
  import opened Walk
  import opened WalkFacts
  import opened Declarators

  datatype Access = Member(name: string) | Index(i: nat)

  /** What is at the end of a path: so many bytes, or a scalar. */
  datatype Found = Bytes(count: int) | Value(scalar: Scalar)

  // ---- Paths in DWARF ----

  /** Where element i of an array begins. */
  function ElementAt(i: nat, stride: int): int {
    i * stride
  }

  ghost function ByteSize(g: Graph, t: Type): int {
    match t
    case Pointer => 8
    case Base(_, size) => size
    case Enumeration(size) => if size == 0 then 4 else size
    case Qualified(of) => ByteSize(g, of)
    case Typedef(of) => ByteSize(g, of)
    case Array(element, ranges) => TimesElements(ranges, ByteSize(g, element))
    case Aggregate(o) => if o in g then g[o].byteSize else 0
    case _ => 0
  }

  /** A member of an aggregate that the header declares, by DWARF alone: it has a name, is no bitfield, has a type
      that C can express, and, in a union, lies at offset 0. */
  ghost predicate Declarable(g: Graph, kind: Kind, m: MemberDie) {
    && HasIdentifier(m.name)
    && m.bitSize.None? && Representable(g, m.ty)
    && Understood(m.location)
    && (kind.Union? ==> Position(m.location) == 0)
  }

  /** The extractor's own name for the member that pins the size of a union leads nowhere. */
  ghost predicate InHeader(g: Graph, kind: Kind, m: MemberDie) {
    Declarable(g, kind, m) && m.name.value != UNION_PAD
  }

  /** In an array of t with these ranges, the path leads to offset `off` and to what is found there.  Aggregates
      outside `visible` are not entered, nor are members that the header does not declare. */
  ghost predicate DwarfReaches(g: Graph, visible: set<Offset>, t: Type, ranges: seq<Subrange>,
                               path: seq<Access>, off: int, found: Found)
    decreases |path|, Length(t)
  {
    if path == [] then off == 0 && DwarfFinds(g, t, ranges, found)
    else if ranges != [] then
      path[0].Index? && Within(ranges[0], path[0].i) &&
      var stride := TimesElements(ranges[1..], ByteSize(g, t));
      DwarfReaches(g, visible, t, ranges[1..], path[1..], off - ElementAt(path[0].i, stride), found)
    else
      match t
      case Qualified(of) => DwarfReaches(g, visible, of, [], path, off, found)
      case Typedef(of) => DwarfReaches(g, visible, of, [], path, off, found)
      case Array(element, inner) => HasElements(inner) && DwarfReaches(g, visible, element, inner, path, off, found)
      case Aggregate(o) =>
        o in g && o in visible && path[0].Member? &&
        exists j :: 0 <= j < |g[o].members| && DwarfEnters(g, visible, g[o].kind, g[o].members[j], path, off, found)
      case _ => false
  }

  ghost predicate DwarfFinds(g: Graph, t: Type, ranges: seq<Subrange>, found: Found) {
    match found
    case Bytes(count) => count == TimesElements(ranges, ByteSize(g, t))
    case Value(s) => ranges == [] && Expresses(Resolved(t), s)
  }

  ghost predicate DwarfEnters(g: Graph, visible: set<Offset>, kind: Kind, m: MemberDie,
                              path: seq<Access>, off: int, found: Found)
    requires path != [] && path[0].Member?
    decreases |path|, 0, 0
  {
    && InHeader(g, kind, m) && m.name.value == path[0].name
    && DwarfReaches(g, visible, m.ty, [], path[1..], off - Position(m.location), found)
  }

  // ---- Paths in the header ----

  /** The same for a C declarator, in a header with these definitions and layouts. */
  ghost predicate HeaderReaches(defs: map<string, Definition>, layouts: Layouts, c: CType, dims: seq<Positive>,
                                path: seq<Access>, off: int, found: Found)
    decreases |path|, 1
  {
    if path == [] then off == 0 && HeaderFinds(layouts, c, dims, found)
    else if dims != [] then
      path[0].Index? && path[0].i < dims[0] &&
      HeaderReaches(defs, layouts, c, dims[1..], path[1..],
                    off - ElementAt(path[0].i, DeclaredSize(c, dims[1..], layouts)), found)
    else
      && c.Tagged? && c.tag in defs && c.tag in layouts && path[0].Member?
      && var d := defs[c.tag];
         && !d.opaqueBytes && |layouts[c.tag].offsets| == |d.members|
         && exists i :: 0 <= i < |d.members| &&
              HeaderEnters(defs, layouts, d.members[i], layouts[c.tag].offsets[i], path, off, found)
  }

  ghost predicate HeaderFinds(layouts: Layouts, c: CType, dims: seq<Positive>, found: Found) {
    match found
    case Bytes(count) => count == DeclaredSize(c, dims, layouts)
    case Value(s) => dims == [] && c == CType.Plain(s)
  }

  ghost predicate HeaderEnters(defs: map<string, Definition>, layouts: Layouts, m: Header.Member, at: nat,
                               path: seq<Access>, off: int, found: Found)
    requires path != [] && path[0].Member?
    decreases |path|, 0
  {
    && m.name != UNION_PAD && m.name == path[0].name
    && HeaderReaches(defs, layouts, m.ctype, m.dims, path[1..], off - at, found)
  }

  // ---- An exact header ----

  /** The header as it is after a normal return: the walk's contents, verified. */
  ghost predicate Verified(g: Graph, st: State) {
    && TagsMatch(g, st) && Contents(g, st, {}) && OrderMatches(st, {})
    && OrderKnown(st) && AllSane(Ordered(st)) && Exact(Ordered(st))
  }

  lemma {:induction false} NoMismatch(defs: seq<Definition>, known: Layouts, k: nat)
    requires AllSane(defs) && FirstMismatch(defs, known).None? && k < |defs|
    ensures var l := LayoutOf(defs[k], LayoutAll(defs[..k], known));
      && (SizeOnly(defs[k]) || |l.offsets| == |defs[k].members|)
      && Compare(defs[k], l).None?
  {
    hide LayoutOf, Compare, Sane;
    var d := defs[0];
    RepairOne(d, known);
    if k == 0 {
    } else {
      NoMismatch(defs[1..], known[d.tag := LayoutOf(d, known)], k - 1);
      assert defs[..k][1..] == defs[1..][..k - 1];
    }
  }

  lemma {:induction false} NoBadMember(d: Definition, offsets: seq<nat>, i: nat, j: nat)
    requires i <= j < |d.members| == |offsets| && FirstBadMember(d, offsets, i).None?
    ensures offsets[j] == d.members[j].offset
    decreases |d.members| - i
  {
    if i == j {
    } else {
      NoBadMember(d, offsets, i + 1, j);
    }
  }

  /** What exactness says of one definition. */
  ghost predicate ExactLayout(d: Definition, l: Layout) {
    && l.size == d.size
    && (!d.opaqueBytes ==>
          |l.offsets| == |d.members| && forall i :: 0 <= i < |d.members| ==> l.offsets[i] == d.members[i].offset)
  }

  lemma ComparedExact(d: Definition, known: Layouts)
    requires Sane(d)
    requires SizeOnly(d) || |LayoutOf(d, known).offsets| == |d.members|
    requires Compare(d, LayoutOf(d, known)).None?
    requires d.kind.Union? ==> forall i :: 0 <= i < |d.members| ==> d.members[i].offset == 0
    ensures ExactLayout(d, LayoutOf(d, known))
  {
    hide LayoutOf, Sane;
    var l := LayoutOf(d, known);
    if !d.opaqueBytes {
      if d.kind.Union? {
        UnionLayout(d, known);
      } else {
        forall i | 0 <= i < |d.members|
          ensures l.offsets[i] == d.members[i].offset
        {
          NoBadMember(d, l.offsets, 0, i);
        }
      }
    }
  }

  lemma UnionAtZero(size: nat, ms: seq<Header.Member>, i: nat)
    requires size > 0 && i < |Finished(Union, size, ms)|
    ensures Finished(Union, size, ms)[i].offset == 0
  {
    var kept := AtOffsetZero(ms);
    if i < |kept| {
      AtOffsetZeroSubset(ms, kept[i]);
    }
  }

  lemma TagsDiffer(st: State)
    requires OrderKnown(st) && OrderMatches(st, {}) && forall t :: t in st.structs ==> st.structs[t].tag == t
    ensures DistinctTags(Ordered(st))
  {
  }

  lemma OwnTags(g: Graph, st: State, t: string)
    requires TagsMatch(g, st) && Contents(g, st, {}) && t in st.structs
    ensures st.structs[t].tag == t
  {
    hide Emittable, Listed;
    var o :| o in st.tags && st.tags[o] == t;
  }

  /** The layouts that a compiler gives the header. */
  ghost function HeaderLayouts(g: Graph, st: State): Layouts
    requires Verified(g, st)
  {
    LayoutAll(Ordered(st), map[])
  }

  /** Every aggregate with a tag is laid out as DWARF says. */
  lemma LaidOut(g: Graph, st: State, o: Offset)
    requires Verified(g, st) && o in st.tags
    ensures o in g && st.tags[o] in st.structs && st.tags[o] in HeaderLayouts(g, st)
    ensures ExactLayout(st.structs[st.tags[o]], HeaderLayouts(g, st)[st.tags[o]])
  {
    hide LayoutOf, Compare, Sane, Emittable, FirstMismatch, LayoutAll, AllTagged, KeptMembers, ExactLayout, Finished;
    var tag, defs := st.tags[o], Ordered(st);
    assert tag in st.order;
    var k :| 0 <= k < |st.order| && st.order[k] == tag;
    var d := defs[k];
    assert d == st.structs[tag];
    forall t | t in st.structs ensures st.structs[t].tag == t { OwnTags(g, st, t); }
    TagsDiffer(st);
    NoMismatch(defs, map[], k);
    LayoutAt(defs, map[], k);
    if d.kind.Union? {
      SaneSize(d);
      forall i | 0 <= i < |d.members|
        ensures d.members[i].offset == 0
      {
        UnionAtZero(d.size, KeptMembers(g, st.tags, g[o].members), i);
      }
    }
    ComparedExact(d, LayoutAll(defs[..k], map[]));
  }

  lemma SaneSize(d: Definition)
    requires Sane(d)
    ensures d.size > 0
  {
  }

  // ---- Sizes ----

  lemma {:induction false} ProductOfBoth(a: seq<Positive>, b: seq<Positive>)
    ensures Product(a + b) == Product(a) * Product(b)
  {
    if a == [] {
      assert a + b == b;
    } else {
      ProductOfBoth(a[1..], b);
      assert (a + b)[1..] == a[1..] + b;
      Associates(a[0], Product(a[1..]), Product(b));
    }
  }

  lemma Associates(x: int, y: int, z: int)
    ensures x * (y * z) == (x * y) * z
  {
  }

  /** The bounds and the ranges count the same elements. */
  lemma {:induction false} TimesIsProduct(ranges: seq<Subrange>, dims: seq<Positive>, w: int)
    requires Bounds(ranges, dims)
    ensures TimesElements(ranges, w) == Product(dims) * w
  {
    hide Within;
    if ranges == [] {
    } else {
      assert Counts(ranges[0], dims[0]);
      CountUnique(ranges[0], Elements(ranges[0]), dims[0]);
      TimesIsProduct(ranges[1..], dims[1..], w);
      Associates(dims[0], Product(dims[1..]), w);
    }
  }

  lemma DimsBound(ranges: seq<Subrange>)
    requires AllPositive(ArrayDims(ranges))
    ensures HasElements(ranges) && Bounds(ranges, ArrayDims(ranges))
  {
    PositiveExactly(ranges);
    BoundsExactly(ranges, ArrayDims(ranges));
  }

  /** A declared type has the width that DWARF gives it. */
  lemma {:induction false} SizesAgree(g: Graph, st: State, t: Type)
    requires Verified(g, st) && Declared(g, st.tags, t).Some?
    ensures var d := Declared(g, st.tags, t).value;
      DeclaredSize(d.ctype, d.dims, HeaderLayouts(g, st)) == ByteSize(g, t)
    decreases Length(t)
  {
    hide Verified, HeaderLayouts, Emittable, Within, ArrayDims;
    match t
    case Array(element, ranges) =>
      SizesAgree(g, st, element);
      var dims, inner := ArrayDims(ranges), Declared(g, st.tags, element).value;
      DimsBound(ranges);
      ArraySize(dims, inner, HeaderLayouts(g, st));
      TimesIsProduct(ranges, dims, ByteSize(g, element));
    case Qualified(of) => SizesAgree(g, st, of);
    case Typedef(of) => SizesAgree(g, st, of);
    case Aggregate(o) =>
      LaidOut(g, st, o);
      TaggedSize(g, st, o);
    case _ =>
  }

  lemma ArraySize(dims: seq<Positive>, inner: Declarator, known: Layouts)
    ensures DeclaredSize(inner.ctype, dims + inner.dims, known) ==
            Product(dims) * DeclaredSize(inner.ctype, inner.dims, known)
  {
    ProductOfBoth(dims, inner.dims);
    Associates(Product(dims), Product(inner.dims), TypeSize(inner.ctype, known));
  }

  lemma TaggedSize(g: Graph, st: State, o: Offset)
    requires Verified(g, st) && o in st.tags
    ensures o in g && st.tags[o] in st.structs && st.structs[st.tags[o]].size == g[o].byteSize
  {
    hide Exact, Sane, Listed, Emittable;
  }

  lemma StrideAgrees(g: Graph, st: State, t: Type, ranges: seq<Subrange>, dims: seq<Positive>)
    requires Verified(g, st) && Declared(g, st.tags, t).Some? && Bounds(ranges, dims)
    ensures var d := Declared(g, st.tags, t).value;
      DeclaredSize(d.ctype, dims + d.dims, HeaderLayouts(g, st)) == TimesElements(ranges, ByteSize(g, t))
  {
    hide Verified, HeaderLayouts, Declared, ByteSize, DeclaredSize, TimesElements, Product;
    SizesAgree(g, st, t);
    ArraySize(dims, Declared(g, st.tags, t).value, HeaderLayouts(g, st));
    TimesIsProduct(ranges, dims, ByteSize(g, t));
  }

  // ---- Members ----

  lemma {:induction false} KeptInto(g: Graph, tags: map<Offset, string>, ms: seq<MemberDie>, j: nat)
    requires j < |ms| && Kept(g, tags, ms[j])
    ensures KeptMember(g, tags, ms[j]) in KeptMembers(g, tags, ms)
  {
    hide Kept, KeptMember;
    var n := |ms| - 1;
    if j == n {
    } else {
      KeptInto(g, tags, ms[..n], j);
    }
  }

  /** The declared members of a definition are the members in DWARF that the header can declare. */
  lemma MemberOrigin(g: Graph, st: State, o: Offset, m: Header.Member) returns (j: nat)
    requires Verified(g, st) && o in st.tags && o in g && st.tags[o] in st.structs
    requires m in st.structs[st.tags[o]].members && m.name != UNION_PAD
    ensures j < |g[o].members|
    ensures var die := g[o].members[j];
      && LeafTagged(g, st.tags, die.ty) && InHeader(g, g[o].kind, die)
      && Kept(g, st.tags, die) && m == KeptMember(g, st.tags, die)
  {
    hide Exact, Sane, Declared, DecodedOffset, Representable, OrderMatches, LeafTagged, Understood, Position;
    var kept := KeptMembers(g, st.tags, g[o].members);
    AtOffsetZeroSubset(kept, m);
    assert m in kept;
    j := KeptFrom(g, st.tags, g[o].members, m);
    RepresentableExactly(g, st.tags, g[o].members[j].ty);
    DecodedExactly(g[o].members[j].location);
  }

  lemma MemberDeclared(g: Graph, st: State, o: Offset, j: nat) returns (m: Header.Member)
    requires Verified(g, st) && o in st.tags && o in g && st.tags[o] in st.structs
    requires j < |g[o].members| && InHeader(g, g[o].kind, g[o].members[j])
    ensures var die := g[o].members[j];
      && LeafTagged(g, st.tags, die.ty) && Kept(g, st.tags, die)
      && m == KeptMember(g, st.tags, die) && m in st.structs[st.tags[o]].members
  {
    hide Exact, Sane, Declared, DecodedOffset, Representable, OrderMatches, LeafTagged, Understood, Position;
    var die := g[o].members[j];
    RepresentableExactly(g, st.tags, die.ty);
    DecodedExactly(die.location);
    m := KeptMember(g, st.tags, die);
    KeptInto(g, st.tags, g[o].members, j);
    AtOffsetZeroSubset(KeptMembers(g, st.tags, g[o].members), m);
  }

  // ---- The main result ----

  ghost function Visible(st: State): set<Offset> {
    set o | o in st.tags && st.tags[o] in st.structs && !st.structs[st.tags[o]].opaqueBytes
  }

  lemma HeaderStep(defs: map<string, Definition>, layouts: Layouts, c: CType, dims: seq<Positive>,
                   path: seq<Access>, off: int, found: Found)
    ensures path == [] ==>
      (HeaderReaches(defs, layouts, c, dims, path, off, found) <==> off == 0 && HeaderFinds(layouts, c, dims, found))
    ensures path != [] && dims != [] ==>
      (HeaderReaches(defs, layouts, c, dims, path, off, found) <==>
       path[0].Index? && path[0].i < dims[0] &&
       var at := ElementAt(path[0].i, DeclaredSize(c, dims[1..], layouts));
       HeaderReaches(defs, layouts, c, dims[1..], path[1..], off - at, found))
  {
    hide DeclaredSize, ElementAt, HeaderEnters;
  }

  lemma DwarfStep(g: Graph, visible: set<Offset>, t: Type, ranges: seq<Subrange>, path: seq<Access>, off: int,
                  found: Found)
    ensures path == [] ==>
      (DwarfReaches(g, visible, t, ranges, path, off, found) <==> off == 0 && DwarfFinds(g, t, ranges, found))
    ensures path != [] && ranges != [] ==>
      (DwarfReaches(g, visible, t, ranges, path, off, found) <==>
       path[0].Index? && Within(ranges[0], path[0].i) &&
       var at := ElementAt(path[0].i, TimesElements(ranges[1..], ByteSize(g, t)));
       DwarfReaches(g, visible, t, ranges[1..], path[1..], off - at, found))
  {
    hide TimesElements, ByteSize, ElementAt, DwarfEnters, DwarfFinds, Within;
  }

  /** A type is declared as a scalar exactly when it is one. */
  lemma {:induction false} PlainExactly(g: Graph, tags: map<Offset, string>, t: Type, s: Scalar)
    requires Declared(g, tags, t).Some?
    ensures Declared(g, tags, t) == Some(Declarator(CType.Plain(s), [])) <==> Expresses(Resolved(t), s)
    decreases Length(t)
  {
    hide BaseScalar, UnsignedScalar, EnumerationSize, Encodes;
    match t
    case Qualified(of) => PlainExactly(g, tags, of, s);
    case Typedef(of) => PlainExactly(g, tags, of, s);
    case Array(element, ranges) =>
    case _ => ScalarExactly(t, s);
  }

  lemma FindsAgree(g: Graph, st: State, t: Type, ranges: seq<Subrange>, dims: seq<Positive>, found: Found)
    requires Verified(g, st) && Declared(g, st.tags, t).Some? && Bounds(ranges, dims)
    ensures var d := Declared(g, st.tags, t).value;
      HeaderFinds(HeaderLayouts(g, st), d.ctype, dims + d.dims, found) <==> DwarfFinds(g, t, ranges, found)
  {
    hide Verified, HeaderLayouts, Declared, ByteSize, DeclaredSize, Expresses, Within, TimesElements, Product;
    var d := Declared(g, st.tags, t).value;
    match found
    case Bytes(_) => StrideAgrees(g, st, t, ranges, dims);
    case Value(s) =>
      PlainExactly(g, st.tags, t, s);
      assert dims + d.dims == [] <==> dims == [] && d.dims == [];
      assert d == Declarator(d.ctype, d.dims);
  }

  /** Path soundness, and its converse: a path through the header leads to the offset that DWARF gives for it, and
      to as many bytes or the same scalar, and every path that DWARF has through declared members of definitions
      that are not opaque is there. */
  lemma {:induction false} PathsAgree(g: Graph, st: State, t: Type, ranges: seq<Subrange>, dims: seq<Positive>,
                                      path: seq<Access>, off: int, found: Found)
    requires Verified(g, st) && LeafTagged(g, st.tags, t) && Declared(g, st.tags, t).Some? && Bounds(ranges, dims)
    ensures var d := Declared(g, st.tags, t).value;
      HeaderReaches(st.structs, HeaderLayouts(g, st), d.ctype, dims + d.dims, path, off, found) <==>
      DwarfReaches(g, Visible(st), t, ranges, path, off, found)
    decreases |path|, Length(t) + 1, 1
  {
    hide Verified, HeaderLayouts, DeclaredSize, ByteSize, TimesElements, Visible, LeafTagged, ElementAt, Declared,
      HeaderReaches, DwarfReaches, Product, HeaderFinds, DwarfFinds, Within;
    var d, layouts := Declared(g, st.tags, t).value, HeaderLayouts(g, st);
    HeaderStep(st.structs, layouts, d.ctype, dims + d.dims, path, off, found);
    DwarfStep(g, Visible(st), t, ranges, path, off, found);
    if path == [] {
      FindsAgree(g, st, t, ranges, dims, found);
    } else if dims != [] {
      assert (dims + d.dims)[1..] == dims[1..] + d.dims;
      StrideAgrees(g, st, t, ranges[1..], dims[1..]);
      assert Counts(ranges[0], dims[0]);
      if path[0].Index? {
        var stride := DeclaredSize(d.ctype, dims[1..] + d.dims, layouts);
        PathsAgree(g, st, t, ranges[1..], dims[1..], path[1..], off - ElementAt(path[0].i, stride), found);
      }
    } else {
      assert dims + d.dims == d.dims;
      InnerPathsAgree(g, st, t, path, off, found);
    }
  }

  lemma {:induction false} InnerPathsAgree(g: Graph, st: State, t: Type, path: seq<Access>, off: int, found: Found)
    requires Verified(g, st) && LeafTagged(g, st.tags, t) && Declared(g, st.tags, t).Some?
    requires path != []
    ensures var d := Declared(g, st.tags, t).value;
      HeaderReaches(st.structs, HeaderLayouts(g, st), d.ctype, d.dims, path, off, found) <==>
      DwarfReaches(g, Visible(st), t, [], path, off, found)
    decreases |path|, Length(t) + 1, 0
  {
    hide Verified, HeaderLayouts, Emittable, DeclaredSize, ByteSize, Product, Visible, HeaderFinds, DwarfFinds, Within;
    var d := Declared(g, st.tags, t).value;
    match t
    case Qualified(of) =>
      assert [] + d.dims == d.dims;
      PathsAgree(g, st, of, [], [], path, off, found);
    case Typedef(of) =>
      assert [] + d.dims == d.dims;
      PathsAgree(g, st, of, [], [], path, off, found);
    case Array(element, ranges) =>
      DimsBound(ranges);
      PathsAgree(g, st, element, ranges, ArrayDims(ranges), path, off, found);
    case Aggregate(o) => MembersAgree(g, st, o, path, off, found);
    case _ =>
  }

  lemma {:induction false} MembersAgree(g: Graph, st: State, o: Offset, path: seq<Access>, off: int, found: Found)
    requires Verified(g, st) && path != [] && o in g && o in st.tags
    ensures HeaderReaches(st.structs, HeaderLayouts(g, st), CType.Tagged(g[o].kind, st.tags[o]), [], path, off, found) <==>
            DwarfReaches(g, Visible(st), Aggregate(o), [], path, off, found)
    decreases |path|, 0, 1
  {
    hide Verified, HeaderLayouts, Emittable, HeaderEnters, DwarfEnters, InHeader, LeafTagged, Kept, KeptMember;
    var layouts, tag := HeaderLayouts(g, st), st.tags[o];
    LaidOut(g, st, o);
    var d, offsets := st.structs[tag], layouts[tag].offsets;
    if path[0].Member? && !d.opaqueBytes {
      if i :| 0 <= i < |d.members| && HeaderEnters(st.structs, layouts, d.members[i], offsets[i], path, off, found) {
        DeclaredName(st, layouts, d.members[i], offsets[i], path, off, found);
        var j := MemberOrigin(g, st, o, d.members[i]);
        MemberAgrees(g, st, o, j, path, off, found);
      }
      if j :| 0 <= j < |g[o].members| &&
              DwarfEnters(g, Visible(st), g[o].kind, g[o].members[j], path, off, found) {
        EnteredInHeader(g, Visible(st), g[o].kind, g[o].members[j], path, off, found);
        var m := MemberDeclared(g, st, o, j);
        var i :| 0 <= i < |d.members| && d.members[i] == m;
        MemberAgrees(g, st, o, j, path, off, found);
      }
    }
  }

  lemma DeclaredName(st: State, layouts: Layouts, m: Header.Member, at: nat, path: seq<Access>, off: int, found: Found)
    requires path != [] && path[0].Member? && HeaderEnters(st.structs, layouts, m, at, path, off, found)
    ensures m.name != UNION_PAD
  {
    hide HeaderReaches;
  }

  lemma EnteredInHeader(g: Graph, visible: set<Offset>, kind: Kind, m: MemberDie, path: seq<Access>, off: int, found: Found)
    requires path != [] && path[0].Member? && DwarfEnters(g, visible, kind, m, path, off, found)
    ensures InHeader(g, kind, m)
  {
    hide DwarfReaches, InHeader;
  }

  /** Entering a declared member is entering the member in DWARF it was declared for. */
  lemma {:induction false} MemberAgrees(g: Graph, st: State, o: Offset, j: nat, path: seq<Access>, off: int, found: Found)
    requires Verified(g, st) && path != [] && path[0].Member? && o in g && j < |g[o].members|
    requires LeafTagged(g, st.tags, g[o].members[j].ty) && Kept(g, st.tags, g[o].members[j])
    requires InHeader(g, g[o].kind, g[o].members[j]) && KeptMember(g, st.tags, g[o].members[j]).offset >= 0
    ensures var die := g[o].members[j];
            var m := KeptMember(g, st.tags, die);
      HeaderEnters(st.structs, HeaderLayouts(g, st), m, m.offset, path, off, found) <==>
      DwarfEnters(g, Visible(st), g[o].kind, die, path, off, found)
    decreases |path|, 0, 0
  {
    hide Verified, HeaderLayouts, Emittable, HeaderReaches, DwarfReaches, DecodedOffset, LeafTagged, Representable, Visible;
    var die := g[o].members[j];
    var m := KeptMember(g, st.tags, die);
    assert [] + m.dims == m.dims;
    DecodedExactly(die.location);
    PathsAgree(g, st, die.ty, [], [], path[1..], off - m.offset, found);
  }
}
