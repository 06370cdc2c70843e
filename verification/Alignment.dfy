/** What C demands of the places of scalars holds all over the header: along every path. */
module Alignment {
  import opened Dwarf
  import opened Header
  import opened Fixpoint
  import opened Walk
  import opened WalkFacts
  import opened Paths
  import opened TextPaths
  import opened Completeness

  // ---- One body ----

  /** The fields of a body lie where their alignment allows, and none is more aligned than the whole. */
  ghost predicate Legal(fields: seq<Item>, l: Layout, layouts: Layouts) {
    PlacedLegally(fields, l.offsets, l.align, layouts) && l.size % l.align == 0
  }

  ghost predicate PlacedLegally(fields: seq<Item>, offsets: seq<nat>, align: Alignment, layouts: Layouts) {
    && |offsets| == |fields|
    && forall i :: 0 <= i < |fields| ==> fields[i].Field? && FieldLegal(fields[i].ctype, offsets[i], align, layouts)
  }

  lemma OneMoreLegal(it: Item, at: nat, fields: seq<Item>, offsets: seq<nat>, align: Alignment, known: Layouts)
    requires it.Field? ==> FieldLegal(it.ctype, at, align, known)
    requires PlacedLegally(fields, offsets, align, known)
    ensures PlacedLegally((if it.Field? then [it] else []) + fields, (if it.Field? then [at] else []) + offsets, align,
                          known)
  {
    hide FieldLegal;
  }

  predicate FieldLegal(c: CType, at: nat, align: Alignment, layouts: Layouts) {
    at % TypeAlign(c, layouts) == 0 && align % TypeAlign(c, layouts) == 0
  }

  lemma {:induction false} OffsetsLegal(items: seq<Item>, e: nat, align: Alignment, known: Layouts)
    requires align % BodyAlign(items, known) == 0
    ensures PlacedLegally(FieldsOf(items), StructOffsets(items, e, known), align, known)
  {
    hide AlignUp, ItemSize, TypeAlign, FieldsOf, PlacedLegally;
    FieldsNone();
    if items == [] {
      assert PlacedLegally([], [], align, known) by { NothingPlaced(align, known); }
    } else {
      FieldsNext(items);
      var at := AlignUp(e, ItemAlign(items[0], known));
      LargerAlign(ItemAlign(items[0], known), BodyAlign(items[1..], known), align);
      OffsetsLegal(items[1..], at + ItemSize(items[0], known), align, known);
      OneMoreLegal(items[0], at, FieldsOf(items[1..]),
                   StructOffsets(items[1..], at + ItemSize(items[0], known), known), align, known);
    }
  }

  lemma NothingPlaced(align: Alignment, known: Layouts)
    ensures PlacedLegally([], [], align, known)
  {
  }

  lemma {:induction false} UnionLegal(items: seq<Item>, align: Alignment, known: Layouts)
    requires align % BodyAlign(items, known) == 0
    ensures PlacedLegally(FieldsOf(items), UnionOffsets(items), align, known)
  {
    hide TypeAlign, FieldsOf, PlacedLegally;
    FieldsNone();
    if items == [] {
      assert PlacedLegally([], [], align, known) by { NothingPlaced(align, known); }
    } else {
      FieldsNext(items);
      LargerAlign(ItemAlign(items[0], known), BodyAlign(items[1..], known), align);
      UnionLegal(items[1..], align, known);
      OneMoreLegal(items[0], 0, FieldsOf(items[1..]), UnionOffsets(items[1..]), align, known);
    }
  }

  lemma LargerAlign(a: Alignment, b: Alignment, c: Alignment)
    requires c % MaxAlignment(a, b) == 0
    ensures c % a == 0 && c % b == 0
  {
  }

  lemma BodyLegal(kind: Kind, items: seq<Item>, known: Layouts)
    ensures Legal(FieldsOf(items), BodyLayout(kind, items, known), known)
  {
    hide AlignUp, BodyAlign, StructEnd, UnionEnd, PlacedLegally, StructOffsets, UnionOffsets, FieldsOf;
    var a := BodyAlign(items, known);
    Multiple(a, a, 1);
    OffsetsLegal(items, 0, a, known);
    UnionLegal(items, a, known);
  }

  // ---- The whole header ----

  /** A definition before the k-th one has its layout once and for all. */
  lemma KnownBefore(defs: seq<Definition>, k: nat, j: nat)
    requires DistinctTags(defs) && j < k <= |defs|
    ensures defs[j].tag in LayoutAll(defs, map[]) && defs[j].tag in LayoutAll(defs[..k], map[])
    ensures LayoutAll(defs, map[])[defs[j].tag] == LayoutAll(defs[..k], map[])[defs[j].tag]
  {
    hide LayoutOf;
    assert TagsOf(defs[..k]) == TagsOf(defs)[..k];
    assert defs[..k][..j] == defs[..j];
    LayoutAt(defs, map[], j);
    LayoutAt(defs[..k], map[], j);
  }

  /** Of the members that DWARF gives it, a body only declares types defined before. */
  lemma FieldKnown(g: Graph, st: State, k: nat, it: Item)
    requires Verified(g, st) && DependencyOrder(st) && k < |st.order| && it in FieldsOf(Render(Ordered(st)[k]))
    ensures it.Field?
    ensures TypeAlign(it.ctype, LayoutAll(Ordered(st)[..k], map[])) == TypeAlign(it.ctype, LayoutAll(Ordered(st), map[]))
  {
    hide Exact, AllSane, Contents, LayoutAll, Render;
    var defs := Ordered(st);
    FieldsRendered(defs[k]);
    var i :| 0 <= i < |defs[k].members| && it == FieldOf(defs[k].members[i]);
    if it.ctype.Tagged? {
      var m := defs[k].members[i];
      assert m in defs[k].members && NamesOnly(defs[k], st.order[..k]);
      var j :| 0 <= j < k && st.order[j] == m.ctype.tag;
      forall t | t in st.structs ensures st.structs[t].tag == t { OwnTags(g, st, t); }
      TagsDiffer(st);
      KnownBefore(defs, k, j);
    }
  }

  lemma DefinitionLegal(g: Graph, st: State, k: nat)
    requires Verified(g, st) && DependencyOrder(st) && k < |st.order|
    ensures st.order[k] in HeaderLayouts(g, st)
    ensures Legal(FieldsOf(RenderedAll(Ordered(st))[k].body), HeaderLayouts(g, st)[st.order[k]], HeaderLayouts(g, st))
  {
    hide Exact, AllSane, Contents, LayoutAll, Render, BodyLayout, DependencyOrder;
    var defs := Ordered(st);
    var d, known := defs[k], LayoutAll(defs[..k], map[]);
    forall t | t in st.structs ensures st.structs[t].tag == t { OwnTags(g, st, t); }
    TagsDiffer(st);
    LayoutAt(defs, map[], k);
    BodyLegal(d.kind, Render(d), known);
    var fields, l := FieldsOf(Render(d)), LayoutOf(d, known);
    forall i | 0 <= i < |fields|
      ensures FieldLegal(fields[i].ctype, l.offsets[i], l.align, LayoutAll(defs, map[]))
    {
      FieldKnown(g, st, k, fields[i]);
      assert FieldLegal(fields[i].ctype, l.offsets[i], l.align, known);
    }
  }

  // ---- Along a path ----

  ghost predicate AllLegal(header: seq<Rendered>, layouts: Layouts) {
    && (forall k :: 0 <= k < |header| ==>
          header[k].tag in layouts && Legal(FieldsOf(header[k].body), layouts[header[k].tag], layouts))
    && (forall t :: t in layouts ==> exists k :: 0 <= k < |header| && header[k].tag == t)
  }

  lemma Multiples(i: nat, stride: nat, w: Alignment)
    requires stride % w == 0
    ensures (i * stride) % w == 0
  {
    var q := stride / w;
    assert stride == w * q;
    assert i * stride == w * (i * q) by { Associates(i, w, q); Associates(w, i, q); }
    Multiple(i * stride, w, i * q);
  }

  lemma Added(a: int, b: int, w: Alignment)
    requires a % w == 0 && b % w == 0
    ensures (a + b) % w == 0
  {
    var p, q := a / w, b / w;
    assert a + b == w * (p + q);
    Multiple(a + b, w, p + q);
  }

  lemma WholeSize(header: seq<Rendered>, layouts: Layouts, c: CType)
    requires AllLegal(header, layouts)
    ensures TypeSize(c, layouts) % TypeAlign(c, layouts) == 0
  {
    hide FieldsOf, FieldLegal;
    if c.Tagged? && c.tag in layouts {
      var k :| 0 <= k < |header| && header[k].tag == c.tag;
      assert Legal(FieldsOf(header[k].body), layouts[header[k].tag], layouts);
    }
  }

  /** A path that ends in a scalar ends at a multiple of its width, and the type it starts from is aligned so. */
  lemma {:induction false} ScalarsAligned(header: seq<Rendered>, layouts: Layouts, c: CType, dims: seq<Positive>,
                                          path: seq<Access>, off: int, s: Scalar)
    requires AllLegal(header, layouts) && TextReaches(header, layouts, c, dims, path, off, Value(s))
    ensures off % s.Size() == 0 && TypeAlign(c, layouts) % s.Size() == 0
    decreases |path|
  {
    hide AllLegal, FieldsOf;
    if path == [] {
    } else if dims != [] {
      var stride := DeclaredSize(c, dims[1..], layouts);
      var inner := off - ElementAt(path[0].i, stride);
      ScalarsAligned(header, layouts, c, dims[1..], path[1..], inner, s);
      WholeSize(header, layouts, c);
      Divides(TypeSize(c, layouts), TypeAlign(c, layouts), s.Size());
      Multiples(Product(dims[1..]), TypeSize(c, layouts), s.Size());
      Multiples(path[0].i, stride, s.Size());
      Added(inner, ElementAt(path[0].i, stride), s.Size());
    } else {
      var k :| 0 <= k < |header| && header[k].tag == c.tag &&
        BodyReaches(header, layouts, header[k], path, off, Value(s));
      var fields, l := FieldsOf(header[k].body), layouts[c.tag];
      var i :| 0 <= i < |fields| && FieldReaches(header, layouts, fields[i], l.offsets[i], path, off, Value(s));
      ScalarsAligned(header, layouts, fields[i].ctype, fields[i].dims, path[1..], off - l.offsets[i], s);
      LegalAt(header, layouts, k, i);
      var a := TypeAlign(fields[i].ctype, layouts);
      Divides(l.offsets[i], a, s.Size());
      Divides(l.align, a, s.Size());
      Added(off - l.offsets[i], l.offsets[i], s.Size());
    }
  }

  lemma LegalAt(header: seq<Rendered>, layouts: Layouts, k: nat, i: nat)
    requires AllLegal(header, layouts) && k < |header| && i < |FieldsOf(header[k].body)|
    ensures header[k].tag in layouts && i < |layouts[header[k].tag].offsets|
    ensures FieldsOf(header[k].body)[i].Field?
    ensures var it, l := FieldsOf(header[k].body)[i], layouts[header[k].tag];
      FieldLegal(it.ctype, l.offsets[i], l.align, layouts)
  {
    hide FieldsOf, FieldLegal;
    assert Legal(FieldsOf(header[k].body), layouts[header[k].tag], layouts);
  }

  lemma {:induction false} OnlyDefined(defs: seq<Definition>, known: Layouts, t: string)
    requires t in LayoutAll(defs, known) && t !in known
    ensures exists k :: 0 <= k < |defs| && defs[k].tag == t
  {
    hide LayoutOf;
    if defs == [] {
    } else if t == defs[0].tag {
    } else {
      OnlyDefined(defs[1..], known[defs[0].tag := LayoutOf(defs[0], known)], t);
      var k :| 0 <= k < |defs[1..]| && defs[1..][k].tag == t;
      assert defs[k + 1].tag == t;
    }
  }

  lemma HeaderLegal(g: Graph, st: State)
    requires Verified(g, st) && DependencyOrder(st)
    ensures AllLegal(RenderedAll(Ordered(st)), HeaderLayouts(g, st))
  {
    hide Exact, AllSane, Contents, TagsMatch, OrderMatches, DependencyOrder, Render, Legal, FieldsOf, LayoutOf;
    var header, layouts := RenderedAll(Ordered(st)), HeaderLayouts(g, st);
    forall k | 0 <= k < |header|
      ensures header[k].tag in layouts && Legal(FieldsOf(header[k].body), layouts[header[k].tag], layouts)
    {
      TagAt(g, st, k);
      DefinitionLegal(g, st, k);
    }
    forall t | t in layouts
      ensures exists k :: 0 <= k < |header| && header[k].tag == t
    {
      OnlyDefined(Ordered(st), map[], t);
      var k :| 0 <= k < |Ordered(st)| && Ordered(st)[k].tag == t;
      assert header[k] == RenderedOf(Ordered(st)[k]);
    }
  }

  /** In a verified header in dependency order, whatever leads to a scalar leads to a multiple of its width. */
  lemma HeaderAligned(g: Graph, st: State, c: CType, dims: seq<Positive>, path: seq<Access>, off: int, s: Scalar)
    requires Verified(g, st) && DependencyOrder(st)
    requires var header := RenderedAll(Ordered(st));
      TextReaches(header, ReadHeader(header, map[]), c, dims, path, off, Value(s))
    ensures off % s.Size() == 0
  {
    hide Exact, AllSane, Contents, TagsMatch, OrderMatches, DependencyOrder, LayoutAll, TextReaches, RenderedAll, AllLegal,
      ReadHeader, TypeAlign;
    HeaderLegal(g, st);
    ReadRendered(Ordered(st), map[]);
    ScalarsAligned(RenderedAll(Ordered(st)), HeaderLayouts(g, st), c, dims, path, off, s);
  }

  lemma TagAt(g: Graph, st: State, k: nat)
    requires Verified(g, st) && k < |st.order|
    ensures RenderedAll(Ordered(st))[k].tag == st.order[k]
  {
    hide Exact, AllSane, Contents, Render;
    OwnTags(g, st, st.order[k]);
  }
}
