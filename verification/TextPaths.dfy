/** Access paths through the text of the header, which is all that its reader has. */
module TextPaths {
  import opened Dwarf
  import opened Header
  import opened Repair
  import opened Fixpoint
  import opened Walk
  import opened WalkFacts
  import opened Paths

  /** The fields that a body declares. */
  function FieldsOf(items: seq<Item>): seq<Item> {
    if items == [] then [] else (if items[0].Field? then [items[0]] else []) + FieldsOf(items[1..])
  }

  /** In an array of this type with these dimensions, the path leads to offset `off` and to what is found there, by the text
      of the definitions and the layouts that their reader gives them. */
  ghost predicate TextReaches(header: seq<Rendered>, layouts: Layouts, c: CType, dims: seq<Positive>,
                              path: seq<Access>, off: int, found: Found)
    decreases |path|, 1
  {
    if path == [] then off == 0 && HeaderFinds(layouts, c, dims, found)
    else if dims != [] then
      path[0].Index? && path[0].i < dims[0] &&
      TextReaches(header, layouts, c, dims[1..], path[1..],
                  off - ElementAt(path[0].i, DeclaredSize(c, dims[1..], layouts)), found)
    else
      c.Tagged? && path[0].Member? && c.tag in layouts &&
      exists k :: 0 <= k < |header| && header[k].tag == c.tag && BodyReaches(header, layouts, header[k], path, off, found)
  }

  ghost predicate BodyReaches(header: seq<Rendered>, layouts: Layouts, r: Rendered, path: seq<Access>, off: int, found: Found)
    requires path != [] && path[0].Member? && r.tag in layouts
    decreases |path|, 0
  {
    var fields, offsets := FieldsOf(r.body), layouts[r.tag].offsets;
    |offsets| == |fields| &&
    exists i :: 0 <= i < |fields| && FieldReaches(header, layouts, fields[i], offsets[i], path, off, found)
  }

  ghost predicate FieldReaches(header: seq<Rendered>, layouts: Layouts, it: Item, at: nat, path: seq<Access>,
                               off: int, found: Found)
    requires path != [] && path[0].Member?
    decreases |path|, -1
  {
    it.Field? && it.name != UNION_PAD && it.name == path[0].name &&
    TextReaches(header, layouts, it.ctype, it.dims, path[1..], off - at, found)
  }

  // ---- What is rendered is what is read ----

  function Fields(ms: seq<Header.Member>): seq<Item> {
    seq(|ms|, i requires 0 <= i < |ms| => FieldOf(ms[i]))
  }

  lemma FieldsNone()
    ensures FieldsOf([]) == []
  {
  }

  lemma FieldsNext(items: seq<Item>)
    requires items != []
    ensures FieldsOf(items) == (if items[0].Field? then [items[0]] else []) + FieldsOf(items[1..])
  {
  }

  lemma {:induction false} FieldsJoin(a: seq<Item>, b: seq<Item>)
    ensures FieldsOf(a + b) == FieldsOf(a) + FieldsOf(b)
  {
    hide FieldsOf;
    FieldsNone();
    if a == [] {
      assert a + b == b;
    } else {
      FieldsJoin(a[1..], b);
      FieldsNext(a);
      FieldsNext(a + b);
      assert (a + b)[1..] == a[1..] + b;
    }
  }

  lemma {:induction false} FieldsFrom(d: Definition, i: nat)
    requires i <= |d.members|
    ensures FieldsOf(RenderFrom(d, i)) == Fields(d.members[i..])
    decreases |d.members| - i
  {
    if i == |d.members| {
    } else {
      var pad, line, rest := PadItems(i, d.PadAt(i)), [FieldOf(d.members[i])], RenderFrom(d, i + 1);
      FieldsFrom(d, i + 1);
      FieldsJoin(pad + line, rest);
      FieldsJoin(pad, line);
      assert FieldsOf(pad) == [];
      assert d.members[i..] == [d.members[i]] + d.members[i + 1..];
    }
  }

  lemma FieldsRendered(d: Definition)
    ensures FieldsOf(Render(d)) == if d.opaqueBytes then [] else Fields(d.members)
  {
    FieldsFrom(d, 0);
    assert d.members[0..] == d.members;
  }

  /** The order holds every definition once, under its own tag. */
  ghost predicate AllListed(st: State) {
    forall t :: t in st.structs ==> st.structs[t].tag == t && t in st.order
  }

  lemma StepAgrees(header: seq<Rendered>, defs: map<string, Definition>, layouts: Layouts, c: CType, dims: seq<Positive>,
                   path: seq<Access>, off: int, found: Found)
    requires path == [] || dims != []
    requires path != [] ==>
      forall o :: TextReaches(header, layouts, c, dims[1..], path[1..], o, found) <==>
                  HeaderReaches(defs, layouts, c, dims[1..], path[1..], o, found)
    ensures TextReaches(header, layouts, c, dims, path, off, found) <==>
            HeaderReaches(defs, layouts, c, dims, path, off, found)
  {
    hide DeclaredSize, ElementAt, BodyReaches, HeaderEnters;
  }

  /** The text of a header and the definitions it was printed from have the same paths. */
  lemma {:induction false} TextAgrees(st: State, layouts: Layouts, c: CType, dims: seq<Positive>,
                                      path: seq<Access>, off: int, found: Found)
    requires OrderKnown(st) && AllListed(st)
    ensures TextReaches(RenderedAll(Ordered(st)), layouts, c, dims, path, off, found) <==>
            HeaderReaches(st.structs, layouts, c, dims, path, off, found)
    decreases |path|, 1
  {
    hide AllListed, TextReaches, HeaderReaches, Ordered, RenderedAll;
    if path == [] {
      StepAgrees(RenderedAll(Ordered(st)), st.structs, layouts, c, dims, path, off, found);
    } else if dims != [] {
      forall o
        ensures TextReaches(RenderedAll(Ordered(st)), layouts, c, dims[1..], path[1..], o, found) <==>
                HeaderReaches(st.structs, layouts, c, dims[1..], path[1..], o, found)
      {
        TextAgrees(st, layouts, c, dims[1..], path[1..], o, found);
      }
      StepAgrees(RenderedAll(Ordered(st)), st.structs, layouts, c, dims, path, off, found);
    } else {
      AggregateAgrees(st, layouts, c, path, off, found);
    }
  }

  lemma {:induction false} AggregateAgrees(st: State, layouts: Layouts, c: CType, path: seq<Access>, off: int, found: Found)
    requires OrderKnown(st) && AllListed(st) && path != []
    ensures TextReaches(RenderedAll(Ordered(st)), layouts, c, [], path, off, found) <==>
            HeaderReaches(st.structs, layouts, c, [], path, off, found)
    decreases |path|, 0
  {
    hide BodyReaches, HeaderEnters, RenderedOf;
    var header := RenderedAll(Ordered(st));
    if c.Tagged? && path[0].Member? && c.tag in layouts {
      forall k | 0 <= k < |header|
        ensures header[k] == RenderedOf(st.structs[st.order[k]]) && header[k].tag == st.order[k]
      {
        assert RenderedOf(st.structs[st.order[k]]).tag == st.order[k] by { OwnTag(st.structs[st.order[k]]); }
      }
      if c.tag in st.structs {
        BodyAgrees(st, layouts, st.structs[c.tag], path, off, found);
        var k :| 0 <= k < |st.order| && st.order[k] == c.tag;
        assert header[k].tag == c.tag;
      }
    }
  }

  lemma OwnTag(d: Definition)
    ensures RenderedOf(d).tag == d.tag
  {
  }

  lemma {:induction false} BodyAgrees(st: State, layouts: Layouts, d: Definition, path: seq<Access>, off: int, found: Found)
    requires OrderKnown(st) && AllListed(st) && path != [] && path[0].Member? && d.tag in layouts
    ensures RenderedOf(d).tag == d.tag
    ensures BodyReaches(RenderedAll(Ordered(st)), layouts, RenderedOf(d), path, off, found) <==>
      && !d.opaqueBytes && |layouts[d.tag].offsets| == |d.members|
      && exists i :: 0 <= i < |d.members| &&
           HeaderEnters(st.structs, layouts, d.members[i], layouts[d.tag].offsets[i], path, off, found)
    decreases |path|, -1
  {
    hide AllListed, TextReaches, HeaderReaches, Ordered, RenderedAll, Render;
    FieldsRendered(d);
    var header, fields, offsets := RenderedAll(Ordered(st)), FieldsOf(Render(d)), layouts[d.tag].offsets;
    if !d.opaqueBytes && |offsets| == |d.members| {
      forall i | 0 <= i < |d.members|
        ensures FieldReaches(header, layouts, fields[i], offsets[i], path, off, found) <==>
                HeaderEnters(st.structs, layouts, d.members[i], offsets[i], path, off, found)
      {
        TextAgrees(st, layouts, d.members[i].ctype, d.members[i].dims, path[1..], off - offsets[i], found);
      }
    }
  }

  lemma VerifiedListed(g: Graph, st: State)
    requires Verified(g, st)
    ensures OrderKnown(st) && AllListed(st)
  {
    hide Exact, AllSane, Contents;
    forall t | t in st.structs
      ensures st.structs[t].tag == t && t in st.order
    {
      OwnTags(g, st, t);
      var o :| o in st.tags && st.tags[o] == t;
    }
  }

  /** The paths of the header's text, read by itself, are those of DWARF through declared members of definitions
      that are not opaque. */
  lemma TextPathsAgree(g: Graph, st: State, t: Type, path: seq<Access>, off: int, found: Found)
    requires Verified(g, st) && LeafTagged(g, st.tags, t) && Declared(g, st.tags, t).Some?
    ensures var header, d := RenderedAll(Ordered(st)), Declared(g, st.tags, t).value;
      TextReaches(header, ReadHeader(header, map[]), d.ctype, d.dims, path, off, found) <==>
      DwarfReaches(g, Visible(st), t, [], path, off, found)
  {
    hide Exact, AllSane, Contents, TagsMatch, OrderMatches, Declared, TextReaches, HeaderReaches, DwarfReaches, RenderedAll,
      LeafTagged, Visible, AllListed;
    var d := Declared(g, st.tags, t).value;
    assert [] + d.dims == d.dims;
    VerifiedListed(g, st);
    ReadRendered(Ordered(st), map[]);
    TextAgrees(st, HeaderLayouts(g, st), d.ctype, d.dims, path, off, found);
    PathsAgree(g, st, t, [], [], path, off, found);
  }
}
