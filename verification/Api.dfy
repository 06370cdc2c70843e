/** The API-mode declarations as a syntax tree.  A named aggregate becomes a definition of its own, which ends in an
    ellipsis and may leave members out; an aggregate without a name is written out inside the member that has it,
    completely or not at all. */
module Api {
  import opened Dwarf
  import opened Meaning
  import opened Walk

  datatype ApiType =
    | Plain(scalar: Scalar)
    | Named(kind: Kind, name: string)
    | Inline(kind: Kind, body: seq<ApiItem>)

  datatype ApiItem =
    | Declaration(ctype: ApiType, name: string, dims: seq<Positive>)
    | Anonymous(ctype: ApiType)
    | Bitfield(ctype: ApiType, name: string, bits: int)
    | Ellipsis

  datatype ApiDeclarator = ApiDeclarator(ctype: ApiType, dims: seq<Positive>)

  function ApiScalar(s: Option<Scalar>): Option<ApiDeclarator> {
    if s.Some? then Some(ApiDeclarator(Plain(s.value), [])) else None
  }

  /** A named aggregate with a definition of its own. */
  predicate IsNamed(a: AggregateDie): (r: bool)
    ensures r ==> a.name.Some?
  {
    HasIdentifier(a.name) && !a.isDeclaration
  }

  lemma InnerHeight(g: Graph, o: Offset, i: nat)
    requires Dwarf.Closed(g) && Acyclic(g) && o in g && i < |g[o].members|
    ensures LeafIn(g, g[o].members[i].ty)
    ensures Height(g, g[o].members[i].ty) < Height(g, Aggregate(o))
  {
    assert IsRank(g, Rank(g));
  }

  /** The type of a member.  Inside an inline aggregate (strict) names are not used. */
  function ApiDeclared(g: Graph, t: Type, strict: bool): Option<ApiDeclarator>
    requires Dwarf.Closed(g) && Acyclic(g) && LeafIn(g, t)
    decreases Height(g, t), 2, Length(t)
  {
    match t
    case NoType => None
    case Exotic => None
    case Pointer => ApiScalar(Some(VoidPointer))
    case Base(encoding, size) => ApiScalar(BaseScalar(encoding, size))
    case Enumeration(size) => ApiScalar(UnsignedScalar(EnumerationSize(size)))
    case Qualified(of) => ApiDeclared(g, of, strict)
    case Typedef(of) => ApiDeclared(g, of, strict)
    case Array(element, ranges) =>
      var inner :- ApiDeclared(g, element, strict);
      var dims := ArrayDims(ranges);
      if AllPositive(dims) then Some(ApiDeclarator(inner.ctype, dims + inner.dims)) else None
    case Aggregate(o) =>
      if g[o].isDeclaration then None
      else if HasIdentifier(g[o].name) && !strict then
        Some(ApiDeclarator(Named(g[o].kind, g[o].name.value), []))
      else
        var body :- InlineBody(g, o);
        Some(ApiDeclarator(Inline(g[o].kind, body), []))
  }

  /** The whole aggregate, or None when a member cannot be written or there is none. */
  function InlineBody(g: Graph, o: Offset): Option<seq<ApiItem>>
    requires Dwarf.Closed(g) && Acyclic(g) && o in g
    decreases Height(g, Aggregate(o)), 1, 0
  {
    var body :- StrictBody(g, o, |g[o].members|);
    if body == [] then None else Some(body)
  }

  function StrictItem(m: MemberDie, d: ApiDeclarator): Option<ApiItem> {
    if m.bitSize.Some? then
      if m.name.None? || d.dims != [] then None else Some(Bitfield(d.ctype, m.name.value, m.bitSize.value))
    else if m.name.None? then
      if d.ctype.Inline? then Some(Anonymous(d.ctype)) else None
    else Some(Declaration(d.ctype, m.name.value, d.dims))
  }

  /** The first n members, all of them or None. */
  function StrictBody(g: Graph, o: Offset, n: nat): (r: Option<seq<ApiItem>>)
    requires Dwarf.Closed(g) && Acyclic(g) && o in g && n <= |g[o].members|
    decreases Height(g, Aggregate(o)), 0, n
  {
    if n == 0 then Some([])
    else
      var m := g[o].members[n - 1];
      var items :- StrictBody(g, o, n - 1);
      InnerHeight(g, o, n - 1);
      var d :- ApiDeclared(g, m.ty, true);
      var item :- StrictItem(m, d);
      Some(items + [item])
  }

  /** What a definition with an ellipsis declares for a member, if anything. */
  function PartialItem(m: MemberDie, d: Option<ApiDeclarator>): seq<ApiItem> {
    if d.None? || m.bitSize.Some? then []
    else if m.name.None? then if d.value.ctype.Inline? then [Anonymous(d.value.ctype)] else []
    else [Declaration(d.value.ctype, m.name.value, d.value.dims)]
  }

  function PartialItems(g: Graph, o: Offset, n: nat): seq<ApiItem>
    requires Dwarf.Closed(g) && Acyclic(g) && o in g && n <= |g[o].members|
  {
    if n == 0 then []
    else
      InnerHeight(g, o, n - 1);
      var m := g[o].members[n - 1];
      PartialItems(g, o, n - 1) + PartialItem(m, ApiDeclared(g, m.ty, false))
  }

  function PartialBody(g: Graph, o: Offset): seq<ApiItem>
    requires Dwarf.Closed(g) && Acyclic(g) && o in g
  {
    PartialItems(g, o, |g[o].members|) + [Ellipsis]
  }

  // ---- Strict bodies are complete ----

  /** The C type and the bounds stand for the type: the scalar of its encoding and width, with as many elements as
      each range has; a named aggregate by its name; and every other aggregate, or inside one (strict) every one,
      written out with all its members in order. */
  ghost predicate WrittenOut(g: Graph, t: Type, strict: bool, c: ApiType, dims: seq<Positive>)
    requires Dwarf.Closed(g) && Acyclic(g) && LeafIn(g, t)
    decreases Height(g, t), 2, Length(t)
  {
    match t
    case Qualified(of) => WrittenOut(g, of, strict, c, dims)
    case Typedef(of) => WrittenOut(g, of, strict, c, dims)
    case Array(element, ranges) =>
      var n := |ranges|;
      0 < n <= |dims| && Bounds(ranges, dims[..n]) && WrittenOut(g, element, strict, c, dims[n..])
    case Aggregate(o) =>
      && !g[o].isDeclaration && dims == []
      && if HasIdentifier(g[o].name) && !strict then c == Named(g[o].kind, g[o].name.value)
         else c.Inline? && c.kind == g[o].kind && c.body != [] && AllWritten(g, o, c.body)
    case _ => c.Plain? && Expresses(t, c.scalar) && dims == []
  }

  /** Every member is there, in order. */
  ghost predicate AllWritten(g: Graph, o: Offset, items: seq<ApiItem>)
    requires Dwarf.Closed(g) && Acyclic(g) && o in g
    decreases Height(g, Aggregate(o)), 1, 0
  {
    |items| == |g[o].members| && forall i :: 0 <= i < |items| ==> WrittenAt(g, o, i, true, items[i])
  }

  /** The item stands for member i.  Bitfields are declared inside inline aggregates only. */
  ghost predicate WrittenAt(g: Graph, o: Offset, i: nat, strict: bool, item: ApiItem)
    requires Dwarf.Closed(g) && Acyclic(g) && o in g && i < |g[o].members|
    decreases Height(g, Aggregate(o)), 0, 0
  {
    InnerHeight(g, o, i);
    var m := g[o].members[i];
    match item
    case Bitfield(c, name, bits) =>
      strict && m.name == Some(name) && m.bitSize == Some(bits) && WrittenOut(g, m.ty, strict, c, [])
    case Anonymous(c) =>
      m.name.None? && m.bitSize.None? && c.Inline? && exists dims :: WrittenOut(g, m.ty, strict, c, dims)
    case Declaration(c, name, dims) =>
      m.name == Some(name) && m.bitSize.None? && WrittenOut(g, m.ty, strict, c, dims)
    case Ellipsis => false
  }

  /** In either mode a declarator exists for a type exactly when there is one that stands for it, and it is that. */
  lemma {:induction false} TypesWritten(g: Graph, t: Type, strict: bool)
    requires Dwarf.Closed(g) && Acyclic(g) && LeafIn(g, t)
    ensures var d := ApiDeclared(g, t, strict);
      forall c, dims :: WrittenOut(g, t, strict, c, dims) <==> d == Some(ApiDeclarator(c, dims))
    decreases Height(g, t), 2, Length(t)
  {
    hide Dwarf.Closed, Acyclic, StrictBody, AllWritten, BaseScalar, UnsignedScalar, EnumerationSize, Encodes;
    match t
    case Qualified(of) => TypesWritten(g, of, strict);
    case Typedef(of) => TypesWritten(g, of, strict);
    case Array(element, ranges) =>
      TypesWritten(g, element, strict);
      ArraysWritten(g, element, strict, ranges);
    case Aggregate(o) =>
      if !g[o].isDeclaration {
        StrictBodies(g, o, |g[o].members|);
        AllIsPrefix(g, o);
      }
    case _ =>
      forall s
        ensures Expresses(t, s) <==> ApiDeclared(g, t, strict) == Some(ApiDeclarator(Plain(s), []))
      {
        ScalarExactly(t, s);
      }
  }

  lemma ArraysWritten(g: Graph, element: Type, strict: bool, ranges: seq<Subrange>)
    requires Dwarf.Closed(g) && Acyclic(g) && LeafIn(g, element)
    requires forall c, dims :: WrittenOut(g, element, strict, c, dims) <==>
      ApiDeclared(g, element, strict) == Some(ApiDeclarator(c, dims))
    ensures forall c, dims :: WrittenOut(g, Array(element, ranges), strict, c, dims) <==>
      ApiDeclared(g, Array(element, ranges), strict) == Some(ApiDeclarator(c, dims))
  {
    hide Dwarf.Closed, Acyclic, ApiDeclared, WrittenOut;
    var n, outer, d := |ranges|, ArrayDims(ranges), ApiDeclared(g, element, strict);
    PositiveExactly(ranges);
    forall c, dims: seq<Positive>
      ensures WrittenOut(g, Array(element, ranges), strict, c, dims) <==>
        ApiDeclared(g, Array(element, ranges), strict) == Some(ApiDeclarator(c, dims))
    {
      SplitBounds(ranges, dims);
      ArrayUnfolds(g, element, strict, ranges, c, dims);
      if n <= |dims| {
        assert dims == dims[..n] + dims[n..];
      }
      if ApiDeclared(g, Array(element, ranges), strict) == Some(ApiDeclarator(c, dims)) {
        assert dims[..n] == outer && dims[n..] == d.value.dims;
      }
    }
  }

  lemma ArrayUnfolds(g: Graph, element: Type, strict: bool, ranges: seq<Subrange>, c: ApiType, dims: seq<Positive>)
    requires Dwarf.Closed(g) && Acyclic(g) && LeafIn(g, element)
    ensures WrittenOut(g, Array(element, ranges), strict, c, dims) <==>
      && 0 < |ranges| <= |dims| && Bounds(ranges, dims[..|ranges|])
      && WrittenOut(g, element, strict, c, dims[|ranges|..])
    ensures
      var inner, outer := ApiDeclared(g, element, strict), ArrayDims(ranges);
      ApiDeclared(g, Array(element, ranges), strict) ==
        if inner.Some? && AllPositive(outer) then Some(ApiDeclarator(inner.value.ctype, outer + inner.value.dims))
        else None
  {
    hide Dwarf.Closed, Acyclic;
  }

  /** The first n members are written exactly when each of them can be. */
  ghost predicate PrefixWritten(g: Graph, o: Offset, n: nat, items: seq<ApiItem>)
    requires Dwarf.Closed(g) && Acyclic(g) && o in g && n <= |g[o].members|
  {
    |items| == n && forall i :: 0 <= i < n ==> WrittenAt(g, o, i, true, items[i])
  }

  lemma AllIsPrefix(g: Graph, o: Offset)
    requires Dwarf.Closed(g) && Acyclic(g) && o in g
    ensures forall items :: AllWritten(g, o, items) <==> PrefixWritten(g, o, |g[o].members|, items)
  {
    hide Dwarf.Closed, Acyclic, WrittenAt;
  }

  lemma ItemWritten(g: Graph, o: Offset, i: nat, strict: bool, item: ApiItem)
    requires Dwarf.Closed(g) && Acyclic(g) && o in g && i < |g[o].members| && LeafIn(g, g[o].members[i].ty)
    requires forall c, dims ::
      WrittenOut(g, g[o].members[i].ty, strict, c, dims) <==>
      ApiDeclared(g, g[o].members[i].ty, strict) == Some(ApiDeclarator(c, dims))
    ensures
      var m := g[o].members[i];
      var d := ApiDeclared(g, m.ty, strict);
      WrittenAt(g, o, i, strict, item) <==>
        if strict then d.Some? && StrictItem(m, d.value) == Some(item) else PartialItem(m, d) == [item]
  {
    hide Dwarf.Closed, Acyclic, WrittenOut, ApiDeclared;
    var m := g[o].members[i];
    var d := ApiDeclared(g, m.ty, strict);
    if d.Some? {
      assert d == Some(ApiDeclarator(d.value.ctype, d.value.dims));
      assert WrittenOut(g, m.ty, strict, d.value.ctype, d.value.dims);
    }
  }

  /** Strict rendering is all or nothing: the members are listed in order, each written out, or there is a member
      that cannot be. */
  lemma {:induction false} StrictBodies(g: Graph, o: Offset, n: nat)
    requires Dwarf.Closed(g) && Acyclic(g) && o in g && n <= |g[o].members|
    ensures forall items :: PrefixWritten(g, o, n, items) <==> StrictBody(g, o, n) == Some(items)
    decreases Height(g, Aggregate(o)), 1, n
  {
    hide Dwarf.Closed, Acyclic, WrittenAt, WrittenOut, ApiDeclared, StrictItem, Height;
    if n == 0 {
    } else {
      StrictBodies(g, o, n - 1);
      InnerHeight(g, o, n - 1);
      TypesWritten(g, g[o].members[n - 1].ty, true);
      forall items
        ensures PrefixWritten(g, o, n, items) <==> StrictBody(g, o, n) == Some(items)
      {
        if items != [] {
          LastWritten(g, o, n, items);
        }
      }
    }
  }

  lemma LastWritten(g: Graph, o: Offset, n: nat, items: seq<ApiItem>)
    requires Dwarf.Closed(g) && Acyclic(g) && o in g && 0 < n <= |g[o].members| && items != []
    requires LeafIn(g, g[o].members[n - 1].ty)
    requires forall items' :: PrefixWritten(g, o, n - 1, items') <==> StrictBody(g, o, n - 1) == Some(items')
    requires forall c, dims ::
      WrittenOut(g, g[o].members[n - 1].ty, true, c, dims) <==>
      ApiDeclared(g, g[o].members[n - 1].ty, true) == Some(ApiDeclarator(c, dims))
    ensures PrefixWritten(g, o, n, items) <==> StrictBody(g, o, n) == Some(items)
  {
    hide Dwarf.Closed, Acyclic, WrittenAt, WrittenOut, ApiDeclared, StrictItem, Height;
    var k := |items| - 1;
    assert items == items[..k] + [items[k]];
    ItemWritten(g, o, n - 1, true, items[k]);
    PrefixSplit(g, o, n, items);
    assert PrefixWritten(g, o, n - 1, items[..k]) <==> StrictBody(g, o, n - 1) == Some(items[..k]);
  }

  lemma PrefixSplit(g: Graph, o: Offset, n: nat, items: seq<ApiItem>)
    requires Dwarf.Closed(g) && Acyclic(g) && o in g && 0 < n <= |g[o].members| && items != []
    ensures var k := |items| - 1;
      PrefixWritten(g, o, n, items) <==>
      PrefixWritten(g, o, n - 1, items[..k]) && WrittenAt(g, o, n - 1, true, items[k])
  {
    hide Dwarf.Closed, Acyclic, WrittenAt, Height;
    var k := |items| - 1;
    if PrefixWritten(g, o, n - 1, items[..k]) && WrittenAt(g, o, n - 1, true, items[k]) {
      forall i | 0 <= i < n
        ensures WrittenAt(g, o, i, true, items[i])
      {
        if i < k {
          assert items[..k][i] == items[i];
        }
      }
    }
  }

  // ---- Partial bodies hold what can be written ----

  ghost predicate Writable(g: Graph, o: Offset, i: nat)
    requires Dwarf.Closed(g) && Acyclic(g) && o in g && i < |g[o].members|
  {
    exists item :: WrittenAt(g, o, i, false, item)
  }

  /** The items stand for the first n members, in order, without those for which there is none. */
  ghost predicate PartWritten(g: Graph, o: Offset, n: nat, items: seq<ApiItem>)
    requires Dwarf.Closed(g) && Acyclic(g) && o in g && n <= |g[o].members|
  {
    if n == 0 then items == []
    else if Writable(g, o, n - 1) then
      && items != [] && WrittenAt(g, o, n - 1, false, items[|items| - 1])
      && PartWritten(g, o, n - 1, items[..|items| - 1])
    else PartWritten(g, o, n - 1, items)
  }

  /** The body of a definition is exactly that. */
  lemma {:induction false} PartialBodies(g: Graph, o: Offset, n: nat)
    requires Dwarf.Closed(g) && Acyclic(g) && o in g && n <= |g[o].members|
    ensures forall items :: PartWritten(g, o, n, items) <==> items == PartialItems(g, o, n)
  {
    hide Dwarf.Closed, Acyclic, WrittenAt, WrittenOut, ApiDeclared, PartialItem, Height;
    if n == 0 {
    } else {
      var i := n - 1;
      PartialBodies(g, o, i);
      InnerHeight(g, o, i);
      var m := g[o].members[i];
      TypesWritten(g, m.ty, false);
      var last, before := PartialItem(m, ApiDeclared(g, m.ty, false)), PartialItems(g, o, i);
      OneItem(m, ApiDeclared(g, m.ty, false));
      forall item
        ensures WrittenAt(g, o, i, false, item) <==> last == [item]
      {
        ItemWritten(g, o, i, false, item);
      }
      assert Writable(g, o, i) <==> last != [] by {
        if item :| WrittenAt(g, o, i, false, item) {
          assert last == [item];
        }
        if last != [] {
          assert last == [last[0]];
          assert WrittenAt(g, o, i, false, last[0]);
        }
      }
      forall items
        ensures PartWritten(g, o, n, items) <==> items == before + last
      {
        if items != [] {
          var k := |items| - 1;
          assert items == items[..k] + [items[k]];
          assert items == before + [items[k]] ==> items[..k] == before;
        }
        if last != [] {
          assert (before + last)[|before|] == last[0] && last == [last[0]];
        }
      }
    }
  }

  lemma OneItem(m: MemberDie, d: Option<ApiDeclarator>)
    ensures |PartialItem(m, d)| <= 1
  {
  }

  // ---- Ellipsis discipline ----

  /** No ellipsis at any depth. */
  predicate NoEllipsis(items: seq<ApiItem>) {
    forall it :: it in items ==> !it.Ellipsis? && NoEllipsisIn(TypeOf(it))
  }

  function TypeOf(it: ApiItem): (c: ApiType)
    ensures !it.Ellipsis? ==> c < it
  {
    match it
    case Declaration(c, _, _) => c
    case Anonymous(c) => c
    case Bitfield(c, _, _) => c
    case Ellipsis => Plain(VoidPointer)
  }

  predicate NoEllipsisIn(c: ApiType)
  {
    c.Inline? ==> forall it :: it in c.body ==> !it.Ellipsis? && NoEllipsisIn(TypeOf(it))
  }

  lemma {:induction false} InlineHasNoEllipsis(g: Graph, t: Type, strict: bool)
    requires Dwarf.Closed(g) && Acyclic(g) && LeafIn(g, t)
    ensures ApiDeclared(g, t, strict).Some? ==> NoEllipsisIn(ApiDeclared(g, t, strict).value.ctype)
    decreases Height(g, t), 2, Length(t)
  {
    hide Dwarf.Closed, Acyclic, StrictBody, AllPositive;
    match t
    case Qualified(of) => InlineHasNoEllipsis(g, of, strict);
    case Typedef(of) => InlineHasNoEllipsis(g, of, strict);
    case Array(element, _) => InlineHasNoEllipsis(g, element, strict);
    case Aggregate(o) => StrictHasNoEllipsis(g, o, |g[o].members|);
    case _ =>
  }

  lemma {:induction false} StrictHasNoEllipsis(g: Graph, o: Offset, n: nat)
    requires Dwarf.Closed(g) && Acyclic(g) && o in g && n <= |g[o].members|
    ensures StrictBody(g, o, n).Some? ==> NoEllipsis(StrictBody(g, o, n).value)
    decreases Height(g, Aggregate(o)), 1, n
  {
    hide Dwarf.Closed, Acyclic, ApiDeclared, NoEllipsisIn, Height;
    if n == 0 {
    } else {
      StrictHasNoEllipsis(g, o, n - 1);
      InnerHeight(g, o, n - 1);
      InlineHasNoEllipsis(g, g[o].members[n - 1].ty, true);
    }
  }

  /** A definition ends in its only ellipsis, holds no bitfield beside it, and no inline body within it, at any
      depth, holds another. */
  ghost predicate Disciplined(body: seq<ApiItem>) {
    && body != [] && body[|body| - 1].Ellipsis?
    && NoEllipsis(body[..|body| - 1])
    && forall it :: it in body ==> !it.Bitfield?
  }

  lemma {:induction false} PartialHasNoEllipsis(g: Graph, o: Offset, n: nat)
    requires Dwarf.Closed(g) && Acyclic(g) && o in g && n <= |g[o].members|
    ensures NoEllipsis(PartialItems(g, o, n))
    ensures forall it :: it in PartialItems(g, o, n) ==> !it.Bitfield?
  {
    hide Dwarf.Closed, Acyclic, ApiDeclared, NoEllipsisIn;
    if n == 0 {
    } else {
      PartialHasNoEllipsis(g, o, n - 1);
      InnerHeight(g, o, n - 1);
      InlineHasNoEllipsis(g, g[o].members[n - 1].ty, false);
    }
  }

  lemma PartialDisciplined(g: Graph, o: Offset)
    requires Dwarf.Closed(g) && Acyclic(g) && o in g
    ensures Disciplined(PartialBody(g, o))
  {
    hide Dwarf.Closed, Acyclic, PartialItems, NoEllipsis;
    PartialHasNoEllipsis(g, o, |g[o].members|);
    var items := PartialItems(g, o, |g[o].members|);
    assert (items + [Ellipsis])[..|items|] == items;
  }
}
