/** The C declarators of the ABI-mode header, against what the types say in DWARF. */
module Declarators {
  import opened Dwarf
  import opened Header
  import opened Meaning
  import opened Walk
  import opened WalkFacts

  /** A type that C can express. */
  ghost predicate Representable(g: Graph, t: Type) {
    match t
    case Qualified(of) => Representable(g, of)
    case Typedef(of) => Representable(g, of)
    case Array(element, ranges) => Representable(g, element) && HasElements(ranges)
    case Aggregate(o) => o in g && !g[o].isDeclaration && g[o].byteSize > 0
    case _ => exists s :: Expresses(t, s)
  }

  /** The C type and the bounds stand for the type: the scalar of its encoding and width, or its aggregate under the
      aggregate's tag, and as many elements as each range has, outer ranges first. */
  ghost predicate Expressed(g: Graph, tags: map<Offset, string>, t: Type, c: CType, dims: seq<Positive>) {
    match t
    case Qualified(of) => Expressed(g, tags, of, c, dims)
    case Typedef(of) => Expressed(g, tags, of, c, dims)
    case Array(element, ranges) =>
      var n := |ranges|;
      && 0 < n <= |dims| && Bounds(ranges, dims[..n])
      && Expressed(g, tags, element, c, dims[n..])
    case Aggregate(o) => Representable(g, t) && o in tags && c == Tagged(g[o].kind, tags[o]) && dims == []
    case _ => c.Plain? && Expresses(t, c.scalar) && dims == []
  }

  /** The header has a declarator for a type exactly when there is one that stands for it, and it is that. */
  lemma {:induction false} DeclaredExactly(g: Graph, tags: map<Offset, string>, t: Type)
    ensures forall c, dims :: Expressed(g, tags, t, c, dims) <==> Declared(g, tags, t) == Some(Declarator(c, dims))
    decreases Length(t)
  {
    hide BaseScalar, UnsignedScalar, EnumerationSize, Encodes;
    match t
    case Qualified(of) => DeclaredExactly(g, tags, of);
    case Typedef(of) => DeclaredExactly(g, tags, of);
    case Array(element, ranges) =>
      DeclaredExactly(g, tags, element);
      ArraysDeclared(g, tags, element, ranges);
    case Aggregate(o) =>
    case _ =>
      forall s
        ensures Expresses(t, s) <==> Declared(g, tags, t) == Some(Declarator(Plain(s), []))
      {
        ScalarExactly(t, s);
      }
  }

  lemma ArraysDeclared(g: Graph, tags: map<Offset, string>, element: Type, ranges: seq<Subrange>)
    requires forall c, dims :: Expressed(g, tags, element, c, dims) <==>
      Declared(g, tags, element) == Some(Declarator(c, dims))
    ensures forall c, dims :: Expressed(g, tags, Array(element, ranges), c, dims) <==>
      Declared(g, tags, Array(element, ranges)) == Some(Declarator(c, dims))
  {
    hide Expressed, Declared;
    PositiveExactly(ranges);
    forall c, dims: seq<Positive>
      ensures Expressed(g, tags, Array(element, ranges), c, dims) <==>
        Declared(g, tags, Array(element, ranges)) == Some(Declarator(c, dims))
    {
      SplitBounds(ranges, dims);
      ArrayUnfolds(g, tags, element, ranges, c, dims);
      var n, outer := |ranges|, ArrayDims(ranges);
      if n <= |dims| {
        assert dims == dims[..n] + dims[n..];
      }
      if Declared(g, tags, Array(element, ranges)) == Some(Declarator(c, dims)) {
        assert dims[..n] == outer && dims[n..] == Declared(g, tags, element).value.dims;
      }
    }
  }

  lemma ArrayUnfolds(g: Graph, tags: map<Offset, string>, element: Type, ranges: seq<Subrange>, c: CType,
                     dims: seq<Positive>)
    ensures Expressed(g, tags, Array(element, ranges), c, dims) <==>
      && 0 < |ranges| <= |dims| && Bounds(ranges, dims[..|ranges|])
      && Expressed(g, tags, element, c, dims[|ranges|..])
    ensures
      var inner, outer := Declared(g, tags, element), ArrayDims(ranges);
      Declared(g, tags, Array(element, ranges)) ==
        if inner.Some? && AllPositive(outer) then Some(Declarator(inner.value.ctype, outer + inner.value.dims)) else None
  {
  }

  lemma {:induction false} RepresentableExactly(g: Graph, tags: map<Offset, string>, t: Type)
    requires LeafTagged(g, tags, t)
    ensures Declared(g, tags, t).Some? <==> Representable(g, t)
    decreases Length(t)
  {
    hide BaseScalar, UnsignedScalar, EnumerationSize, Encodes;
    match t
    case Array(element, ranges) =>
      RepresentableExactly(g, tags, element);
      PositiveExactly(ranges);
    case Qualified(of) => RepresentableExactly(g, tags, of);
    case Typedef(of) => RepresentableExactly(g, tags, of);
    case Aggregate(o) =>
    case _ =>
      forall s
        ensures Expresses(t, s) <==> Declared(g, tags, t) == Some(Declarator(Plain(s), []))
      {
        ScalarExactly(t, s);
      }
  }
}
