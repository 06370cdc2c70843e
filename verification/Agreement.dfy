/** The two headers agree: what the ABI-mode header declares of a named aggregate, the API-mode definition of the
    same aggregate declares as well. */
module Agreement {
  import opened Dwarf
  import opened Header
  import opened Offsets
  import opened Repair
  import opened Walk
  import opened WalkFacts
  import opened Paths
  import opened Api
  import opened ApiWalk
  import opened ApiEmitter
  import opened Fixpoint
  import AbiHeader
  import Extractor

  /** The type does not end, through arrays and typedefs, in an aggregate without a name. */
  predicate EndsNamed(g: Graph, t: Type) {
    Leaf(t).Some? ==> Leaf(t).value in g && HasIdentifier(g[Leaf(t).value].name)
  }

  /** The same scalar; or the same aggregate, under its tag in one header and its own name in the other. */
  ghost predicate SameType(g: Graph, tags: map<Offset, string>, t: Type, abi: CType, api: ApiType) {
    match abi
    case Plain(s) => api == ApiType.Plain(s)
    case Tagged(kind, tag) =>
      && Leaf(t).Some? && Leaf(t).value in g && Leaf(t).value in tags
      && tag == tags[Leaf(t).value]
      && g[Leaf(t).value].name.Some?
      && api == Named(kind, g[Leaf(t).value].name.value)
  }

  lemma {:induction false} TypesAgree(g: Graph, tags: map<Offset, string>, t: Type)
    requires Dwarf.Closed(g) && Acyclic(g) && LeafIn(g, t) && EndsNamed(g, t)
    requires Declared(g, tags, t).Some?
    ensures var abi, api := Declared(g, tags, t).value, ApiDeclared(g, t, false);
      api.Some? && api.value.dims == abi.dims && SameType(g, tags, t, abi.ctype, api.value.ctype)
    decreases Length(t)
  {
    hide Dwarf.Closed, Acyclic, InlineBody;
    match t
    case Qualified(of) => TypesAgree(g, tags, of);
    case Typedef(of) => TypesAgree(g, tags, of);
    case Array(element, _) => TypesAgree(g, tags, element);
    case _ =>
  }

  lemma {:induction false} PartialInto(g: Graph, o: Offset, n: nat, j: nat)
    requires Dwarf.Closed(g) && Acyclic(g) && o in g && j < n <= |g[o].members| && LeafIn(g, g[o].members[j].ty)
    ensures forall it :: it in PartialItem(g[o].members[j], ApiDeclared(g, g[o].members[j].ty, false)) ==>
      it in PartialItems(g, o, n)
  {
    hide Dwarf.Closed, Acyclic, ApiDeclared, PartialItem;
    if j == n - 1 {
    } else {
      PartialInto(g, o, n - 1, j);
    }
  }

  /** A member that the ABI-mode header declares, unless its type ends in an aggregate without a name, is declared
      by the API-mode definition of the same aggregate, with the same array suffix and the same type. */
  lemma EmittersAgree(g: Graph, st: State, api: ApiState, o: Offset, d: ApiDefinition, m: Header.Member)
      returns (j: nat, c: ApiType)
    requires Dwarf.Closed(g) && Acyclic(g) && Verified(g, st) && o in st.tags && st.tags[o] in st.structs
    requires d in api.defs && DefinedFrom(g, api.refs, d, o)
    requires m in st.structs[st.tags[o]].members && m.name != UNION_PAD
    ensures j < |g[o].members| && Kept(g, st.tags, g[o].members[j]) && m == KeptMember(g, st.tags, g[o].members[j])
    ensures EndsNamed(g, g[o].members[j].ty) ==>
      && Declaration(c, m.name, m.dims) in d.body
      && SameType(g, st.tags, g[o].members[j].ty, m.ctype, c)
  {
    hide Dwarf.Closed, Acyclic, Verified, ApiDeclared, Declared, DecodedOffset, SameType, PartialItems,
      HasIdentifier;
    j := MemberOrigin(g, st, o, m);
    var die := g[o].members[j];
    InnerHeight(g, o, j);
    c := ApiType.Plain(VoidPointer);
    if EndsNamed(g, die.ty) {
      TypesAgree(g, st.tags, die.ty);
      c := ApiDeclared(g, die.ty, false).value.ctype;
      PartialInto(g, o, |g[o].members|, j);
      assert Declaration(c, m.name, m.dims) in PartialItem(die, ApiDeclared(g, die.ty, false));
    }
  }

  /** Both headers of one library: they are generated exactly when the ABI-mode header is and the root has a name.
      Each emitter works on its own; the second starts from nothing again. */
  method Generate(g: Graph, root: Offset)
      returns (abi: Extractor.Result<AbiHeader.Text>, api: seq<ApiDefinition>, typedefOf: Option<Reference>,
               ghost st: State, ghost apiState: ApiState)
    requires Dwarf.Closed(g) && Acyclic(g) && root in g
    ensures abi.Returned? <==>
      && AbiHeader.Walks(g, root)
      && RemainingAll(AbiHeader.WalkedDefinitions(g, root), map[]) < 200
      && IsNamed(g[root])
    ensures abi.Returned? ==>
      && Verified(g, st) && root in st.tags
      && abi.value == AbiHeader.Text(RenderedAll(Ordered(st)), g[root].kind, st.tags[root])
      && apiState == ApiEmit(g, NOTHING, root) && api == apiState.defs
      && typedefOf == Some(ReferenceTo(g[root]))
  {
    hide Dwarf.Closed, Acyclic, RemainingAll, Verified, ApiEmit, AbiHeader.Walks, HasIdentifier;
    api, typedefOf, apiState := [], None, NOTHING;
    abi, st := AbiHeader.Generate(g, root);
    if abi.Raised? {
      return;
    }
    var emitter := new ApiCdefEmitter(g);
    typedefOf := emitter.Render(root);
    if typedefOf.None? {
      abi := Extractor.Raised;
      return;
    }
    api, apiState := emitter.defs, emitter.View();
  }
}
