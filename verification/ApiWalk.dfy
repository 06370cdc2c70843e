/** The walk of the API-mode emitter: which definitions it makes, in which order, and what they refer to. */
module ApiWalk {
  import opened Dwarf
  import opened Walk
  import Meaning
  import opened Api
  import opened Tags

  datatype Reference = Reference(kind: Kind, name: string)

  datatype ApiDefinition = ApiDefinition(kind: Kind, name: string, body: seq<ApiItem>)

  datatype ApiWarning =
    | MemberOmitted(owner: Option<string>, member: Option<string>)
    | BitfieldOmitted(owner: Option<string>, member: Option<string>)

  datatype ApiState = ApiState(
    defs: seq<ApiDefinition>,
    refs: map<Offset, Reference>,
    names: set<string>,
    warnings: seq<ApiWarning>)

  const NOTHING := ApiState([], map[], {}, [])

  function ReferenceTo(a: AggregateDie): Reference
    requires IsNamed(a)
  {
    Reference(a.kind, a.name.value)
  }

  ghost function Unreferenced(g: Graph, st: ApiState): nat {
    |g.Keys - st.refs.Keys|
  }

  lemma FewerUnreferenced(g: Graph, st: ApiState, st': ApiState)
    requires st.refs.Keys <= st'.refs.Keys
    ensures Unreferenced(g, st') <= Unreferenced(g, st)
    ensures forall o :: o in g && o !in st.refs && o in st'.refs ==> Unreferenced(g, st') < Unreferenced(g, st)
  {
    var a, b := g.Keys - st.refs.Keys, g.Keys - st'.refs.Keys;
    SubsetSize(b, a);
    forall o | o in g && o !in st.refs && o in st'.refs
      ensures |b| < |a|
    {
      SubsetSize(b, a - {o});
    }
  }

  function MemberWarnings(owner: Option<string>, m: MemberDie, d: Option<ApiDeclarator>): seq<ApiWarning> {
    if d.None? then [MemberOmitted(owner, m.name)]
    else if m.bitSize.Some? then [BitfieldOmitted(owner, m.name)]
    else []
  }

  function Entered(st: ApiState, o: Offset, a: AggregateDie): ApiState
    requires IsNamed(a)
  {
    st.(refs := st.refs[o := ReferenceTo(a)], names := st.names + {a.name.value})
  }

  /** Looking at the type of a member defines the named aggregate that it ends in. */
  function ApiVisit(g: Graph, st: ApiState, t: Type): (r: ApiState)
    requires Dwarf.Closed(g) && Acyclic(g) && LeafIn(g, t)
    ensures st.refs.Keys <= r.refs.Keys
    decreases Unreferenced(g, st), 1, 0
  {
    if Leaf(t).Some? && HasIdentifier(g[Leaf(t).value].name) then ApiEmit(g, st, Leaf(t).value) else st
  }

  /** The members of o from index i on. */
  function ApiMembers(g: Graph, st: ApiState, o: Offset, i: nat): (r: ApiState)
    requires Dwarf.Closed(g) && Acyclic(g) && o in g && i <= |g[o].members|
    ensures st.refs.Keys <= r.refs.Keys
    decreases Unreferenced(g, st), 2, |g[o].members| - i
  {
    if i == |g[o].members| then st
    else
      InnerHeight(g, o, i);
      var m := g[o].members[i];
      var st1 := ApiVisit(g, st, m.ty);
      FewerUnreferenced(g, st, st1);
      ApiMembers(g, st1.(warnings := st1.warnings + MemberWarnings(g[o].name, m, ApiDeclared(g, m.ty, false))), o, i + 1)
  }

  function ApiEmit(g: Graph, st: ApiState, o: Offset): (r: ApiState)
    requires Dwarf.Closed(g) && Acyclic(g) && o in g
    ensures st.refs.Keys <= r.refs.Keys
    decreases Unreferenced(g, st), 0, 0
  {
    if o in st.refs || !IsNamed(g[o]) then st
    else
      var name := g[o].name.value;
      var st1 := Entered(st, o, g[o]);
      if name in st.names then st1
      else
        FewerUnreferenced(g, st, st1);
        var st2 := ApiMembers(g, st1, o, 0);
        st2.(defs := st2.defs + [ApiDefinition(g[o].kind, name, PartialBody(g, o))])
  }

  // ---- Names ----

  ghost predicate SameNamesAgree(g: Graph, rank: map<Offset, nat>) {
    forall o, p ::
      o in g && p in g && o in rank && p in rank && IsNamed(g[o]) && IsNamed(g[p]) && g[o].name == g[p].name
      ==> rank[o] == rank[p] && g[o].kind == g[p].kind
  }

  /** No aggregate contains itself, not even by way of another one with the same name; and DIEs with the same name
      are of the same kind. */
  ghost predicate Coherent(g: Graph) {
    exists rank :: IsRank(g, rank) && SameNamesAgree(g, rank)
  }

  ghost function NameRank(g: Graph): (rank: map<Offset, nat>)
    requires Coherent(g)
    ensures IsRank(g, rank) && SameNamesAgree(g, rank)
  {
    var rank :| IsRank(g, rank) && SameNamesAgree(g, rank);
    rank
  }

  /** The references of a body by value.  Only declarations of its own have any. */
  ghost predicate RefersOnly(body: seq<ApiItem>, earlier: seq<ApiDefinition>) {
    forall it :: it in body && it.Declaration? && it.ctype.Named? ==>
      exists d :: d in earlier && d.kind == it.ctype.kind && d.name == it.ctype.name
  }

  /** A definition is the partial body of a DIE that is referred to by its name. */
  ghost predicate DefinedFrom(g: Graph, refs: map<Offset, Reference>, d: ApiDefinition, o: Offset)
    requires Dwarf.Closed(g) && Acyclic(g)
  {
    && o in g && o in refs && IsNamed(g[o])
    && d == ApiDefinition(g[o].kind, g[o].name.value, PartialBody(g, o))
  }

  ghost predicate RefsMatch(g: Graph, st: ApiState) {
    && (forall o :: o in st.refs ==> o in g && IsNamed(g[o]) && st.refs[o] == ReferenceTo(g[o]) && st.refs[o].name in st.names)
  }

  ghost predicate DefsMatch(g: Graph, st: ApiState)
    requires Dwarf.Closed(g) && Acyclic(g)
  {
    && (forall d :: d in st.defs ==> d.name in st.names && exists o :: DefinedFrom(g, st.refs, d, o))
    && (forall i, j :: 0 <= i < j < |st.defs| ==> st.defs[i].name != st.defs[j].name)
  }

  ghost predicate Defined(defs: seq<ApiDefinition>, name: string) {
    exists d :: d in defs && d.name == name
  }

  /** The definitions being written have names in use that are not defined yet, and different ones. */
  ghost predicate OpenNames(g: Graph, st: ApiState, open: set<Offset>) {
    && (forall p :: p in open ==> p in g && IsNamed(g[p]) && g[p].name.value in st.names)
    && (forall p :: p in open && p in g && IsNamed(g[p]) ==> !Defined(st.defs, g[p].name.value))
    && (forall p, q :: p in open && q in open && p in g && q in g && g[p].name == g[q].name ==> p == q)
  }

  ghost predicate OpenNamed(g: Graph, open: set<Offset>, name: string) {
    exists p :: p in open && p in g && IsNamed(g[p]) && g[p].name == Some(name)
  }

  /** Every name in use is defined, or belongs to a definition that is being written. */
  ghost predicate NamesMatch(g: Graph, st: ApiState, open: set<Offset>) {
    forall n :: n in st.names ==> OpenNamed(g, open, n) || Defined(st.defs, n)
  }

  ghost predicate InOrder(st: ApiState) {
    forall i :: 0 <= i < |st.defs| ==> RefersOnly(st.defs[i].body, st.defs[..i])
  }

  ghost predicate ApiInvariant(g: Graph, st: ApiState, open: set<Offset>)
    requires Dwarf.Closed(g) && Acyclic(g)
  {
    RefsMatch(g, st) && DefsMatch(g, st) && OpenNames(g, st, open) && NamesMatch(g, st, open)
    && (Coherent(g) ==> InOrder(st))
  }

  ghost predicate Beneath(g: Graph, o: Offset, open: set<Offset>) {
    Coherent(g) ==> forall p :: p in open && p in g && o in g ==> NameRank(g)[o] < NameRank(g)[p]
  }

  ghost predicate ApiKept(st: ApiState, st': ApiState) {
    && (forall o :: o in st.refs ==> o in st'.refs && st'.refs[o] == st.refs[o])
    && st.names <= st'.names
    && st.defs <= st'.defs
  }

  // ---- Single steps ----

  lemma AgainInvariant(g: Graph, st: ApiState, o: Offset, open: set<Offset>)
    requires Dwarf.Closed(g) && Acyclic(g) && ApiInvariant(g, st, open)
    requires o in g && IsNamed(g[o]) && g[o].name.value in st.names
    ensures ApiInvariant(g, Entered(st, o, g[o]), open)
  {
    hide Dwarf.Closed, Acyclic, IsNamed, PartialBody, Coherent, InOrder, NamesMatch, OpenNames;
    var r := Entered(st, o, g[o]);
    assert r.names == st.names;
    SameDefs(g, st, r, open);
    DefsGrow(g, st, r);
  }

  /** What depends on names and definitions only. */
  lemma SameDefs(g: Graph, st: ApiState, r: ApiState, open: set<Offset>)
    requires r.names == st.names && r.defs == st.defs
    ensures NamesMatch(g, st, open) ==> NamesMatch(g, r, open)
    ensures OpenNames(g, st, open) ==> OpenNames(g, r, open)
    ensures InOrder(st) ==> InOrder(r)
  {
  }

  lemma DefsGrow(g: Graph, st: ApiState, r: ApiState)
    requires Dwarf.Closed(g) && Acyclic(g) && DefsMatch(g, st) && r.defs == st.defs
    requires st.names <= r.names && forall o :: o in st.refs ==> o in r.refs
    ensures DefsMatch(g, r)
  {
    hide Dwarf.Closed, Acyclic, IsNamed, PartialBody;
    forall d | d in r.defs
      ensures d.name in r.names && exists o :: DefinedFrom(g, r.refs, d, o)
    {
      var o :| DefinedFrom(g, st.refs, d, o);
      assert DefinedFrom(g, r.refs, d, o);
    }
  }

  lemma EnteredInvariant(g: Graph, st: ApiState, o: Offset, open: set<Offset>)
    requires Dwarf.Closed(g) && Acyclic(g) && ApiInvariant(g, st, open)
    requires o in g && IsNamed(g[o]) && g[o].name.value !in st.names
    ensures ApiInvariant(g, Entered(st, o, g[o]), open + {o})
  {
    hide Dwarf.Closed, Acyclic, IsNamed, PartialBody, Coherent, InOrder, NamesMatch, OpenNames, DefsMatch;
    var r := Entered(st, o, g[o]);
    DefsGrow(g, st, r);
    EnteredNames(g, st, o, open);
    assert InOrder(st) ==> InOrder(r) by { SameOrder(st, r); }
  }

  lemma SameOrder(st: ApiState, r: ApiState)
    requires r.defs == st.defs
    ensures InOrder(st) ==> InOrder(r)
  {
  }

  lemma EnteredNames(g: Graph, st: ApiState, o: Offset, open: set<Offset>)
    requires Dwarf.Closed(g) && Acyclic(g) && DefsMatch(g, st) && OpenNames(g, st, open) && NamesMatch(g, st, open)
    requires o in g && IsNamed(g[o]) && g[o].name.value !in st.names
    ensures OpenNames(g, Entered(st, o, g[o]), open + {o})
    ensures NamesMatch(g, Entered(st, o, g[o]), open + {o})
  {
    hide Dwarf.Closed, Acyclic, PartialBody, HasIdentifier, DefinedFrom;
    var r, name := Entered(st, o, g[o]), g[o].name.value;
    forall n | n in r.names
      ensures OpenNamed(g, open + {o}, n) || Defined(r.defs, n)
    {
      if n in st.names && OpenNamed(g, open, n) {
        var p :| p in open && p in g && IsNamed(g[p]) && g[p].name == Some(n);
        assert p in open + {o};
      } else if n !in st.names {
        assert o in open + {o};
      }
    }
  }

  ghost function Close(st: ApiState, d: ApiDefinition): ApiState {
    st.(defs := st.defs + [d])
  }

  lemma DefinedLater(defs: seq<ApiDefinition>, d: ApiDefinition, name: string)
    ensures Defined(defs + [d], name) <==> Defined(defs, name) || d.name == name
  {
    assert d in defs + [d];
    if Defined(defs, name) {
      var e :| e in defs && e.name == name;
      assert e in defs + [d];
    }
  }

  lemma ClosedNames(g: Graph, st: ApiState, o: Offset, open: set<Offset>, d: ApiDefinition)
    requires OpenNames(g, st, open + {o}) && NamesMatch(g, st, open + {o}) && o !in open && o in g && IsNamed(g[o])
    requires d.name == g[o].name.value
    ensures OpenNames(g, Close(st, d), open) && NamesMatch(g, Close(st, d), open)
  {
    hide HasIdentifier, Defined;
    forall n
      ensures Defined(st.defs + [d], n) <==> Defined(st.defs, n) || d.name == n
    {
      DefinedLater(st.defs, d, n);
    }
    assert o in open + {o};
    forall p | p in open && p in g && IsNamed(g[p])
      ensures !Defined(st.defs + [d], g[p].name.value)
    {
      assert p in open + {o};
    }
    forall n | n in st.names
      ensures OpenNamed(g, open, n) || Defined(st.defs + [d], n)
    {
      if OpenNamed(g, open + {o}, n) {
        var p :| p in open + {o} && p in g && IsNamed(g[p]) && g[p].name == Some(n);
      }
    }
  }

  lemma ClosedDefs(g: Graph, st: ApiState, o: Offset, open: set<Offset>)
    requires Dwarf.Closed(g) && Acyclic(g) && DefsMatch(g, st) && OpenNames(g, st, open + {o})
    requires o in g && IsNamed(g[o]) && o in st.refs
    ensures DefsMatch(g, Close(st, ApiDefinition(g[o].kind, g[o].name.value, PartialBody(g, o))))
  {
    hide Dwarf.Closed, Acyclic, PartialBody, HasIdentifier;
    var d := ApiDefinition(g[o].kind, g[o].name.value, PartialBody(g, o));
    assert o in open + {o};
    assert !Defined(st.defs, d.name);
    assert DefinedFrom(g, st.refs, d, o);
    var r := Close(st, d);
    forall e | e in r.defs
      ensures e.name in r.names && exists p :: DefinedFrom(g, r.refs, e, p)
    {
      if e in st.defs {
        var p :| DefinedFrom(g, st.refs, e, p);
        assert DefinedFrom(g, r.refs, e, p);
      }
    }
  }

  lemma ClosedOrder(st: ApiState, d: ApiDefinition)
    requires InOrder(st) && RefersOnly(d.body, st.defs)
    ensures InOrder(Close(st, d))
  {
    hide RefersOnly;
    var r := Close(st, d);
    forall i | 0 <= i < |r.defs|
      ensures RefersOnly(r.defs[i].body, r.defs[..i])
    {
      assert r.defs[..i] == st.defs[..i];
      if i == |st.defs| {
        assert st.defs[..i] == st.defs;
      }
    }
  }

  // ---- References ----

  lemma {:induction false} NamedLeaf(g: Graph, t: Type)
    requires Dwarf.Closed(g) && Acyclic(g) && LeafIn(g, t)
    requires ApiDeclared(g, t, false).Some? && ApiDeclared(g, t, false).value.ctype.Named?
    ensures Leaf(t).Some? && IsNamed(g[Leaf(t).value])
    ensures var a, c := g[Leaf(t).value], ApiDeclared(g, t, false).value.ctype;
      c.kind == a.kind && c.name == a.name.value
    decreases Length(t)
  {
    hide Dwarf.Closed, Acyclic, InlineBody, Meaning.AllPositive;
    match t
    case Qualified(of) => NamedLeaf(g, of);
    case Typedef(of) => NamedLeaf(g, of);
    case Array(element, _) => NamedLeaf(g, element);
    case _ =>
  }

  /** A reference in a partial body comes from the type of one of the members. */
  lemma {:induction false} ReferenceFrom(g: Graph, o: Offset, n: nat, it: ApiItem) returns (i: nat)
    requires Dwarf.Closed(g) && Acyclic(g) && o in g && n <= |g[o].members|
    requires it in PartialItems(g, o, n) && it.Declaration? && it.ctype.Named?
    ensures i < n && Leaf(g[o].members[i].ty).Some? && Leaf(g[o].members[i].ty).value in g
    ensures var a := g[Leaf(g[o].members[i].ty).value];
      IsNamed(a) && it.ctype.kind == a.kind && it.ctype.name == a.name.value
  {
    hide Dwarf.Closed, Acyclic, ApiDeclared, IsNamed;
    InnerHeight(g, o, n - 1);
    var t := g[o].members[n - 1].ty;
    if it in PartialItems(g, o, n - 1) {
      i := ReferenceFrom(g, o, n - 1, it);
    } else {
      i := n - 1;
      NamedLeaf(g, t);
    }
  }

  /** The first i members of o have been looked at. */
  ghost predicate Referred(g: Graph, st: ApiState, o: Offset, i: nat)
    requires o in g && i <= |g[o].members|
  {
    forall j :: 0 <= j < i ==> LeafReferred(g, st, g[o].members[j].ty)
  }

  ghost predicate LeafReferred(g: Graph, st: ApiState, t: Type) {
    Leaf(t).Some? && Leaf(t).value in g && IsNamed(g[Leaf(t).value]) ==> g[Leaf(t).value].name.value in st.names
  }

  /** A name that a member of o refers to is defined when o is finished: it cannot be one that is being written. */
  lemma ReferenceDefined(g: Graph, st: ApiState, o: Offset, open: set<Offset>, i: nat)
    requires Dwarf.Closed(g) && Acyclic(g) && Coherent(g)
    requires DefsMatch(g, st) && NamesMatch(g, st, open + {o}) && Beneath(g, o, open)
    requires o in g && i < |g[o].members| && LeafReferred(g, st, g[o].members[i].ty)
    requires Leaf(g[o].members[i].ty).Some? && Leaf(g[o].members[i].ty).value in g
    requires IsNamed(g[Leaf(g[o].members[i].ty).value])
    ensures var a := g[Leaf(g[o].members[i].ty).value];
      exists d :: d in st.defs && d.kind == a.kind && d.name == a.name.value
  {
    hide Dwarf.Closed, Acyclic, Coherent, PartialBody, HasIdentifier;
    var inner := Leaf(g[o].members[i].ty).value;
    var rank, name := NameRank(g), g[inner].name.value;
    assert rank[inner] < rank[o];
    forall p | p in open + {o} && p in g && IsNamed(g[p])
      ensures g[p].name != Some(name)
    {
      assert rank[p] >= rank[o];
    }
    var d :| d in st.defs && d.name == name;
    var p :| DefinedFrom(g, st.refs, d, p);
  }

  lemma BodyRefers(g: Graph, st: ApiState, o: Offset, open: set<Offset>)
    requires Dwarf.Closed(g) && Acyclic(g) && Coherent(g)
    requires DefsMatch(g, st) && NamesMatch(g, st, open + {o}) && Beneath(g, o, open)
    requires o in g && Referred(g, st, o, |g[o].members|)
    ensures RefersOnly(PartialBody(g, o), st.defs)
  {
    hide Dwarf.Closed, Acyclic, Coherent, PartialItems, DefsMatch, NamesMatch, Beneath, IsNamed;
    var body := PartialBody(g, o);
    forall it | it in body && it.Declaration? && it.ctype.Named?
      ensures exists d :: d in st.defs && d.kind == it.ctype.kind && d.name == it.ctype.name
    {
      var i := ReferenceFrom(g, o, |g[o].members|, it);
      ReferenceDefined(g, st, o, open, i);
    }
  }

  // ---- The whole walk ----

  lemma KeptTwice(st0: ApiState, st1: ApiState, st2: ApiState)
    requires ApiKept(st0, st1) && ApiKept(st1, st2)
    ensures ApiKept(st0, st2)
  {
  }

  lemma StillReferred(g: Graph, st: ApiState, st': ApiState, o: Offset, i: nat)
    requires o in g && i <= |g[o].members| && Referred(g, st, o, i) && st.names <= st'.names
    ensures Referred(g, st', o, i)
  {
    hide IsNamed;
    forall j | 0 <= j < i
      ensures LeafReferred(g, st', g[o].members[j].ty)
    {
      assert LeafReferred(g, st, g[o].members[j].ty);
    }
  }

  lemma WarnedApi(g: Graph, st: ApiState, ws: seq<ApiWarning>, open: set<Offset>)
    requires Dwarf.Closed(g) && Acyclic(g) && ApiInvariant(g, st, open)
    ensures ApiInvariant(g, st.(warnings := st.warnings + ws), open)
  {
    hide Dwarf.Closed, Acyclic, IsNamed, PartialBody, Coherent, InOrder, NamesMatch, OpenNames, DefsMatch;
    var r := st.(warnings := st.warnings + ws);
    DefsGrow(g, st, r);
    SameDefs(g, st, r, open);
  }

  lemma InnerBeneath(g: Graph, o: Offset, i: nat, open: set<Offset>)
    requires Dwarf.Closed(g) && o in g && i < |g[o].members| && Leaf(g[o].members[i].ty).Some? && Beneath(g, o, open)
    ensures Beneath(g, Leaf(g[o].members[i].ty).value, open + {o})
  {
    hide Coherent;
    if Coherent(g) {
      assert IsRank(g, NameRank(g));
    }
  }

  lemma {:induction false} ApiVisitInvariant(g: Graph, st: ApiState, t: Type, open: set<Offset>)
    requires Dwarf.Closed(g) && Acyclic(g) && LeafIn(g, t) && ApiInvariant(g, st, open)
    requires Leaf(t).Some? ==> Beneath(g, Leaf(t).value, open)
    ensures var r := ApiVisit(g, st, t);
      ApiInvariant(g, r, open) && ApiKept(st, r) && LeafReferred(g, r, t)
    decreases Unreferenced(g, st), 1, 0
  {
    hide Dwarf.Closed, Acyclic, ApiInvariant, Beneath;
    if Leaf(t).Some? && HasIdentifier(g[Leaf(t).value].name) {
      ApiEmitInvariant(g, st, Leaf(t).value, open);
    }
  }

  lemma {:induction false} ApiMembersInvariant(g: Graph, st: ApiState, o: Offset, i: nat, open: set<Offset>)
    requires Dwarf.Closed(g) && Acyclic(g) && o in g && i <= |g[o].members|
    requires ApiInvariant(g, st, open + {o}) && Beneath(g, o, open) && Referred(g, st, o, i)
    ensures var r := ApiMembers(g, st, o, i);
      ApiInvariant(g, r, open + {o}) && ApiKept(st, r) && Referred(g, r, o, |g[o].members|)
    decreases Unreferenced(g, st), 2, |g[o].members| - i
  {
    hide Dwarf.Closed, Acyclic, ApiInvariant, Beneath, ApiVisit, ApiDeclared, LeafReferred, MemberWarnings, Referred,
      Height, Unreferenced, LeafIn;

    if i == |g[o].members| {
    } else {
      InnerHeight(g, o, i);
      var m := g[o].members[i];
      if Leaf(m.ty).Some? {
        InnerBeneath(g, o, i, open);
      }
      ApiVisitInvariant(g, st, m.ty, open + {o});
      var st1 := ApiVisit(g, st, m.ty);
      var ws := MemberWarnings(g[o].name, m, ApiDeclared(g, m.ty, false));
      var st2 := st1.(warnings := st1.warnings + ws);
      FewerUnreferenced(g, st, st2);
      WarnedApi(g, st1, ws, open + {o});
      ReferredNext(g, st, st1, st2, o, i);
      ApiMembersInvariant(g, st2, o, i + 1, open);
      KeptTwice(st, st2, ApiMembers(g, st2, o, i + 1));
    }
  }

  lemma ReferredNext(g: Graph, st: ApiState, st1: ApiState, st2: ApiState, o: Offset, i: nat)
    requires o in g && i < |g[o].members| && Referred(g, st, o, i)
    requires st.names <= st1.names == st2.names && LeafReferred(g, st1, g[o].members[i].ty)
    ensures Referred(g, st2, o, i + 1)
  {
    StillReferred(g, st, st2, o, i);
  }

  /** Emitting a definition keeps the invariant, whatever definitions are still being written. */
  lemma {:induction false} ApiEmitInvariant(g: Graph, st: ApiState, o: Offset, open: set<Offset>)
    requires Dwarf.Closed(g) && Acyclic(g) && o in g && ApiInvariant(g, st, open) && Beneath(g, o, open)
    ensures var r := ApiEmit(g, st, o);
      ApiInvariant(g, r, open) && ApiKept(st, r) && (IsNamed(g[o]) <==> o in r.refs)
    ensures IsNamed(g[o]) ==> g[o].name.value in ApiEmit(g, st, o).names
    decreases Unreferenced(g, st), 0, 0
  {
    hide Dwarf.Closed, Acyclic, ApiInvariant, Beneath, PartialBody, IsNamed, ApiMembers, ApiKept, Referred, Unreferenced;
    if o in st.refs {
      ReferencedNamed(g, st, o, open);
      KeptItself(st);
    } else if IsNamed(g[o]) {
      var name, st1 := g[o].name.value, Entered(st, o, g[o]);
      EnteredKept(st, o, g[o]);
      if name in st.names {
        AgainInvariant(g, st, o, open);
      } else {
        EnteredInvariant(g, st, o, open);
        FewerUnreferenced(g, st, st1);
        NoneReferred(g, st1, o);
        ApiMembersInvariant(g, st1, o, 0, open);
        var st2 := ApiMembers(g, st1, o, 0);
        KeptTwice(st, st1, st2);
        KeptNames(st1, st2, o);
        ClosedInvariant(g, st, st2, o, open);
        ClosedKept(st, st2, ApiDefinition(g[o].kind, name, PartialBody(g, o)));
      }
    } else {
      KeptItself(st);
    }
  }

  lemma KeptItself(st: ApiState)
    ensures ApiKept(st, st)
  {
  }

  lemma EnteredKept(st: ApiState, o: Offset, a: AggregateDie)
    requires IsNamed(a) && o !in st.refs
    ensures ApiKept(st, Entered(st, o, a))
    ensures o in Entered(st, o, a).refs && a.name.value in Entered(st, o, a).names
  {
    hide HasIdentifier;
  }

  lemma KeptNames(st: ApiState, st': ApiState, o: Offset)
    requires ApiKept(st, st') && o in st.refs
    ensures o in st'.refs && st.names <= st'.names
  {
  }

  lemma ClosedKept(st: ApiState, st2: ApiState, d: ApiDefinition)
    requires ApiKept(st, st2)
    ensures ApiKept(st, Close(st2, d))
  {
  }

  lemma NoneReferred(g: Graph, st: ApiState, o: Offset)
    requires o in g
    ensures Referred(g, st, o, 0)
  {
  }

  lemma ReferencedNamed(g: Graph, st: ApiState, o: Offset, open: set<Offset>)
    requires Dwarf.Closed(g) && Acyclic(g) && ApiInvariant(g, st, open) && o in st.refs
    ensures o in g && IsNamed(g[o]) && g[o].name.value in st.names
  {
    hide HasIdentifier, Dwarf.Closed, Acyclic, DefsMatch, OpenNames, NamesMatch, InOrder, Coherent;
  }

  lemma NotWriting(g: Graph, st: ApiState, o: Offset, open: set<Offset>)
    requires Dwarf.Closed(g) && Acyclic(g) && ApiInvariant(g, st, open)
    requires o in g && IsNamed(g[o]) && g[o].name.value !in st.names
    ensures o !in open
  {
    hide HasIdentifier, Dwarf.Closed, Acyclic, DefsMatch, NamesMatch, InOrder, Coherent, Defined;
  }

  lemma ClosedInvariant(g: Graph, st: ApiState, st2: ApiState, o: Offset, open: set<Offset>)
    requires Dwarf.Closed(g) && Acyclic(g) && o in g && IsNamed(g[o]) && Beneath(g, o, open)
    requires ApiInvariant(g, st, open) && g[o].name.value !in st.names
    requires ApiInvariant(g, st2, open + {o}) && o in st2.refs && Referred(g, st2, o, |g[o].members|)
    ensures ApiInvariant(g, Close(st2, ApiDefinition(g[o].kind, g[o].name.value, PartialBody(g, o))), open)
  {
    var d := ApiDefinition(g[o].kind, g[o].name.value, PartialBody(g, o));
    hide Dwarf.Closed, Acyclic, Beneath, PartialBody, HasIdentifier, Coherent, InOrder, NamesMatch, OpenNames, DefsMatch,
      Referred;
    NotWriting(g, st, o, open);
    ClosedNames(g, st2, o, open, d);
    ClosedDefs(g, st2, o, open);
    if Coherent(g) {
      BodyRefers(g, st2, o, open);
      ClosedOrder(st2, d);
    }
  }

  /** The emitter, started on any aggregate, leaves each name defined once, each definition the partial body of a
      DIE of that name, and, when names are coherent, every reference leading to an earlier definition. */
  lemma ApiWalkEstablishes(g: Graph, root: Offset)
    requires Dwarf.Closed(g) && Acyclic(g) && root in g
    ensures ApiInvariant(g, ApiEmit(g, NOTHING, root), {})
    ensures IsNamed(g[root]) <==> root in ApiEmit(g, NOTHING, root).refs
  {
    hide Dwarf.Closed, Acyclic, ApiInvariant, ApiEmit, IsNamed, Beneath;
    NothingEmitted(g, root);
    ApiEmitInvariant(g, NOTHING, root, {});
  }

  lemma NothingEmitted(g: Graph, root: Offset)
    requires Dwarf.Closed(g) && Acyclic(g)
    ensures ApiInvariant(g, NOTHING, {}) && Beneath(g, root, {})
  {
    hide Dwarf.Closed, Acyclic, Coherent, DefinedFrom, RefersOnly, IsNamed, PartialBody;
  }

  /** The definitions, whatever the root: one for each name, each ending in its only ellipsis. */
  lemma DefinitionsDisciplined(g: Graph, root: Offset)
    requires Dwarf.Closed(g) && Acyclic(g) && root in g
    ensures var st := ApiEmit(g, NOTHING, root);
      && (forall d :: d in st.defs ==> Disciplined(d.body))
      && (forall i, j :: 0 <= i < j < |st.defs| ==> st.defs[i].name != st.defs[j].name)
  {
    hide Dwarf.Closed, Acyclic, ApiEmit, PartialBody, Coherent, IsNamed, Disciplined, RefsMatch, OpenNames, NamesMatch,
      InOrder;
    ApiWalkEstablishes(g, root);
    var st := ApiEmit(g, NOTHING, root);
    forall d | d in st.defs
      ensures Disciplined(d.body)
    {
      var o :| DefinedFrom(g, st.refs, d, o);
      PartialDisciplined(g, o);
    }
  }

  /** With coherent names every name in use is defined, and every reference by value leads to an earlier definition. */
  lemma DefinitionsInOrder(g: Graph, root: Offset)
    requires Dwarf.Closed(g) && Acyclic(g) && Coherent(g) && root in g
    ensures var st := ApiEmit(g, NOTHING, root);
      && (forall name :: name in st.names <==> Defined(st.defs, name))
      && (forall i :: 0 <= i < |st.defs| ==> RefersOnly(st.defs[i].body, st.defs[..i]))
      && (IsNamed(g[root]) ==> Defined(st.defs, g[root].name.value))
  {
    hide Dwarf.Closed, Acyclic, ApiEmit, PartialBody, Coherent, HasIdentifier, RefersOnly, OpenNames;
    ApiWalkEstablishes(g, root);
  }
}
