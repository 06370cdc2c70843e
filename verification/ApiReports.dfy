/** What becomes of every member in API mode: it is declared, reported by one warning, or, when it has no name and
    its type has one, left out without any. */
module ApiReports {
  import opened Dwarf
  import opened Walk
  import opened Api
  import opened ApiWalk

  // ---- One member ----

  /** A member without a name is only declared when its type is written out inside it. */
  predicate SilentlyOmitted(m: MemberDie, d: Option<ApiDeclarator>) {
    m.name.None? && m.bitSize.None? && d.Some? && !d.value.ctype.Inline?
  }

  /** Exactly one declaration or one warning, unless it is left out. */
  lemma MemberFate(owner: Option<string>, m: MemberDie, d: Option<ApiDeclarator>)
    ensures |PartialItem(m, d)| + |MemberWarnings(owner, m, d)| == if SilentlyOmitted(m, d) then 0 else 1
    ensures PartialItem(m, d) == [] && MemberWarnings(owner, m, d) == [] <==> SilentlyOmitted(m, d)
  {
  }

  /** A member is reported as omitted exactly if nothing stands for its type, and as a bitfield exactly if something
      does. */
  lemma WarningMeans(g: Graph, o: Offset, i: nat)
    requires Dwarf.Closed(g) && Acyclic(g) && o in g && i < |g[o].members| && LeafIn(g, g[o].members[i].ty)
    ensures
      var m := g[o].members[i];
      var ws := MemberWarnings(g[o].name, m, ApiDeclared(g, m.ty, false));
      && (ws == [MemberOmitted(g[o].name, m.name)] <==> !HasType(g, m.ty))
      && (ws == [BitfieldOmitted(g[o].name, m.name)] <==> HasType(g, m.ty) && m.bitSize.Some?)
  {
    hide Dwarf.Closed, Acyclic, WrittenOut, ApiDeclared;
    var d := ApiDeclared(g, g[o].members[i].ty, false);
    TypesWritten(g, g[o].members[i].ty, false);
    if d.Some? {
      assert d == Some(ApiDeclarator(d.value.ctype, d.value.dims));
      assert WrittenOut(g, g[o].members[i].ty, false, d.value.ctype, d.value.dims);
    }
  }

  ghost predicate HasType(g: Graph, t: Type)
    requires Dwarf.Closed(g) && Acyclic(g) && LeafIn(g, t)
  {
    exists c, dims :: WrittenOut(g, t, false, c, dims)
  }

  // ---- All members of one definition ----

  /** The warnings for the first n members. */
  function ApiReportsOf(g: Graph, o: Offset, n: nat): seq<ApiWarning>
    requires Dwarf.Closed(g) && Acyclic(g) && o in g && n <= |g[o].members|
  {
    if n == 0 then []
    else
      InnerHeight(g, o, n - 1);
      var m := g[o].members[n - 1];
      ApiReportsOf(g, o, n - 1) + MemberWarnings(g[o].name, m, ApiDeclared(g, m.ty, false))
  }

  /** Those of the first n members that are left out. */
  function Omitted(g: Graph, o: Offset, n: nat): seq<MemberDie>
    requires Dwarf.Closed(g) && Acyclic(g) && o in g && n <= |g[o].members|
  {
    if n == 0 then []
    else
      InnerHeight(g, o, n - 1);
      var m := g[o].members[n - 1];
      Omitted(g, o, n - 1) + if SilentlyOmitted(m, ApiDeclared(g, m.ty, false)) then [m] else []
  }

  /** No member is lost and none is counted twice. */
  lemma {:induction false} EveryMember(g: Graph, o: Offset, n: nat)
    requires Dwarf.Closed(g) && Acyclic(g) && o in g && n <= |g[o].members|
    ensures |PartialItems(g, o, n)| + |ApiReportsOf(g, o, n)| + |Omitted(g, o, n)| == n
  {
    hide Dwarf.Closed, Acyclic, ApiDeclared, PartialItem, MemberWarnings, SilentlyOmitted;
    if n == 0 {
    } else {
      InnerHeight(g, o, n - 1);
      var m := g[o].members[n - 1];
      EveryMember(g, o, n - 1);
      MemberFate(g[o].name, m, ApiDeclared(g, m.ty, false));
    }
  }

  // ---- Over the walk ----

  /** The warnings about the definition of this name. */
  function About(ws: seq<ApiWarning>, name: string): seq<ApiWarning> {
    if ws == [] then []
    else
      var n := |ws| - 1;
      About(ws[..n], name) + if ws[n].owner == Some(name) then [ws[n]] else []
  }

  lemma {:induction false} AboutJoin(a: seq<ApiWarning>, b: seq<ApiWarning>, name: string)
    ensures About(a + b, name) == About(a, name) + About(b, name)
  {
    if b == [] {
      assert a + b == a;
    } else {
      var n := |b| - 1;
      AboutJoin(a, b[..n], name);
      assert (a + b)[..|a| + n] == a + b[..n];
    }
  }

  lemma {:induction false} AboutNone(ws: seq<ApiWarning>, name: string)
    requires forall w :: w in ws ==> w.owner != Some(name)
    ensures About(ws, name) == []
  {
    if ws == [] {
    } else {
      AboutNone(ws[..|ws| - 1], name);
    }
  }

  /** A definition is that of a DIE, and the warnings about it are those for the members of this DIE, in order. */
  ghost predicate ReportedFor(g: Graph, ws: seq<ApiWarning>, d: ApiDefinition, o: Offset)
    requires Dwarf.Closed(g) && Acyclic(g)
  {
    && o in g && IsNamed(g[o])
    && d == ApiDefinition(g[o].kind, g[o].name.value, PartialBody(g, o))
    && About(ws, d.name) == ApiReportsOf(g, o, |g[o].members|)
  }

  ghost predicate ApiReported(g: Graph, st: ApiState)
    requires Dwarf.Closed(g) && Acyclic(g)
  {
    && (forall w :: w in st.warnings ==> w.owner.Some? && w.owner.value in st.names)
    && (forall d :: d in st.defs ==> exists o :: ReportedFor(g, st.warnings, d, o))
  }

  /** The first i members of o have been reported. */
  ghost predicate ApiReporting(g: Graph, st: ApiState, o: Offset, i: nat)
    requires Dwarf.Closed(g) && Acyclic(g)
  {
    && o in g && i <= |g[o].members| && IsNamed(g[o]) && g[o].name.value in st.names
    && About(st.warnings, g[o].name.value) == ApiReportsOf(g, o, i)
  }

  /** No name in use got a warning, except for one. */
  ghost predicate ApiQuiet(st: ApiState, st': ApiState, except: Option<string>) {
    && st.names <= st'.names
    && forall n :: n in st.names && Some(n) != except ==> About(st'.warnings, n) == About(st.warnings, n)
  }

  /** Warnings about a definition that is being written. */
  lemma WarnedAbout(g: Graph, st: ApiState, o: Offset, i: nat, open: set<Offset>)
    requires Dwarf.Closed(g) && Acyclic(g) && ApiInvariant(g, st, open) && o in open && ApiReported(g, st)
    requires ApiReporting(g, st, o, i) && i < |g[o].members| && LeafIn(g, g[o].members[i].ty)
    ensures
      var m := g[o].members[i];
      var r := st.(warnings := st.warnings + MemberWarnings(g[o].name, m, ApiDeclared(g, m.ty, false)));
      ApiReported(g, r) && ApiReporting(g, r, o, i + 1) && ApiQuiet(st, r, g[o].name)
  {
    hide Dwarf.Closed, Acyclic, ApiDeclared, HasIdentifier, PartialBody, RefsMatch, DefsMatch, NamesMatch, InOrder,
      Coherent, About, ApiReportsOf;
    var m, name := g[o].members[i], g[o].name.value;
    var ws := MemberWarnings(g[o].name, m, ApiDeclared(g, m.ty, false));
    var r := st.(warnings := st.warnings + ws);
    OwnWarnings(g[o].name, m, ApiDeclared(g, m.ty, false));
    forall n
      ensures About(r.warnings, n) == About(st.warnings, n) + if n == name then ws else []
    {
      AboutJoin(st.warnings, ws, n);
    }
    NextApiReport(g, o, i);
    forall d | d in r.defs
      ensures exists p :: ReportedFor(g, r.warnings, d, p)
    {
      var p :| ReportedFor(g, st.warnings, d, p);
      assert d.name != name by { NotDefined(g, st, o, open, d); }
      assert ReportedFor(g, r.warnings, d, p);
    }
  }

  lemma OwnWarnings(owner: Option<string>, m: MemberDie, d: Option<ApiDeclarator>)
    requires owner.Some?
    ensures var ws := MemberWarnings(owner, m, d);
      && (forall w :: w in ws ==> w.owner == owner)
      && forall n :: About(ws, n) == if Some(n) == owner then ws else []
  {
    var ws := MemberWarnings(owner, m, d);
    assert |ws| == 1 ==> ws[..0] == [];
  }

  lemma NextApiReport(g: Graph, o: Offset, i: nat)
    requires Dwarf.Closed(g) && Acyclic(g) && o in g && i < |g[o].members| && LeafIn(g, g[o].members[i].ty)
    ensures ApiReportsOf(g, o, i + 1) ==
      ApiReportsOf(g, o, i) + MemberWarnings(g[o].name, g[o].members[i], ApiDeclared(g, g[o].members[i].ty, false))
  {
    hide Dwarf.Closed, Acyclic, ApiDeclared;
  }

  lemma NotDefined(g: Graph, st: ApiState, o: Offset, open: set<Offset>, d: ApiDefinition)
    requires Dwarf.Closed(g) && Acyclic(g) && ApiInvariant(g, st, open) && o in open && o in g && IsNamed(g[o])
    requires d in st.defs
    ensures d.name != g[o].name.value
  {
    hide Dwarf.Closed, Acyclic, HasIdentifier, RefsMatch, DefsMatch, NamesMatch, InOrder, Coherent;
    assert !Defined(st.defs, g[o].name.value);
  }

  lemma {:induction false} ApiVisitReported(g: Graph, st: ApiState, t: Type, open: set<Offset>)
    requires Dwarf.Closed(g) && Acyclic(g) && LeafIn(g, t) && ApiInvariant(g, st, open) && ApiReported(g, st)
    requires Leaf(t).Some? ==> Beneath(g, Leaf(t).value, open)
    ensures var r := ApiVisit(g, st, t);
      ApiReported(g, r) && ApiQuiet(st, r, None)
    decreases Unreferenced(g, st), 1, 0
  {
    hide Dwarf.Closed, Acyclic, ApiInvariant, Beneath, ApiReported, About;
    if Leaf(t).Some? && HasIdentifier(g[Leaf(t).value].name) {
      ApiEmitReported(g, st, Leaf(t).value, open);
    }
  }

  lemma {:induction false} ApiMembersReported(g: Graph, st: ApiState, o: Offset, i: nat, open: set<Offset>)
    requires Dwarf.Closed(g) && Acyclic(g) && o in g && i <= |g[o].members|
    requires ApiInvariant(g, st, open + {o}) && Beneath(g, o, open)
    requires ApiReported(g, st) && ApiReporting(g, st, o, i)
    ensures var r := ApiMembers(g, st, o, i);
      ApiReported(g, r) && ApiReporting(g, r, o, |g[o].members|) && ApiQuiet(st, r, g[o].name)
    decreases Unreferenced(g, st), 2, |g[o].members| - i
  {
    hide Dwarf.Closed, Acyclic, ApiInvariant, Beneath, ApiVisit, ApiDeclared, MemberWarnings, ApiReported, About,
      ApiReportsOf, Height, Unreferenced, LeafIn;
    if i == |g[o].members| {
    } else {
      InnerHeight(g, o, i);
      var m := g[o].members[i];
      if Leaf(m.ty).Some? {
        InnerBeneath(g, o, i, open);
      }
      ApiVisitInvariant(g, st, m.ty, open + {o});
      ApiVisitReported(g, st, m.ty, open + {o});
      var st1 := ApiVisit(g, st, m.ty);
      var ws := MemberWarnings(g[o].name, m, ApiDeclared(g, m.ty, false));
      var st2 := st1.(warnings := st1.warnings + ws);
      FewerUnreferenced(g, st, st2);
      WarnedApi(g, st1, ws, open + {o});
      assert o in open + {o};
      WarnedAbout(g, st1, o, i, open + {o});
      ApiMembersReported(g, st2, o, i + 1, open);
    }
  }

  lemma {:induction false} ApiEmitReported(g: Graph, st: ApiState, o: Offset, open: set<Offset>)
    requires Dwarf.Closed(g) && Acyclic(g) && o in g && ApiInvariant(g, st, open) && Beneath(g, o, open)
    requires ApiReported(g, st)
    ensures var r := ApiEmit(g, st, o);
      ApiReported(g, r) && ApiQuiet(st, r, None)
    decreases Unreferenced(g, st), 0, 0
  {
    hide Dwarf.Closed, Acyclic, ApiInvariant, Beneath, PartialBody, ApiMembers, Unreferenced, About, HasIdentifier,
      ApiReportsOf;
    if o !in st.refs && IsNamed(g[o]) {
      var name, st1 := g[o].name.value, Entered(st, o, g[o]);
      if name !in st.names {
        EnteredInvariant(g, st, o, open);
        FewerUnreferenced(g, st, st1);
        AboutNone(st.warnings, name);
        assert ApiReportsOf(g, o, 0) == [] by { NoApiReports(g, o); }
        ApiMembersReported(g, st1, o, 0, open);
        var st2, d := ApiMembers(g, st1, o, 0), ApiDefinition(g[o].kind, name, PartialBody(g, o));
        assert ReportedFor(g, st2.warnings, d, o);
      }
    }
  }

  lemma NoApiReports(g: Graph, o: Offset)
    requires Dwarf.Closed(g) && Acyclic(g) && o in g
    ensures ApiReportsOf(g, o, 0) == []
  {
  }

  /** Each definition has a DIE whose members are all accounted for: written in its body, as their attributes have it,
      reported by the warnings about it, in order and once each, or left out because they have no name of their own
      but one for their type. */
  lemma EveryApiFate(g: Graph, root: Offset, d: ApiDefinition) returns (o: Offset)
    requires Dwarf.Closed(g) && Acyclic(g) && root in g && d in ApiEmit(g, NOTHING, root).defs
    ensures o in g && IsNamed(g[o]) && d == ApiDefinition(g[o].kind, g[o].name.value, PartialBody(g, o))
    ensures var n, ws := |g[o].members|, About(ApiEmit(g, NOTHING, root).warnings, d.name);
      && d.body != [] && d.body[|d.body| - 1].Ellipsis? && PartWritten(g, o, n, d.body[..|d.body| - 1])
      && ws == ApiReportsOf(g, o, n)
      && |d.body| - 1 + |ws| + |Omitted(g, o, n)| == n
  {
    hide Dwarf.Closed, Acyclic, ApiInvariant, ApiEmit, HasIdentifier, Beneath, About, ApiReportsOf, Omitted, PartialItems;
    NothingEmitted(g, root);
    NothingReported(g);
    ApiEmitReported(g, NOTHING, root, {});
    o :| ReportedFor(g, ApiEmit(g, NOTHING, root).warnings, d, o);
    EveryMember(g, o, |g[o].members|);
    PartialBodies(g, o, |g[o].members|);
    assert d.body[..|d.body| - 1] == PartialItems(g, o, |g[o].members|);
  }

  lemma NothingReported(g: Graph)
    requires Dwarf.Closed(g) && Acyclic(g)
    ensures ApiReported(g, NOTHING)
  {
  }
}
