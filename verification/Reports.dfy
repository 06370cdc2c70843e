/** What becomes of every member in DWARF: after the walk it is declared, reported by one warning, or, in a union,
    left out without one. */
module Reports {
  import opened Dwarf
  import opened Header
  import opened Offsets
  import opened Meaning
  import opened Repair
  import opened Walk
  import opened WalkFacts
  import opened Declarators
  import opened Failure

  // ---- The warnings about one definition ----

  function ReportsOf(ws: seq<Warning>, tag: string): seq<Warning> {
    if ws == [] then []
    else
      var n := |ws| - 1;
      ReportsOf(ws[..n], tag) + if ws[n].tag == tag then [ws[n]] else []
  }

  lemma OneMore(ws: seq<Warning>, w: Warning, tag: string)
    ensures ReportsOf(ws + [w], tag) == ReportsOf(ws, tag) + if w.tag == tag then [w] else []
  {
    assert (ws + [w])[..|ws|] == ws;
  }

  lemma {:induction false} NoneOf(ws: seq<Warning>, tag: string)
    requires forall w :: w in ws ==> w.tag != tag
    ensures ReportsOf(ws, tag) == []
  {
    if ws == [] {
    } else {
      NoneOf(ws[..|ws| - 1], tag);
    }
  }

  /** The warning about a member that the walk drops. */
  function Report(g: Graph, tags: map<Offset, string>, tag: string, m: MemberDie): Option<Warning> {
    if !HasIdentifier(m.name) then Some(AnonymousDropped(tag))
    else if m.bitSize.Some? then Some(BitfieldDropped(tag, m.name.value))
    else if Declared(g, tags, m.ty).None? then Some(TypeDropped(tag, m.name.value))
    else None
  }

  function OneReport(r: Option<Warning>): seq<Warning> {
    if r.Some? then [r.value] else []
  }

  function Reports(g: Graph, tags: map<Offset, string>, tag: string, ms: seq<MemberDie>): seq<Warning> {
    if ms == [] then []
    else
      var n := |ms| - 1;
      Reports(g, tags, tag, ms[..n]) + OneReport(Report(g, tags, tag, ms[n]))
  }

  lemma {:induction false} ReportsStable(g: Graph, tags: map<Offset, string>, tags': map<Offset, string>, tag: string,
                                         ms: seq<MemberDie>)
    requires Grown(tags, tags') && AllTagged(g, tags, ms)
    ensures Reports(g, tags', tag, ms) == Reports(g, tags, tag, ms)
  {
    hide Declared, HasIdentifier;
    if ms == [] {
    } else {
      var n := |ms| - 1;
      ReportsStable(g, tags, tags', tag, ms[..n]);
      if Walked(ms[n]) {
        DeclaredStable(g, tags, tags', ms[n].ty);
      }
    }
  }

  // ---- Over the walk ----

  ghost predicate ReportedAt(g: Graph, st: State, o: Offset) {
    o in g && o in st.tags && ReportsOf(st.warnings, st.tags[o]) == Reports(g, st.tags, st.tags[o], g[o].members)
  }

  /** The warnings about each finished definition are those for its members, in order. */
  ghost predicate Reported(g: Graph, st: State, open: set<Offset>) {
    && (forall w :: w in st.warnings ==> w.tag in st.structs)
    && (forall o :: o in st.tags && o !in open ==> ReportedAt(g, st, o))
  }

  /** The first i members of o have been reported. */
  ghost predicate Reporting(g: Graph, st: State, o: Offset, i: nat) {
    && o in g && i <= |g[o].members| && o in st.tags
    && ReportsOf(st.warnings, st.tags[o]) == Reports(g, st.tags, st.tags[o], g[o].members[..i])
  }

  /** No definition of before got a warning, except for excepted ones. */
  ghost predicate Quiet(st: State, st': State, except: set<string>) {
    forall t :: t in st.structs && t !in except ==> ReportsOf(st'.warnings, t) == ReportsOf(st.warnings, t)
  }

  lemma QuietTwice(st0: State, st1: State, st2: State, except: set<string>)
    requires Quiet(st0, st1, except) && Quiet(st1, st2, except) && st0.structs.Keys <= st1.structs.Keys
    ensures Quiet(st0, st2, except)
  {
  }

  lemma ReportedTag(g: Graph, st: State, o: Offset, open: set<Offset>)
    requires Invariant(g, st, open) && o in st.tags
    ensures o in g && st.tags[o] in st.structs
    ensures o !in open ==> AllTagged(g, st.tags, g[o].members)
  {
    hide AllTagged, KeptMembers, Finished, Unrepaired, OrderMatches, DependencyOrder, Acyclic, Emittable;
    assert st.tags[o] in st.tags.Values;
  }

  lemma OpenedReported(g: Graph, st: State, o: Offset, open: set<Offset>)
    requires Invariant(g, st, open) && Reported(g, st, open) && o in g && o !in st.tags && Emittable(g[o])
    ensures var r := Opened(st, o, g[o]);
      Reported(g, r, open + {o}) && Reporting(g, r, o, 0) && Quiet(st, r, {})
  {
    hide Invariant, AllTagged, Reports, NewTag, Emittable;
    var r := Opened(st, o, g[o]);
    OpenedInvariant(g, st, o, open);
    NoneOf(st.warnings, r.tags[o]);
    assert g[o].members[..0] == [];
    assert Reports(g, r.tags, r.tags[o], []) == [] by { NoMembers(g, r.tags, r.tags[o]); }
    forall p | p in r.tags && p !in open + {o}
      ensures ReportedAt(g, r, p)
    {
      assert ReportedAt(g, st, p);
      ReportedTag(g, st, p, open);
      ReportsStable(g, st.tags, r.tags, st.tags[p], g[p].members);
    }
  }

  lemma NoMembers(g: Graph, tags: map<Offset, string>, tag: string)
    ensures Reports(g, tags, tag, []) == []
  {
  }

  /** A warning about one open definition. */
  lemma WarnedReported(g: Graph, st: State, o: Offset, w: Warning, open: set<Offset>)
    requires Invariant(g, st, open) && Reported(g, st, open) && o in open && o in st.tags && w.tag == st.tags[o]
    ensures var r := Warn(st, w);
      && Reported(g, r, open) && Quiet(st, r, {st.tags[o]})
      && ReportsOf(r.warnings, st.tags[o]) == ReportsOf(st.warnings, st.tags[o]) + [w]
  {
    hide Contents, OrderMatches, DependencyOrder, Unrepaired, Acyclic, Emittable, Reports, ReportsOf;
    var r := Warn(st, w);
    ReportedTag(g, st, o, open);
    forall t
      ensures ReportsOf(r.warnings, t) == ReportsOf(st.warnings, t) + if w.tag == t then [w] else []
    {
      OneMore(st.warnings, w, t);
    }
    forall p | p in r.tags && p !in open
      ensures ReportedAt(g, r, p)
    {
      assert ReportedAt(g, st, p);
    }
  }

  lemma {:induction false} VisitReported(g: Graph, st: State, t: Type, open: set<Offset>)
    requires Dwarf.Closed(g) && LeafIn(g, t) && Invariant(g, st, open) && Reported(g, st, open)
    requires Leaf(t).Some? ==> Below(g, Leaf(t).value, open)
    requires Visit(g, st, t).Some?
    ensures var r := Visit(g, st, t).value;
      Reported(g, r, open) && Quiet(st, r, {})
    decreases Missing(g, st), 1, 0
  {
    hide Invariant, Dwarf.Closed, Reported, Below;
    if Leaf(t).Some? {
      EmitReported(g, st, Leaf(t).value, open);
    }
  }

  lemma NextReport(g: Graph, st: State, st1: State, r: State, o: Offset, i: nat)
    requires Reporting(g, st, o, i) && i < |g[o].members| && AllTagged(g, st.tags, g[o].members[..i])
    requires Grown(st.tags, st1.tags) && r.tags == st1.tags
    requires ReportsOf(r.warnings, st.tags[o]) ==
      ReportsOf(st.warnings, st.tags[o]) + OneReport(Report(g, st1.tags, st.tags[o], g[o].members[i]))
    ensures Reporting(g, r, o, i + 1)
  {
    hide Report, ReportsOf, AllTagged;
    var ms := g[o].members;
    ReportsStable(g, st.tags, st1.tags, st.tags[o], ms[..i]);
    assert ms[..i + 1][..i] == ms[..i];
  }

  lemma {:induction false} WalkMemberReported(g: Graph, st: State, o: Offset, i: nat, open: set<Offset>)
    requires Dwarf.Closed(g) && Invariant(g, st, open + {o}) && Building(g, st, o, i) && i < |g[o].members|
    requires Reported(g, st, open + {o}) && Reporting(g, st, o, i)
    requires Below(g, o, open) && LeafIn(g, g[o].members[i].ty)
    requires WalkMember(g, st, st.tags[o], g[o].members[i]).Some?
    ensures var r := WalkMember(g, st, st.tags[o], g[o].members[i]).value;
      Reported(g, r, open + {o}) && Reporting(g, r, o, i + 1) && Quiet(st, r, {st.tags[o]})
    decreases Missing(g, st), 2, 0
  {
    hide Invariant, Dwarf.Closed, Declared, DecodedOffset, HasIdentifier, AllTagged, KeptMembers, Below, Visit, Reports,
      ReportsOf, Reporting;
    var m, tag := g[o].members[i], st.tags[o];
    var r := WalkMember(g, st, tag, m).value;
    assert AllTagged(g, st.tags, g[o].members[..i]);
    if !Walked(m) {
      WarnedReported(g, st, o, Report(g, st.tags, tag, m).value, open + {o});
      NextReport(g, st, st, r, o, i);
    } else {
      if Leaf(m.ty).Some? {
        InnerBelow(g, o, i, open);
      }
      VisitInvariant(g, st, m.ty, open + {o});
      VisitReported(g, st, m.ty, open + {o});
      var st1 := Visit(g, st, m.ty).value;
      assert st1.tags[o] == tag && tag in st.structs;
      if Declared(g, st1.tags, m.ty).None? {
        WarnedReported(g, st1, o, TypeDropped(tag, m.name.value), open + {o});
      } else {
        SameReports(g, st1, r, open + {o});
      }
      NextReport(g, st, st1, r, o, i);
    }
  }

  lemma SameReports(g: Graph, st: State, r: State, open: set<Offset>)
    requires Reported(g, st, open) && r.tags == st.tags && r.warnings == st.warnings && r.structs.Keys == st.structs.Keys
    ensures Reported(g, r, open) && Quiet(st, r, {})
  {
    hide Reports, ReportsOf;
    forall p | p in r.tags && p !in open
      ensures ReportedAt(g, r, p)
    {
      assert ReportedAt(g, st, p);
    }
  }

  lemma {:induction false} WalkMembersReported(g: Graph, st: State, o: Offset, i: nat, open: set<Offset>)
    requires Dwarf.Closed(g) && Invariant(g, st, open + {o}) && Building(g, st, o, i)
    requires Reported(g, st, open + {o}) && Reporting(g, st, o, i)
    requires Below(g, o, open) && LeavesIn(g, g[o].members) && LeavesIn(g, g[o].members[i..])
    requires WalkMembers(g, st, st.tags[o], g[o].members[i..]).Some?
    ensures var r := WalkMembers(g, st, st.tags[o], g[o].members[i..]).value;
      && Reported(g, r, open + {o}) && Reporting(g, r, o, |g[o].members|) && Quiet(st, r, {st.tags[o]})
      && r.tags[o] == st.tags[o]
    decreases Missing(g, st), 3, |g[o].members| - i
  {
    hide Invariant, Dwarf.Closed, WalkMember, AllTagged, KeptMembers, Below, Reported, ReportsOf, Reports;
    var ms, tag := g[o].members, st.tags[o];
    if i == |ms| {
    } else {
      assert ms[i..][0] == ms[i] && ms[i..][1..] == ms[i + 1..];
      WalkMemberInvariant(g, st, o, i, open);
      WalkMemberReported(g, st, o, i, open);
      var st1 := WalkMember(g, st, tag, ms[i]).value;
      FewerMissing(g, st, st1);
      WalkMembersReported(g, st1, o, i + 1, open);
      QuietTwice(st, st1, WalkMembers(g, st, tag, ms[i..]).value, {tag});
    }
  }

  lemma {:induction false} EmitReported(g: Graph, st: State, o: Offset, open: set<Offset>)
    requires Dwarf.Closed(g) && o in g && Invariant(g, st, open) && Below(g, o, open) && Reported(g, st, open)
    requires Emit(g, st, o).Some?
    ensures var r := Emit(g, st, o).value;
      Reported(g, r, open) && Quiet(st, r, {})
    decreases Missing(g, st), 0, 0
  {
    hide Invariant, Dwarf.Closed, AllTagged, KeptMembers, Emittable, Below, Reports, ReportsOf, Building;
    if o in st.tags || !Emittable(g[o]) {
    } else {
      var st1 := Opened(st, o, g[o]);
      var tag, ms := st1.tags[o], g[o].members;
      OpenedInvariant(g, st, o, open);
      OpenedReported(g, st, o, open);
      FewerMissing(g, st, st1);
      NothingBuilt(g, st1, o);
      MembersLeaves(g, o);
      assert ms[0..] == ms;
      WalkMembersReported(g, st1, o, 0, open);
      var st2 := WalkMembers(g, st1, tag, ms).value;
      assert ms[..|ms|] == ms;
      FinishedReported(g, st1, st2, o, open);
      assert tag !in st.structs;
      QuietTwice(st, st1, st2, {tag});
    }
  }

  lemma FinishedReported(g: Graph, st1: State, st2: State, o: Offset, open: set<Offset>)
    requires o in g && Reported(g, st2, open + {o}) && Reporting(g, st2, o, |g[o].members|)
    requires o in st1.tags && st2.tags[o] == st1.tags[o] && st1.tags[o] in st2.structs
    ensures Reported(g, Completed(st2, st1.tags[o]), open)
  {
    hide Reports, ReportsOf, Finished;
    var r := Completed(st2, st1.tags[o]);
    assert g[o].members[..|g[o].members|] == g[o].members;
    forall p | p in r.tags && p !in open
      ensures ReportedAt(g, r, p)
    {
      if p != o {
        assert ReportedAt(g, st2, p);
      }
    }
  }

  // ---- What becomes of a member ----

  datatype Fate = InDefinition(m: Member) | Warned(w: Warning) | LeftOut

  /** Only a member of a union can be left out without a warning. */
  function FateOf(g: Graph, tags: map<Offset, string>, tag: string, kind: Kind, m: MemberDie): Fate {
    var report := Report(g, tags, tag, m);
    if report.Some? then Warned(report.value)
    else if Kept(g, tags, m) && (kind.Union? ==> DecodedOffset(m.location).value == 0) then
      InDefinition(KeptMember(g, tags, m))
    else LeftOut
  }

  function Fates(g: Graph, tags: map<Offset, string>, tag: string, a: AggregateDie): seq<Fate> {
    seq(|a.members|, i requires 0 <= i < |a.members| => FateOf(g, tags, tag, a.kind, a.members[i]))
  }

  function MembersAmong(fates: seq<Fate>): seq<Member> {
    if fates == [] then []
    else
      var n := |fates| - 1;
      MembersAmong(fates[..n]) + if fates[n].InDefinition? then [fates[n].m] else []
  }

  function WarningsAmong(fates: seq<Fate>): seq<Warning> {
    if fates == [] then []
    else
      var n := |fates| - 1;
      WarningsAmong(fates[..n]) + if fates[n].Warned? then [fates[n].w] else []
  }

  lemma NothingAtZero()
    ensures AtOffsetZero([]) == []
  {
  }

  lemma AtZeroNext(ms: seq<Member>)
    requires ms != []
    ensures AtOffsetZero(ms) == (if ms[0].offset == 0 then [ms[0]] else []) + AtOffsetZero(ms[1..])
  {
  }

  lemma {:induction false} AtZeroJoin(a: seq<Member>, b: seq<Member>)
    ensures AtOffsetZero(a + b) == AtOffsetZero(a) + AtOffsetZero(b)
  {
    hide AtOffsetZero;
    NothingAtZero();
    if a == [] {
      assert a + b == b;
    } else {
      AtZeroJoin(a[1..], b);
      AtZeroNext(a);
      AtZeroNext(a + b);
      assert (a + b)[1..] == a[1..] + b;
    }
  }

  /** What one member adds. */
  lemma OneFate(g: Graph, tags: map<Offset, string>, tag: string, kind: Kind, m: MemberDie)
    ensures
      var fate := FateOf(g, tags, tag, kind, m);
      var kept := if Kept(g, tags, m) then [KeptMember(g, tags, m)] else [];
      && (if fate.Warned? then [fate.w] else []) == OneReport(Report(g, tags, tag, m))
      && (if fate.InDefinition? then [fate.m] else []) == if kind.Union? then AtOffsetZero(kept) else kept
  {
    hide Declared, DecodedOffset, HasIdentifier;
    assert Kept(g, tags, m) ==> AtOffsetZero([KeptMember(g, tags, m)][1..]) == [];
  }

  lemma {:induction false} FatesAmong(g: Graph, tags: map<Offset, string>, tag: string, a: AggregateDie, n: nat)
    requires n <= |a.members|
    ensures |Fates(g, tags, tag, a)| == |a.members|
    ensures
      var fates, kept := Fates(g, tags, tag, a)[..n], KeptMembers(g, tags, a.members[..n]);
      && WarningsAmong(fates) == Reports(g, tags, tag, a.members[..n])
      && MembersAmong(fates) == if a.kind.Union? then AtOffsetZero(kept) else kept
  {
    hide Kept, KeptMember, FateOf, Report, OneReport, AtOffsetZero;
    var all := Fates(g, tags, tag, a);
    if n == 0 {
      NothingAtZero();
    } else {
      FatesAmong(g, tags, tag, a, n - 1);
      assert all[..n][..n - 1] == all[..n - 1] && a.members[..n][..n - 1] == a.members[..n - 1];
      var m := a.members[n - 1];
      OneFate(g, tags, tag, a.kind, m);
      AtZeroJoin(KeptMembers(g, tags, a.members[..n - 1]), if Kept(g, tags, m) then [KeptMember(g, tags, m)] else []);
    }
  }

  /** What has to become of a member of an aggregate, by its attributes. */
  ghost predicate IsFate(g: Graph, tags: map<Offset, string>, tag: string, kind: Kind, m: MemberDie, fate: Fate) {
    match fate
    case InDefinition(x) =>
      && Walked(m) && x.name == m.name.value && Expressed(g, tags, m.ty, x.ctype, x.dims)
      && Understood(m.location) && x.offset == Position(m.location) && (kind.Union? ==> x.offset == 0)
    case Warned(w) =>
      || (w == AnonymousDropped(tag) && !HasIdentifier(m.name))
      || (HasIdentifier(m.name) && m.bitSize.Some? && w == BitfieldDropped(tag, m.name.value))
      || (Walked(m) && !Representable(g, m.ty) && w == TypeDropped(tag, m.name.value))
    case LeftOut =>
      && kind.Union? && Walked(m) && Representable(g, m.ty)
      && Understood(m.location) && Position(m.location) != 0
  }

  /** Every member in DWARF has the one fate that its attributes give it.  A definition declares, in order, exactly
      the members that are to be in it (a union also the one that pins its size), each with its type, bounds and
      place; the warnings about it are exactly those for the reported members, in order; and a member is left out
      without a warning only if it is one of a union that the header could declare, were it not for its place. */
  lemma EveryFate(g: Graph, root: Offset, o: Offset)
    requires Dwarf.Closed(g) && root in g && Emit(g, EMPTY, root).Some? && o in Emit(g, EMPTY, root).value.tags
    ensures o in g && g[o].byteSize > 0
    ensures
      var st, a := Emit(g, EMPTY, root).value, g[o];
      var tag, fates := st.tags[o], Fates(g, st.tags, st.tags[o], a);
      && tag in st.structs
      && (forall i :: 0 <= i < |fates| ==> IsFate(g, st.tags, tag, a.kind, a.members[i], fates[i]))
      && st.structs[tag].members == MembersAmong(fates) +
           (if a.kind.Union? then [Member("_penguin_union_pad", CType.Plain(UInt8), [a.byteSize], 0)] else [])
      && ReportsOf(st.warnings, tag) == WarningsAmong(fates)
  {
    hide Dwarf.Closed, Emit, Invariant, Fates, AllTagged, KeptMembers, Reports, ReportsOf, Sound, IsFate;
    var st := Emit(g, EMPTY, root).value;
    WalkEstablishes(g, root);
    WalkFails(g, root);
    NothingWalked(g);
    EmitReported(g, EMPTY, root, {});
    ReportedTag(g, st, o, {});
    TaggedEmittable(g, st, o, {});
    assert ReportedAt(g, st, o);
    var a, tag := g[o], st.tags[o];
    var fates := Fates(g, st.tags, tag, a);
    FatesAmong(g, st.tags, tag, a, |a.members|);
    assert a.members[..|a.members|] == a.members;
    assert fates[..|fates|] == fates;
    DefinitionListed(g, st, o);
    forall i | 0 <= i < |fates|
      ensures IsFate(g, st.tags, tag, a.kind, a.members[i], fates[i])
    {
      FateAt(g, st.tags, tag, o, i);
    }
  }

  lemma FateAt(g: Graph, tags: map<Offset, string>, tag: string, o: Offset, i: nat)
    requires Sound(g, tags, o) && i < |g[o].members|
    ensures IsFate(g, tags, tag, g[o].kind, g[o].members[i], Fates(g, tags, tag, g[o])[i])
  {
    hide Declared, DecodedOffset, HasIdentifier, Representable, LeafTagged, Expressed, Understood, Position;
    var m := g[o].members[i];
    assert SoundMember(g, tags, m);
    if Walked(m) {
      RepresentableExactly(g, tags, m.ty);
      DecodedExactly(m.location);
      DeclaredExactly(g, tags, m.ty);
      var d := Declared(g, tags, m.ty);
      assert d.Some? ==> Expressed(g, tags, m.ty, d.value.ctype, d.value.dims);
    }
  }

  lemma {:induction false} Among(fates: seq<Fate>, i: nat)
    requires i < |fates| && fates[i].InDefinition?
    ensures fates[i].m in MembersAmong(fates)
  {
    var n := |fates| - 1;
    if i == n {
    } else {
      Among(fates[..n], i);
    }
  }

  /** A member with a name, no bitfield and a type that C can express is declared where its location says: at 0
      without one, at a constant, or at the operand of DW_OP_plus_uconst.  In a union it has to be at 0. */
  lemma DeclaredAt(g: Graph, root: Offset, o: Offset, i: nat, c: CType, dims: seq<Positive>)
    requires Dwarf.Closed(g) && root in g && Emit(g, EMPTY, root).Some? && o in Emit(g, EMPTY, root).value.tags
    requires o in g && i < |g[o].members| && HasIdentifier(g[o].members[i].name) && g[o].members[i].bitSize.None?
    requires Expressed(g, Emit(g, EMPTY, root).value.tags, g[o].members[i].ty, c, dims)
    ensures
      var st, m := Emit(g, EMPTY, root).value, g[o].members[i];
      && Understood(m.location) && st.tags[o] in st.structs
      && (g[o].kind.Struct? || Position(m.location) == 0 ==>
            Member(m.name.value, c, dims, Position(m.location)) in st.structs[st.tags[o]].members)
  {
    hide Dwarf.Closed, Emit, HasIdentifier, Expressed, Declared, Understood, Position, Representable, MembersAmong;
    var st, m := Emit(g, EMPTY, root).value, g[o].members[i];
    EveryFate(g, root, o);
    var fates := Fates(g, st.tags, st.tags[o], g[o]);
    assert IsFate(g, st.tags, st.tags[o], g[o].kind, m, fates[i]);
    DeclaredExactly(g, st.tags, m.ty);
    WalkFails(g, root);
    assert SoundMember(g, st.tags, m);
    RepresentableExactly(g, st.tags, m.ty);
    if fates[i].InDefinition? {
      var x := fates[i].m;
      assert Declarator(x.ctype, x.dims) == Declarator(c, dims);
      Among(fates, i);
    }
  }

  lemma DefinitionListed(g: Graph, st: State, o: Offset)
    requires Invariant(g, st, {}) && o in st.tags && o in g && st.tags[o] in st.structs
    ensures st.structs[st.tags[o]].members == Finished(g[o].kind, g[o].byteSize, KeptMembers(g, st.tags, g[o].members))
  {
    hide AllTagged, KeptMembers, Finished, Unrepaired, OrderMatches, DependencyOrder, Acyclic, Emittable, TagsMatch;
  }
}
