/** The ABI-mode header from end to end: walk, repair, and what a normal return means. */
module AbiHeader {
  import opened Dwarf
  import opened Header
  import opened Repair
  import opened Fixpoint
  import opened ClosedForm
  import opened Walk
  import opened WalkFacts
  import opened Paths
  import opened TextPaths
  import opened Alignment
  import opened Meaning
  import opened Natural
  import opened Failure
  import opened Completeness
  import opened Extractor

  /** Repairs change padding and opacity only. */
  ghost predicate SameContents(defs: seq<Definition>, defs': seq<Definition>) {
    && |defs| == |defs'|
    && forall i :: 0 <= i < |defs| ==>
         var d, d' := defs[i], defs'[i];
         d'.tag == d.tag && d'.kind == d.kind && d'.size == d.size && d'.members == d.members
  }

  lemma {:induction false} RunKeeps(defs: seq<Definition>, n: nat)
    requires AllSane(defs)
    ensures SameContents(defs, Run(defs, n))
    decreases n
  {
    hide FirstMismatch;
    if n == 0 {
    } else {
      var f := FirstMismatch(defs, map[]);
      if f.Some? {
        SameKind(defs[f.value.position], f.value.mismatch);
      }
      RunKeeps(Step(defs), n - 1);
    }
  }

  /** Definitions with the same contents and the same bodies read the same. */
  lemma SameText(defs: seq<Definition>, defs': seq<Definition>)
    requires SameContents(defs, defs') && RenderAll(defs) == RenderAll(defs')
    ensures RenderedAll(defs) == RenderedAll(defs')
  {
    hide Render;
    forall i | 0 <= i < |defs|
      ensures RenderedOf(defs[i]) == RenderedOf(defs'[i])
    {
      assert RenderAll(defs)[i] == Render(defs[i]) && RenderAll(defs')[i] == Render(defs'[i]);
    }
  }

  lemma {:induction false} PaddedKeeps(defs: seq<Definition>, known: Layouts)
    ensures SameContents(defs, PaddedAll(defs, known))
  {
    hide Padded, LayoutOf;
    if defs == [] {
    } else {
      PaddedTag(defs[0], known);
      var next := known[defs[0].tag := LayoutOf(Padded(defs[0], known), known)];
      PaddedKeeps(defs[1..], next);
      assert PaddedAll(defs, known)[1..] == PaddedAll(defs[1..], next);
    }
  }

  /** Refinement: a run that has become exact reads like the one-pass padding of the header it started from. */
  lemma RunIsPadding(defs: seq<Definition>, n: nat)
    requires AllSane(defs) && AllFresh(defs) && Exact(Run(defs, n))
    ensures RenderedAll(Run(defs, n)) == RenderedAll(PaddedAll(defs, map[]))
  {
    hide RenderAll, RenderedAll, Exact, Run, AllFresh, SameContents;
    Termination(defs, n);
    OutcomeAllIsClosed(defs, map[]);
    RunKeeps(defs, n);
    PaddedKeeps(defs, map[]);
    SameBoth(defs, Run(defs, n), PaddedAll(defs, map[]));
    SameText(Run(defs, n), PaddedAll(defs, map[]));
  }

  lemma SameBoth(a: seq<Definition>, b: seq<Definition>, c: seq<Definition>)
    requires SameContents(a, b) && SameContents(a, c)
    ensures SameContents(b, c)
  {
  }

  // ---- Exact opacity ----

  /** The outcome of each definition, with the layouts of the final header before it. */
  lemma {:induction false} OutcomeAt(defs: seq<Definition>, final: seq<Definition>, known: Layouts, k: nat)
    requires SameContents(defs, final) && RenderAll(final) == OutcomeAll(defs, known) && k < |defs|
    ensures Render(final[k]) == Outcome(defs[k], LayoutAll(final[..k], known))
  {
    hide Render, Outcome, BodyLayout;
    assert RenderAll(final)[0] == Render(final[0]) == Outcome(defs[0], known);
    if k == 0 {
    } else {
      var next := Settled(defs[0], known);
      assert next == known[final[0].tag := LayoutOf(final[0], known)];
      assert RenderAll(final)[1..] == RenderAll(final[1..]);
      assert OutcomeAll(defs, known)[1..] == OutcomeAll(defs[1..], next);
      OutcomeAt(defs[1..], final[1..], next, k - 1);
      assert final[..k][1..] == final[1..][..k - 1];
    }
  }

  /** Exact opacity: in the final header a definition is opaque if and only if DWARF places its members outside
      what C can do with the layouts before it. */
  lemma OpaqueIffMisplaced(defs: seq<Definition>, n: nat, k: nat)
    requires AllSane(defs) && AllFresh(defs) && Exact(Run(defs, n)) && k < |defs|
    ensures |Run(defs, n)| == |defs|
    ensures Run(defs, n)[k].opaqueBytes <==> !WellPlaced(defs[k], LayoutAll(Run(defs, n)[..k], map[]))
  {
    hide RenderAll, Exact, Run, WellPlaced, Outcome, LayoutAll, Render, Sane, OutcomeAll;
    var final := Run(defs, n);
    Termination(defs, n);
    RunKeeps(defs, n);
    OutcomeAt(defs, final, map[], k);
    OpaqueExactly(defs[k], LayoutAll(final[..k], map[]));
    SaneSize(final[k]);
    if final[k].opaqueBytes {
      OpaqueBody(final[k]);
    } else {
      NotOpaque(final[k], final[k].size);
    }
  }

  // ---- A normal return ----

  /** A header whose repair became exact is verified, and its definitions are still in dependency order. */
  lemma RepairedVerified(g: Graph, walked: State, st: State, n: nat)
    requires Invariant(g, walked, {}) && OrderKnown(walked) && AllSane(Ordered(walked))
    requires st.order == walked.order && st.tags == walked.tags && st.structs.Keys == walked.structs.Keys
    requires OrderKnown(st) && Ordered(st) == Run(Ordered(walked), n) && Exact(Run(Ordered(walked), n))
    ensures Verified(g, st)
    ensures Acyclic(g) ==> DependencyOrder(st)
  {
    hide Run, Exact, AllSane, Acyclic, Emittable, AllTagged, KeptMembers, Finished;
    WalkReady(g, walked);
    RunKeeps(Ordered(walked), n);
    forall t | t in st.structs
      ensures
        var d, d' := walked.structs[t], st.structs[t];
        d'.tag == d.tag && d'.kind == d.kind && d'.size == d.size && d'.members == d.members
    {
      var k :| 0 <= k < |walked.order| && walked.order[k] == t;
      assert Ordered(walked)[k] == walked.structs[t] && Ordered(st)[k] == st.structs[t];
    }
    SameListed(g, walked, st);
  }

  lemma SameListed(g: Graph, walked: State, st: State)
    requires Contents(g, walked, {}) && OrderKnown(walked)
    requires st.order == walked.order && st.tags == walked.tags && st.structs.Keys == walked.structs.Keys
    requires forall t :: t in st.structs ==>
      var d, d' := walked.structs[t], st.structs[t];
      d'.tag == d.tag && d'.kind == d.kind && d'.size == d.size && d'.members == d.members
    ensures Contents(g, st, {})
    ensures DependencyOrder(walked) ==> DependencyOrder(st)
  {
    hide AllTagged, KeptMembers, Finished;
    if DependencyOrder(walked) {
      forall i | 0 <= i < |st.order|
        ensures st.order[i] in st.structs && NamesOnly(st.structs[st.order[i]], st.order[..i])
      {
        assert NamesOnly(walked.structs[walked.order[i]], walked.order[..i]);
      }
    }
  }

  /** After a normal return on DWARF that is not packed, every aggregate with a definition can be entered. */
  lemma NothingHidden(g: Graph, walked: State, st: State, n: nat, align: map<Offset, nat>)
    requires Invariant(g, walked, {}) && Acyclic(g) && NonPacked(g, align)
    requires OrderKnown(walked) && AllSane(Ordered(walked)) && AllFresh(Ordered(walked))
    requires st.order == walked.order && st.tags == walked.tags && st.structs.Keys == walked.structs.Keys
    requires OrderKnown(st) && Ordered(st) == Run(Ordered(walked), n) && Exact(Run(Ordered(walked), n))
    ensures Visible(st) == st.tags.Keys
  {
    hide Run, Exact, AllSane, AllFresh, Acyclic, NonPacked, Invariant, RenderedAll, AllWellPlaced, PaddedAll;
    NothingGetsOpaque(g, walked, align);
    WalkReady(g, walked);
    var defs := Ordered(walked);
    RunIsPadding(defs, n);
    PlacedNotOpaque(defs, map[]);
    forall o | o in st.tags
      ensures o in Visible(st)
    {
      TagInOrder(g, walked, o);
      var k :| 0 <= k < |st.order| && st.order[k] == st.tags[o];
      assert Ordered(st)[k] == st.structs[st.tags[o]];
      RunSized(defs, n, k);
      SameOpacity(Run(defs, n), PaddedAll(defs, map[]), k);
    }
  }

  lemma TagInOrder(g: Graph, st: State, o: Offset)
    requires Invariant(g, st, {}) && o in st.tags
    ensures st.tags[o] in st.structs && st.tags[o] in st.order
  {
    hide Contents, DependencyOrder, Unrepaired, Emittable, Acyclic;
    assert st.tags[o] in st.tags.Values;
  }

  lemma RunSized(defs: seq<Definition>, n: nat, k: nat)
    requires AllSane(defs) && k < |Run(defs, n)|
    ensures Run(defs, n)[k].size > 0
  {
    hide Run, Sane;
    assert Sane(Run(defs, n)[k]);
    SaneSize(Run(defs, n)[k]);
  }

  lemma SameOpacity(a: seq<Definition>, b: seq<Definition>, k: nat)
    requires RenderedAll(a) == RenderedAll(b) && k < |a| && |a| == |b| && a[k].size > 0
    ensures a[k].opaqueBytes ==> b[k].opaqueBytes
  {
    hide Render;
    assert RenderedAll(a)[k] == RenderedOf(a[k]) && RenderedAll(b)[k] == RenderedOf(b[k]);
    if a[k].opaqueBytes && !b[k].opaqueBytes {
      OpaqueBody(a[k]);
      NotOpaque(b[k], a[k].size);
    }
  }

  lemma {:induction false} PlacedNotOpaque(defs: seq<Definition>, known: Layouts)
    requires AllFresh(defs) && AllWellPlaced(defs, known)
    ensures forall k :: 0 <= k < |defs| ==> !PaddedAll(defs, known)[k].opaqueBytes
  {
    hide Padded, LayoutOf, WellPlaced;
    if defs == [] {
    } else {
      PaddedTag(defs[0], known);
      PlacedNotOpaque(defs[1..], known[defs[0].tag := LayoutOf(Padded(defs[0], known), known)]);
    }
  }

  // ---- Generation ----

  datatype Text = Text(definitions: seq<Rendered>, rootKind: Kind, rootTag: string)

  /** The root has a definition, and no chain of definitions leads from it to a member that cannot be decoded. */
  ghost predicate Walks(g: Graph, root: Offset)
    requires root in g
  {
    !g[root].isDeclaration && g[root].byteSize > 0 && !exists path :: LeadsToFlaw(g, root, path)
  }

  lemma WalksExactly(g: Graph, root: Offset)
    requires Dwarf.Closed(g) && root in g
    ensures Walks(g, root) <==> Emit(g, EMPTY, root).Some? && Emittable(g[root])
  {
    hide Emit, LeadsToFlaw;
    WalkFails(g, root);
  }

  /** The definitions that the walk from the root leaves, before any repair. */
  ghost function WalkedDefinitions(g: Graph, root: Offset): (defs: seq<Definition>)
    requires Dwarf.Closed(g) && root in g && Walks(g, root)
    ensures AllSane(defs) && AllFresh(defs)
  {
    WalkFails(g, root);
    var st := Emit(g, EMPTY, root).value;
    WalkEstablishes(g, root);
    WalkReady(g, st);
    Ordered(st)
  }

  /** A library whose types C lays out plainly, all of which the header can express, gets its header at once. */
  lemma PlainHeader(g: Graph, root: Offset)
    requires Dwarf.Closed(g) && Acyclic(g) && PlainLayout(g) && root in g
    ensures Walks(g, root) && RemainingAll(WalkedDefinitions(g, root), map[]) == 0
  {
    hide Dwarf.Closed, Acyclic, Emit, RemainingAll, Invariant, Declarable, Widest, Understood;
    assert PlainAggregate(g, root);
    forall path | LeadsToFlaw(g, root, path)
      ensures false
    {
      var o := path[|path| - 1];
      assert PlainAggregate(g, o);
      forall i | 0 <= i < |g[o].members|
        ensures Understood(g[o].members[i].location)
      {
        DeclarableType(g, g[o].kind, g[o].members[i]);
      }
    }
    WalksExactly(g, root);
    WalkEstablishes(g, root);
    PlainNeedsNothing(g, Emit(g, EMPTY, root).value);
  }

  /** The path leads from the root type of a header, by its text alone, to offset `off` and to what is found there. */
  ghost predicate HeaderLeads(text: Text, path: seq<Access>, off: int, found: Found) {
    TextReaches(text.definitions, ReadHeader(text.definitions, map[]), Tagged(text.rootKind, text.rootTag), [],
                path, off, found)
  }

  /** The same in DWARF, through declared members of definitions that are not opaque. */
  ghost predicate DwarfLeads(g: Graph, st: State, root: Offset, path: seq<Access>, off: int, found: Found) {
    DwarfReaches(g, Visible(st), Aggregate(root), [], path, off, found)
  }

  /** The ABI-mode header of the graph below a root.  It is generated exactly when the root has a definition, no
      undecodable member can be reached, and fewer repairs than passes are needed; it is then verified, in dependency
      order, and the one-pass padding of what the walk found; its text leads where DWARF does, and to every scalar at a multiple of its width. */
  method Generate(g: Graph, root: Offset) returns (r: Result<Text>, ghost st: State)
    requires Dwarf.Closed(g) && Acyclic(g) && root in g
    ensures r.Returned? <==>
      Walks(g, root) && RemainingAll(WalkedDefinitions(g, root), map[]) < 200
    ensures r.Returned? ==>
      && Verified(g, st) && DependencyOrder(st) && root in st.tags
      && r.value == Text(RenderedAll(Ordered(st)), g[root].kind, st.tags[root])
      && r.value.definitions == RenderedAll(PaddedAll(WalkedDefinitions(g, root), map[]))
      && Ordered(st) == Run(WalkedDefinitions(g, root), 200)
      && (forall path, off, found :: HeaderLeads(r.value, path, off, found) <==> DwarfLeads(g, st, root, path, off, found))
      && (forall path, off, s :: HeaderLeads(r.value, path, off, Value(s)) ==> off % s.Size() == 0)
  {
    hide HeaderLeads, DwarfLeads, Walks;
    hide Invariant, Acyclic, Dwarf.Closed, Emit, Run, RunWarnings, RemainingAll, AllFresh, Exact, Verified,
      DependencyOrder, PaddedAll, RenderedAll, Sane;
    WalksExactly(g, root);
    st := EMPTY;
    var extractor := new EnvTypeExtractor(g);
    var tag := extractor.EmitStruct(root);
    if tag.Raised? {
      return Raised, st;
    }
    ghost var walked := extractor.View();
    WalkEstablishes(g, root);
    if tag.value.None? {
      return Raised, st;
    }
    WalkReady(g, walked);
    ReadyToVerify(g, extractor);
    var definitions := VerifiedText(g, extractor, walked);
    if definitions.Raised? {
      return Raised, st;
    }
    st := extractor.View();
    r := Returned(Text(definitions.value, g[root].kind, tag.value.value));
    forall path, off, found
      ensures HeaderLeads(r.value, path, off, found) <==> DwarfLeads(g, st, root, path, off, found)
    {
      RootPaths(g, st, root, path, off, found);
    }
    forall path, off, s | HeaderLeads(r.value, path, off, Value(s))
      ensures off % s.Size() == 0
    {
      RootAligned(g, st, root, path, off, s);
    }
  }

  lemma RootAligned(g: Graph, st: State, root: Offset, path: seq<Access>, off: int, s: Scalar)
    requires Verified(g, st) && DependencyOrder(st) && root in st.tags && root in g
    requires HeaderLeads(Text(RenderedAll(Ordered(st)), g[root].kind, st.tags[root]), path, off, Value(s))
    ensures off % s.Size() == 0
  {
    hide Exact, AllSane, Contents, TagsMatch, OrderMatches, DependencyOrder, TextReaches, RenderedAll;
    HeaderAligned(g, st, Tagged(g[root].kind, st.tags[root]), [], path, off, s);
  }

  lemma RootPaths(g: Graph, st: State, root: Offset, path: seq<Access>, off: int, found: Found)
    requires Verified(g, st) && root in st.tags && root in g && Emittable(g[root])
    ensures HeaderLeads(Text(RenderedAll(Ordered(st)), g[root].kind, st.tags[root]), path, off, found) <==>
            DwarfLeads(g, st, root, path, off, found)
  {
    hide Verified, TextReaches, DwarfReaches, RenderedAll, Visible, Emittable;
    TextPathsAgree(g, st, Aggregate(root), path, off, found);
  }

  /** The part after the walk. */
  method VerifiedText(g: Graph, extractor: EnvTypeExtractor, ghost walked: State) returns (r: Result<seq<Rendered>>)
    requires Invariant(g, walked, {}) && Acyclic(g) && OrderKnown(walked)
    requires AllSane(Ordered(walked)) && AllFresh(Ordered(walked))
    requires extractor.Ready() && extractor.View() == walked && extractor.Ordered() == Ordered(walked)
    modifies extractor, extractor.structs.Values
    ensures r.Returned? <==> RemainingAll(Ordered(walked), map[]) < 200
    ensures r.Returned? ==>
      var st := extractor.View();
      && Verified(g, st) && DependencyOrder(st) && st.tags == walked.tags
      && r.value == RenderedAll(Ordered(st)) == RenderedAll(PaddedAll(Ordered(walked), map[]))
      && Ordered(st) == Run(Ordered(walked), 200)
  {
    hide Invariant, Acyclic, Run, RunWarnings, RemainingAll, AllFresh, Exact, Verified,
      DependencyOrder, PaddedAll, RenderedAll, Sane;
    var converged := extractor.VerifyAndRepair();
    if !converged {
      return Raised;
    }
    Finally(g, walked, extractor.View(), Ordered(walked));
    var definitions := extractor.RenderAll();
    return Returned(definitions);
  }

  lemma ReadyToVerify(g: Graph, extractor: EnvTypeExtractor)
    requires extractor.Valid() && Invariant(g, extractor.View(), {})
    ensures extractor.Ready() && OrderKnown(extractor.View()) && extractor.Ordered() == Ordered(extractor.View())
  {
    hide Contents, TagsMatch, Unrepaired, DependencyOrder, Acyclic, Sane;
    WalkReady(g, extractor.View());
    assert forall t :: t in extractor.structs ==> extractor.View().structs[t] == extractor.structs[t].View();
  }

  lemma Finally(g: Graph, walked: State, st: State, defs: seq<Definition>)
    requires Invariant(g, walked, {}) && Acyclic(g) && OrderKnown(walked) && AllSane(defs) && AllFresh(defs)
    requires defs == Ordered(walked) && RemainingAll(defs, map[]) < 200
    requires st.order == walked.order && st.tags == walked.tags && st.structs.Keys == walked.structs.Keys
    requires OrderKnown(st) && Ordered(st) == Run(defs, 200)
    ensures Verified(g, st) && DependencyOrder(st)
    ensures RenderedAll(Ordered(st)) == RenderedAll(PaddedAll(defs, map[]))
  {
    hide Invariant, Acyclic, Run, RemainingAll, Exact, Verified, DependencyOrder, PaddedAll, RenderedAll, AllFresh, AllSane;
    Termination(defs, 200);
    RepairedVerified(g, walked, st, 200);
    RunIsPadding(defs, 200);
  }
}
