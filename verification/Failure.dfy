/** When the walk fails: exactly when it can reach, by value, a member whose location cannot be decoded. */
module Failure {
  import opened Dwarf
  import opened Offsets
  import opened Meaning
  import opened Walk
  import opened WalkFacts
  import opened Declarators

  /** A member whose location is decoded, and cannot be. */
  ghost predicate Undecodable(g: Graph, m: MemberDie) {
    Walked(m) && Representable(g, m.ty) && !Understood(m.location)
  }

  ghost predicate Flawed(g: Graph, o: Offset) {
    o in g && exists i :: 0 <= i < |g[o].members| && Undecodable(g, g[o].members[i])
  }

  /** A member that is walked ends in the aggregate `inner`. */
  ghost predicate Contains(g: Graph, o: Offset, inner: Offset) {
    o in g && exists i :: 0 <= i < |g[o].members| && Walked(g[o].members[i]) && Leaf(g[o].members[i].ty) == Some(inner)
  }

  /** Aggregates with a definition, each a part of the one before it. */
  ghost predicate Chain(g: Graph, path: seq<Offset>) {
    && path != []
    && (forall k :: 0 <= k < |path| ==> path[k] in g && !g[path[k]].isDeclaration && g[path[k]].byteSize > 0)
    && (forall k :: 0 < k < |path| ==> Contains(g, path[k - 1], path[k]))
  }

  ghost predicate LeadsToFlaw(g: Graph, o: Offset, path: seq<Offset>) {
    Chain(g, path) && path[0] == o && Flawed(g, path[|path| - 1])
  }

  lemma Longer(g: Graph, o: Offset, inner: Offset, path: seq<Offset>)
    requires o in g && Emittable(g[o]) && Contains(g, o, inner) && LeadsToFlaw(g, inner, path)
    ensures LeadsToFlaw(g, o, [o] + path)
  {
    hide Contains, Flawed;
    var all := [o] + path;
    forall k | 0 < k < |all|
      ensures Contains(g, all[k - 1], all[k])
    {
      if k > 1 {
        assert all[k - 1] == path[k - 2] && all[k] == path[k - 1];
      }
    }
  }

  // ---- A walk that fails met such a member ----

  lemma {:induction false} MembersFail(g: Graph, st: State, tag: string, o: Offset, i: nat) returns (path: seq<Offset>)
    requires Dwarf.Closed(g) && o in g && Emittable(g[o]) && i <= |g[o].members| && tag in st.structs
    requires LeavesIn(g, g[o].members[i..]) && WalkMembers(g, st, tag, g[o].members[i..]).None?
    ensures LeadsToFlaw(g, o, path)
    decreases Missing(g, st), 3, |g[o].members| - i
  {
    hide Dwarf.Closed, WalkMember, Emittable, Missing, Chain, Flawed, LeadsToFlaw;
    var ms := g[o].members[i..];
    if ms == [] {
    } else {
      assert ms[0] == g[o].members[i] && ms[1..] == g[o].members[i + 1..];
      if WalkMember(g, st, tag, ms[0]).None? {
        path := MemberFails(g, st, tag, o, i);
      } else {
        var st1 := WalkMember(g, st, tag, ms[0]).value;
        FewerMissing(g, st, st1);
        path := MembersFail(g, st1, tag, o, i + 1);
      }
    }
  }

  lemma {:induction false} MemberFails(g: Graph, st: State, tag: string, o: Offset, i: nat) returns (path: seq<Offset>)
    requires Dwarf.Closed(g) && o in g && Emittable(g[o]) && i < |g[o].members| && tag in st.structs
    requires LeafIn(g, g[o].members[i].ty) && WalkMember(g, st, tag, g[o].members[i]).None?
    ensures LeadsToFlaw(g, o, path)
    decreases Missing(g, st), 2, 0
  {
    hide Dwarf.Closed, Missing, DecodedOffset, Representable, Declared, HasIdentifier;
    var m := g[o].members[i];
    assert Walked(m);
    if Visit(g, st, m.ty).None? {
      var rest := EmitFails(g, st, Leaf(m.ty).value);
      Longer(g, o, Leaf(m.ty).value, rest);
      path := [o] + rest;
    } else {
      var st1 := Visit(g, st, m.ty).value;
      VisitTags(g, st, m.ty);
      RepresentableExactly(g, st1.tags, m.ty);
      DecodedExactly(m.location);
      assert Undecodable(g, m);
      path := [o];
    }
  }

  lemma {:induction false} EmitFails(g: Graph, st: State, o: Offset) returns (path: seq<Offset>)
    requires Dwarf.Closed(g) && o in g && Emit(g, st, o).None?
    ensures LeadsToFlaw(g, o, path)
    decreases Missing(g, st), 0, 0
  {
    hide Dwarf.Closed, Emittable, Missing, Opened, LeadsToFlaw;
    var st1 := Opened(st, o, g[o]);
    FewerMissing(g, st, st1);
    MembersLeaves(g, o);
    assert g[o].members[0..] == g[o].members;
    path := MembersFail(g, st1, st1.tags[o], o, 0);
  }

  lemma VisitTags(g: Graph, st: State, t: Type)
    requires Dwarf.Closed(g) && LeafIn(g, t) && Visit(g, st, t).Some?
    ensures LeafTagged(g, Visit(g, st, t).value.tags, t)
  {
    hide Dwarf.Closed, Emittable, WalkMembers, Opened;
  }

  // ---- A walk that succeeds met none ----

  /** What a successful walk says of an aggregate it gave a tag. */
  ghost predicate Sound(g: Graph, tags: map<Offset, string>, o: Offset) {
    o in g && forall i :: 0 <= i < |g[o].members| ==> SoundMember(g, tags, g[o].members[i])
  }

  ghost predicate SoundMember(g: Graph, tags: map<Offset, string>, m: MemberDie) {
    Walked(m) ==> LeafTagged(g, tags, m.ty) && !Undecodable(g, m)
  }

  /** Every aggregate that got its tag in between is sound. */
  ghost predicate NewSound(g: Graph, st: State, st': State) {
    && st.tags.Keys <= st'.tags.Keys
    && forall p :: p in st'.tags && p !in st.tags ==> Sound(g, st'.tags, p)
  }

  lemma SoundStays(g: Graph, tags: map<Offset, string>, tags': map<Offset, string>, p: Offset)
    requires Sound(g, tags, p) && tags.Keys <= tags'.Keys
    ensures Sound(g, tags', p)
  {
    hide Walked, Undecodable, Emittable;
    forall i | 0 <= i < |g[p].members|
      ensures SoundMember(g, tags', g[p].members[i])
    {
      assert SoundMember(g, tags, g[p].members[i]);
    }
  }

  lemma BothSound(g: Graph, st0: State, st1: State, st2: State)
    requires NewSound(g, st0, st1) && NewSound(g, st1, st2)
    ensures NewSound(g, st0, st2)
  {
    hide Sound;
    forall p | p in st2.tags && p !in st0.tags
      ensures Sound(g, st2.tags, p)
    {
      if p in st1.tags {
        SoundStays(g, st1.tags, st2.tags, p);
      }
    }
  }

  lemma {:induction false} MembersSound(g: Graph, st: State, tag: string, ms: seq<MemberDie>)
    requires Dwarf.Closed(g) && tag in st.structs && LeavesIn(g, ms) && WalkMembers(g, st, tag, ms).Some?
    ensures var r := WalkMembers(g, st, tag, ms).value;
      NewSound(g, st, r) && forall i :: 0 <= i < |ms| ==> SoundMember(g, r.tags, ms[i])
    decreases Missing(g, st), 3, |ms|
  {
    hide Dwarf.Closed, WalkMember, Missing, Sound, LeafIn, Walked, Undecodable, Emittable;
    if ms == [] {
    } else {
      assert forall i :: 0 < i < |ms| ==> ms[i] == ms[1..][i - 1];
      MemberSound(g, st, tag, ms[0]);
      var st1 := WalkMember(g, st, tag, ms[0]).value;
      FewerMissing(g, st, st1);
      MembersSound(g, st1, tag, ms[1..]);
      BothSound(g, st, st1, WalkMembers(g, st, tag, ms).value);
    }
  }

  lemma {:induction false} MemberSound(g: Graph, st: State, tag: string, m: MemberDie)
    requires Dwarf.Closed(g) && tag in st.structs && LeafIn(g, m.ty) && WalkMember(g, st, tag, m).Some?
    ensures var r := WalkMember(g, st, tag, m).value;
      NewSound(g, st, r) && SoundMember(g, r.tags, m)
    decreases Missing(g, st), 2, 0
  {
    hide Dwarf.Closed, Missing, Sound, Emittable, DecodedOffset, Representable, Declared, HasIdentifier;
    if Walked(m) {
      var st1 := Visit(g, st, m.ty).value;
      if Leaf(m.ty).Some? {
        EmitSound(g, st, Leaf(m.ty).value);
      }
      VisitTags(g, st, m.ty);
      RepresentableExactly(g, st1.tags, m.ty);
      DecodedExactly(m.location);
    }
  }

  lemma {:induction false} EmitSound(g: Graph, st: State, o: Offset)
    requires Dwarf.Closed(g) && o in g && Emit(g, st, o).Some?
    ensures NewSound(g, st, Emit(g, st, o).value)
    ensures Emittable(g[o]) ==> o in Emit(g, st, o).value.tags
    decreases Missing(g, st), 0, 0
  {
    hide Dwarf.Closed, Emittable, Missing, SoundMember;
    if o !in st.tags && Emittable(g[o]) {
      var st1 := Opened(st, o, g[o]);
      FewerMissing(g, st, st1);
      MembersLeaves(g, o);
      MembersSound(g, st1, st1.tags[o], g[o].members);
    }
  }

  /** Along a chain from a tagged aggregate every aggregate is tagged. */
  lemma {:induction false} ChainTagged(g: Graph, tags: map<Offset, string>, path: seq<Offset>, k: nat)
    requires Chain(g, path) && path[0] in tags && k < |path| && forall p :: p in tags ==> Sound(g, tags, p)
    ensures path[k] in tags
  {
    hide Walked, Undecodable;
    if k == 0 {
    } else {
      ChainTagged(g, tags, path, k - 1);
      assert Contains(g, path[k - 1], path[k]);
      var i :| 0 <= i < |g[path[k - 1]].members| && Walked(g[path[k - 1]].members[i])
        && Leaf(g[path[k - 1]].members[i].ty) == Some(path[k]);
      assert SoundMember(g, tags, g[path[k - 1]].members[i]);
    }
  }

  lemma SoundFlawless(g: Graph, tags: map<Offset, string>, o: Offset)
    requires Sound(g, tags, o)
    ensures !Flawed(g, o)
  {
    hide LeafTagged, Representable, DecodedOffset, HasIdentifier;
    forall i | 0 <= i < |g[o].members|
      ensures !Undecodable(g, g[o].members[i])
    {
      assert SoundMember(g, tags, g[o].members[i]);
    }
  }

  /** The walk fails if and only if, from its root, a chain of aggregates with definitions leads through walked
      members to a member with a name, no bitfield, of a type that C can express, whose location cannot be decoded. */
  lemma WalkFails(g: Graph, root: Offset)
    requires Dwarf.Closed(g) && root in g
    ensures Emit(g, EMPTY, root).None? <==> exists path :: LeadsToFlaw(g, root, path)
    ensures Emit(g, EMPTY, root).Some? ==>
      var st := Emit(g, EMPTY, root).value;
      (Emittable(g[root]) ==> root in st.tags) && forall p :: p in st.tags ==> Sound(g, st.tags, p)
  {
    hide Dwarf.Closed, Emit, Sound, Flawed;
    if Emit(g, EMPTY, root).None? {
      var path := EmitFails(g, EMPTY, root);
    } else {
      var st := Emit(g, EMPTY, root).value;
      EmitSound(g, EMPTY, root);
      if path :| LeadsToFlaw(g, root, path) {
        ChainTagged(g, st.tags, path, |path| - 1);
        SoundFlawless(g, st.tags, path[|path| - 1]);
      }
    }
  }

  ghost predicate AllUnderstood(a: AggregateDie) {
    forall i :: 0 <= i < |a.members| ==> Understood(a.members[i].location)
  }

  /** Where every location is missing, a constant or DW_OP_plus_uconst, the walk succeeds. */
  lemma UnderstoodWalks(g: Graph, root: Offset)
    requires Dwarf.Closed(g) && root in g
    requires forall path :: Chain(g, path) && path[0] == root ==> AllUnderstood(g[path[|path| - 1]])
    ensures Emit(g, EMPTY, root).Some?
  {
    hide Dwarf.Closed, Emit, Chain, Understood, Representable;
    WalkFails(g, root);
  }
}
