/** What the tags are called: after the aggregate's own name, where C can have it, and by a number where not. */
module TagNames {
  import opened Dwarf
  import opened Tags
  import opened Walk
  import opened WalkFacts

  /** With a name, the tag is that name with a prefix; without one, the prefix and a number; and with another number
      behind it when that was taken. */
  ghost predicate NamedAfter(a: AggregateDie, tag: string) {
    exists k: nat, n: nat :: tag == Candidate(Prefixed(a, n), k)
  }

  /** The n-th aggregate without a name has a number for one. */
  function Prefixed(a: AggregateDie, n: nat): string {
    "penguin_env_" + if HasIdentifier(a.name) then a.name.value else "anon" + Decimal(n)
  }

  ghost predicate AllNamed(g: Graph, st: State, st': State) {
    && Grown(st.tags, st'.tags)
    && forall o :: o in st'.tags && o !in st.tags ==> o in g && NamedAfter(g[o], st'.tags[o])
  }

  lemma NamedTwice(g: Graph, st0: State, st1: State, st2: State)
    requires AllNamed(g, st0, st1) && AllNamed(g, st1, st2)
    ensures AllNamed(g, st0, st2)
  {
    hide NamedAfter;
  }

  lemma OpenedNamed(g: Graph, st: State, o: Offset)
    requires o in g && o !in st.tags
    ensures AllNamed(g, st, Opened(st, o, g[o]))
  {
    hide HasIdentifier, Decimal, Candidate;
    var tag, base := NewTag(st, g[o]), BaseTag(g[o], st.anonymous);
    var k :| 1 <= k <= |st.structs.Keys| + 1 && tag == Candidate(base, k);
    var n := st.anonymous + 1;
    assert "penguin_env_anon" + Decimal(n) == "penguin_env_" + ("anon" + Decimal(n));
    assert base == Prefixed(g[o], n);
    assert tag == Candidate(Prefixed(g[o], n), k);
    assert NamedAfter(g[o], tag);
  }

  lemma {:induction false} MembersNamed(g: Graph, st: State, tag: string, ms: seq<MemberDie>)
    requires Dwarf.Closed(g) && tag in st.structs && LeavesIn(g, ms) && WalkMembers(g, st, tag, ms).Some?
    ensures AllNamed(g, st, WalkMembers(g, st, tag, ms).value)
    decreases Missing(g, st), 3, |ms|
  {
    hide Dwarf.Closed, WalkMember, Missing, NamedAfter, LeafIn;
    if ms == [] {
    } else {
      MemberNamed(g, st, tag, ms[0]);
      var st1 := WalkMember(g, st, tag, ms[0]).value;
      FewerMissing(g, st, st1);
      MembersNamed(g, st1, tag, ms[1..]);
      NamedTwice(g, st, st1, WalkMembers(g, st, tag, ms).value);
    }
  }

  lemma {:induction false} MemberNamed(g: Graph, st: State, tag: string, m: MemberDie)
    requires Dwarf.Closed(g) && tag in st.structs && LeafIn(g, m.ty) && WalkMember(g, st, tag, m).Some?
    ensures AllNamed(g, st, WalkMember(g, st, tag, m).value)
    decreases Missing(g, st), 2, 0
  {
    hide Dwarf.Closed, Missing, NamedAfter, Declared, HasIdentifier;
    if Walked(m) && Leaf(m.ty).Some? {
      EmitNamed(g, st, Leaf(m.ty).value);
    }
  }

  lemma {:induction false} EmitNamed(g: Graph, st: State, o: Offset)
    requires Dwarf.Closed(g) && o in g && Emit(g, st, o).Some?
    ensures AllNamed(g, st, Emit(g, st, o).value)
    decreases Missing(g, st), 0, 0
  {
    hide Dwarf.Closed, Emittable, Missing, NamedAfter;
    if o in st.tags || !Emittable(g[o]) {
    } else {
      var st1 := Opened(st, o, g[o]);
      OpenedNamed(g, st, o);
      FewerMissing(g, st, st1);
      MembersLeaves(g, o);
      MembersNamed(g, st1, st1.tags[o], g[o].members);
      NamedTwice(g, st, st1, WalkMembers(g, st1, st1.tags[o], g[o].members).value);
    }
  }
}
