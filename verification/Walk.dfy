/** The memoised walk over the type graph, as functions on the state of the extractor.  A result of None is the
    error raised for a member location that cannot be decoded. */
module Walk {
  import opened Dwarf
  import opened Header
  import opened Offsets
  import opened Meaning
  import opened Tags
  import opened Repair

  datatype State = State(
    structs: map<string, Definition>,
    order: seq<string>,
    tags: map<Offset, string>,
    anonymous: nat,
    warnings: seq<Warning>)

  const EMPTY := State(map[], [], map[], 0, [])

  ghost predicate OrderKnown(st: State) {
    forall i :: 0 <= i < |st.order| ==> st.order[i] in st.structs
  }

  /** The definitions in the order in which they are rendered. */
  function Ordered(st: State): (defs: seq<Definition>)
    requires OrderKnown(st)
    ensures |defs| == |st.order|
  {
    seq(|st.order|, i requires 0 <= i < |st.order| => st.structs[st.order[i]])
  }

  /** Replacing one definition replaces it in the order. */
  lemma OrderedUpdate(st: State, k: nat, d: Definition)
    requires OrderKnown(st) && k < |st.order|
    requires forall i, j :: 0 <= i < j < |st.order| ==> st.order[i] != st.order[j]
    ensures Ordered(st.(structs := st.structs[st.order[k] := d])) == Ordered(st)[k := d]
  {
  }

  /** A declaration without a body, or one without a size, gets no definition. */
  predicate Emittable(a: AggregateDie) {
    !a.isDeclaration && a.byteSize != 0
  }

  // ---- Types, given the tags ----

  datatype Declarator = Declarator(ctype: CType, dims: seq<Positive>)

  function Scalars(s: Option<Scalar>): Option<Declarator> {
    if s.Some? then Some(Declarator(Plain(s.value), [])) else None
  }

  /** The C declarator of a member type, or None when the header cannot express it. */
  function Declared(g: Graph, tags: map<Offset, string>, t: Type): Option<Declarator> {
    match t
    case NoType => None
    case Exotic => None
    case Pointer => Scalars(Some(VoidPointer))
    case Base(encoding, size) => Scalars(BaseScalar(encoding, size))
    case Enumeration(size) => Scalars(UnsignedScalar(EnumerationSize(size)))
    case Qualified(of) => Declared(g, tags, of)
    case Typedef(of) => Declared(g, tags, of)
    case Array(element, ranges) =>
      var inner :- Declared(g, tags, element);
      var dims := ArrayDims(ranges);
      if AllPositive(dims) then Some(Declarator(inner.ctype, dims + inner.dims)) else None
    case Aggregate(o) =>
      if o in g && Emittable(g[o]) && o in tags then Some(Declarator(Tagged(g[o].kind, tags[o]), [])) else None
  }

  // ---- The walk ----

  ghost predicate Extends(st: State, st': State) {
    st.structs.Keys <= st'.structs.Keys && st.tags.Keys <= st'.tags.Keys
  }

  function Warn(st: State, w: Warning): State {
    st.(warnings := st.warnings + [w])
  }

  function AddMember(st: State, tag: string, m: Member): State
    requires tag in st.structs
  {
    var d := st.structs[tag];
    st.(structs := st.structs[tag := d.(members := d.members + [m])])
  }

  predicate HasIdentifier(name: Option<string>): (r: bool)
    ensures r ==> name.Some?
  {
    name.Some? && IsIdentifier(name.value)
  }

  function BaseTag(a: AggregateDie, anonymous: nat): string {
    if HasIdentifier(a.name) then "penguin_env_" + a.name.value
    else "penguin_env_anon" + Decimal(anonymous + 1)
  }

  function NewTag(st: State, a: AggregateDie): (tag: string)
    ensures tag !in st.structs
  {
    FreshTag(st.structs.Keys, BaseTag(a, st.anonymous), 1)
  }

  function Opened(st: State, o: Offset, a: AggregateDie): (r: State)
    ensures o in r.tags && r.tags[o] in r.structs
    ensures Extends(st, r)
  {
    var tag := NewTag(st, a);
    st.(structs := st.structs[tag := Definition(tag, a.kind, a.byteSize, [], map[], 0, false)],
        tags := st.tags[o := tag],
        anonymous := if HasIdentifier(a.name) then st.anonymous else st.anonymous + 1)
  }

  function AtOffsetZero(ms: seq<Member>): seq<Member> {
    if ms == [] then []
    else (if ms[0].offset == 0 then [ms[0]] else []) + AtOffsetZero(ms[1..])
  }

  function UnionPad(size: Positive): Member {
    Member(UNION_PAD, Plain(UInt8), [size], 0)
  }

  /** The members of a definition once its walk is over. */
  function Finished(kind: Kind, size: nat, ms: seq<Member>): seq<Member> {
    if kind.Union? && size > 0 then AtOffsetZero(ms) + [UnionPad(size)] else ms
  }

  function Completed(st: State, tag: string): State
    requires tag in st.structs
  {
    var d := st.structs[tag];
    st.(structs := st.structs[tag := d.(members := Finished(d.kind, d.size, d.members), trailingPad :=
          if d.kind.Union? then 0 else d.trailingPad)],
        order := st.order + [tag])
  }

  ghost predicate LeavesIn(g: Graph, ms: seq<MemberDie>) {
    forall i :: 0 <= i < |ms| ==> LeafIn(g, ms[i].ty)
  }

  ghost predicate LeafIn(g: Graph, t: Type) {
    Leaf(t).Some? ==> Leaf(t).value in g
  }

  ghost function Missing(g: Graph, st: State): nat {
    |g.Keys - st.tags.Keys|
  }

  lemma FewerMissing(g: Graph, st: State, st': State)
    requires st.tags.Keys <= st'.tags.Keys
    ensures Missing(g, st') <= Missing(g, st)
    ensures forall o :: o in g && o !in st.tags && o in st'.tags ==> Missing(g, st') < Missing(g, st)
  {
    var a, b := g.Keys - st.tags.Keys, g.Keys - st'.tags.Keys;
    SubsetSize(b, a);
    forall o | o in g && o !in st.tags && o in st'.tags
      ensures |b| < |a|
    {
      SubsetSize(b, a - {o});
    }
  }

  /** Visiting a type emits the aggregate that its chain ends in. */
  function Visit(g: Graph, st: State, t: Type): (r: Option<State>)
    requires Dwarf.Closed(g) && LeafIn(g, t)
    ensures r.Some? ==> Extends(st, r.value)
    decreases Missing(g, st), 1, 0
  {
    if Leaf(t).Some? then Emit(g, st, Leaf(t).value) else Some(st)
  }

  function WalkMember(g: Graph, st: State, tag: string, m: MemberDie): (r: Option<State>)
    requires Dwarf.Closed(g) && LeafIn(g, m.ty) && tag in st.structs
    ensures r.Some? ==> Extends(st, r.value)
    decreases Missing(g, st), 2, 0
  {
    if !HasIdentifier(m.name) then Some(Warn(st, AnonymousDropped(tag)))
    else if m.bitSize.Some? then Some(Warn(st, BitfieldDropped(tag, m.name.value)))
    else
      var st1 :- Visit(g, st, m.ty);
      var d := Declared(g, st1.tags, m.ty);
      if d.None? then Some(Warn(st1, TypeDropped(tag, m.name.value)))
      else
        var offset :- DecodedOffset(m.location);
        Some(AddMember(st1, tag, Member(m.name.value, d.value.ctype, d.value.dims, offset)))
  }

  function WalkMembers(g: Graph, st: State, tag: string, ms: seq<MemberDie>): (r: Option<State>)
    requires Dwarf.Closed(g) && LeavesIn(g, ms) && tag in st.structs
    ensures r.Some? ==> Extends(st, r.value)
    decreases Missing(g, st), 3, |ms|
  {
    if ms == [] then Some(st)
    else
      var st1 :- WalkMember(g, st, tag, ms[0]);
      FewerMissing(g, st, st1);
      WalkMembers(g, st1, tag, ms[1..])
  }

  function Emit(g: Graph, st: State, o: Offset): (r: Option<State>)
    requires Dwarf.Closed(g) && o in g
    ensures r.Some? ==> Extends(st, r.value)
    decreases Missing(g, st), 0, 0
  {
    if o in st.tags || !Emittable(g[o]) then Some(st)
    else
      var st1 := Opened(st, o, g[o]);
      FewerMissing(g, st, st1);
      var st2 :- WalkMembers(g, st1, st1.tags[o], g[o].members);
      Some(Completed(st2, st1.tags[o]))
  }
}
