/** The extractor that builds and repairs the ABI-mode header, with its mutable state. */
module Extractor {
  import opened Dwarf
  import opened Lists
  import opened Header
  import opened Offsets
  import opened Tags
  import opened Repair
  import opened Fixpoint
  import opened Walk

  /** How a call ends: with an error, or with a value. */
  datatype Result<+T> = Raised | Returned(value: T)

  class StructDef {
    const tag: string
    const kind: Kind
    const size: nat
    var members: seq<Member>
    var pads: map<nat, nat>
    var trailingPad: nat
    var opaqueBytes: bool

    constructor (tag: string, kind: Kind, size: nat)
      ensures View() == Definition(tag, kind, size, [], map[], 0, false)
    {
      this.tag, this.kind, this.size := tag, kind, size;
      members, pads, trailingPad, opaqueBytes := [], map[], 0, false;
    }

    function View(): Definition
      reads this
    {
      Definition(tag, kind, size, members, pads, trailingPad, opaqueBytes)
    }

    method Render() returns (lines: seq<Item>)
      ensures lines == Header.Render(View())
    {
      hide RenderFrom;
      if opaqueBytes {
        return [OpaqueBytes(AtLeastOne(size))];
      }
      lines := [];
      ghost var d := View();
      ghost var all := RenderFrom(d, 0);
      for i := 0 to |members|
        invariant lines + RenderFrom(d, i) == all
      {
        var pad := if i in pads then pads[i] else 0;
        NextLines(d, i, lines, all);
        if pad > 0 {
          lines := lines + [Pad(i, pad)];
        }
        var member := members[i];
        lines := lines + [Field(member.name, member.ctype, member.dims)];
      }
      LastLines(d, lines, all);
      if trailingPad > 0 {
        lines := lines + [TailPad(trailingPad)];
      }
      if members == [] && trailingPad == 0 {
        lines := lines + [EmptyBytes(AtLeastOne(size))];
      }
    }
  }

  lemma NextLines(d: Definition, i: nat, lines: seq<Item>, all: seq<Item>)
    requires i < |d.members| && lines + RenderFrom(d, i) == all
    ensures d.PadAt(i) > 0 ==>
      (lines + [Pad(i, d.PadAt(i))] + [FieldOf(d.members[i])]) + RenderFrom(d, i + 1) == all
    ensures d.PadAt(i) == 0 ==> (lines + [FieldOf(d.members[i])]) + RenderFrom(d, i + 1) == all
  {
  }

  lemma LastLines(d: Definition, lines: seq<Item>, all: seq<Item>)
    requires lines + RenderFrom(d, |d.members|) == all
    ensures d.trailingPad > 0 ==> lines + [TailPad(d.trailingPad)] == all
    ensures d.trailingPad == 0 ==> lines == all
    ensures d.members == [] && all == RenderFrom(d, 0) ==> lines == []
  {
  }

  class EnvTypeExtractor {
    const dwarf: Graph
    var structs: map<string, StructDef>
    var order: seq<string>
    var dieTags: map<Offset, string>
    var anonCount: nat
    var warnings: seq<Warning>

    ghost predicate Valid()
      reads this
    {
      && Dwarf.Closed(dwarf)
      && (forall t :: t in structs ==> structs[t].tag == t)
      && (forall o :: o in dieTags ==> o in dwarf && Emittable(dwarf[o]) && dieTags[o] in structs)
    }

    ghost function Definitions(): map<string, Definition>
      reads this`structs, structs.Values
    {
      map t | t in structs :: structs[t].View()
    }

    /** The state as a value. */
    ghost function View(): State
      reads this, structs.Values
    {
      State(Definitions(), order, dieTags, anonCount, warnings)
    }

    /** Only the definition of one tag changed, or it is new. */
    twostate lemma Redefined(new sdef: StructDef)
      requires structs == old(structs)[sdef.tag := sdef]
      requires forall t :: t in old(structs) && t != sdef.tag ==> structs[t].View() == old(structs[t].View())
      ensures Definitions() == old(Definitions())[sdef.tag := sdef.View()]
    {
    }

    constructor (dwarf: Graph)
      requires Dwarf.Closed(dwarf)
      ensures Valid() && View() == EMPTY && structs == map[] && this.dwarf == dwarf
    {
      this.dwarf := dwarf;
      structs, order, dieTags, anonCount, warnings := map[], [], map[], 0, [];
    }

    // ---- The walk ----

    /** The C type of a member, or None when it cannot be represented. */
    method MemberCtype(typeDie: Type) returns (r: Result<Option<Declarator>>)
      requires Valid() && LeafIn(dwarf, typeDie)
      modifies this
      ensures Valid() && Extended(old(structs), old(dieTags))
      ensures match Visit(dwarf, old(View()), typeDie)
        case None => r.Raised?
        case Some(st) => View() == st && r == Returned(Declared(dwarf, st.tags, typeDie))
      decreases Missing(dwarf, View()), 1, Length(typeDie)
    {
      hide Emit, Emittable, Missing, Definitions, Dwarf.Closed;
      var die := ResolveTypedefs(typeDie);
      SameDeclaration(dwarf, dieTags, typeDie);
      match die
      case NoType => return Returned(None);
      case Exotic => return Returned(None);
      case Pointer => return Returned(Some(Declarator(Plain(VoidPointer), [])));
      case Base(encoding, size) => return Returned(Scalars(BaseScalar(encoding, size)));
      case Enumeration(byteSize) => return Returned(Scalars(UnsignedScalar(EnumerationSize(byteSize))));
      case Array(element, ranges) =>
        var inner := MemberCtype(element);
        SameDeclaration(dwarf, dieTags, typeDie);
        if inner.Raised? || inner.value.None? {
          return inner;
        }
        var dims := ReadArrayDims(ranges);
        if exists i :: 0 <= i < |dims| && dims[i] <= 0 {
          return Returned(None);
        }
        return Returned(Some(Declarator(inner.value.value.ctype, dims + inner.value.value.dims)));
      case Aggregate(o) =>
        var tag := EmitStruct(o);
        SameDeclaration(dwarf, dieTags, typeDie);
        if tag.Raised? {
          return Raised;
        }
        if tag.value.None? {
          return Returned(None);
        }
        return Returned(Some(Declarator(Tagged(dwarf[o].kind, tag.value.value), [])));
      case Qualified(_) => assert false; return Raised;
      case Typedef(_) => assert false; return Raised;
    }

    /** Definitions that were there are still the same objects and tags are kept; other definitions are new. */
    twostate predicate Extended(before: map<string, StructDef>, tags: map<Offset, string>)
      reads this
    {
      && (forall o :: o in tags ==> o in dieTags && dieTags[o] == tags[o])
      && (forall t :: t in before ==> t in structs && structs[t] == before[t])
      && (forall t :: t in structs && t !in before ==> fresh(structs[t]))
    }

    method AllocateTag(a: AggregateDie) returns (tag: string)
      modifies this`anonCount
      ensures tag == NewTag(old(View()), a)
      ensures anonCount == if HasIdentifier(a.name) then old(anonCount) else old(anonCount) + 1
    {
      hide HasIdentifier, Decimal;
      if HasIdentifier(a.name) {
        tag := "penguin_env_" + a.name.value;
      } else {
        anonCount := anonCount + 1;
        tag := "penguin_env_anon" + Decimal(anonCount);
      }
      ghost var used := structs.Keys;
      assert old(View()).structs.Keys == used;
      var baseTag, n := tag, 1;
      while tag in structs
        invariant anonCount == if HasIdentifier(a.name) then old(anonCount) else old(anonCount) + 1
        invariant n >= 1 && tag == Candidate(baseTag, n) && AllUsed(used, baseTag, n)
        invariant FreshTag(used, baseTag, n) == FreshTag(used, baseTag, 1)
        decreases |used| + 1 - n
      {
        TriesBounded(used, baseTag, n + 1);
        n := n + 1;
        tag := baseTag + "_" + Decimal(n);
      }
    }

    /** The tag of an aggregate, which is emitted first if it has none; or None when it gets no definition. */
    method EmitStruct(die: Offset) returns (r: Result<Option<string>>)
      requires Valid() && die in dwarf
      modifies this
      ensures Valid() && Extended(old(structs), old(dieTags))
      ensures match Emit(dwarf, old(View()), die)
        case None => r.Raised?
        case Some(st) =>
          View() == st && r == Returned(if die in st.tags then Some(st.tags[die]) else None)
      decreases Missing(dwarf, View()), 0, 1
    {
      hide Opened, WalkMembers, Walk.Completed, NewTag, HasIdentifier, Missing, Dwarf.Closed;
      if die in dieTags {
        return Returned(Some(dieTags[die]));
      }
      if dwarf[die].isDeclaration || dwarf[die].byteSize == 0 {
        return Returned(None);
      }
      r := Define(die);
    }

    /** The part of EmitStruct for an aggregate that gets its definition now. */
    method Define(die: Offset) returns (r: Result<Option<string>>)
      requires Valid() && die in dwarf && die !in dieTags && Emittable(dwarf[die])
      modifies this
      ensures Valid() && Extended(old(structs), old(dieTags))
      ensures var st1 := Opened(old(View()), die, dwarf[die]);
        match WalkMembers(dwarf, st1, st1.tags[die], dwarf[die].members)
        case None => r.Raised?
        case Some(st2) =>
          View() == Walk.Completed(st2, st1.tags[die]) && die in dieTags && r == Returned(Some(dieTags[die]))
      decreases Missing(dwarf, View()), 0, 0
    {
      hide Opened, WalkMembers, Walk.Completed, Missing, Dwarf.Closed, Emittable, AtOffsetZero, Definitions;
      ghost var before := View();
      var sdef := Enter(die);
      FewerMissing(dwarf, before, View());
      ClosedLeaves(dwarf, die);
      var ok := EmitMembers(sdef, dwarf[die].members);
      if !ok {
        return Raised;
      }
      Finish(sdef);
      return Returned(Some(sdef.tag));
    }

    method Enter(die: Offset) returns (sdef: StructDef)
      requires Valid() && die in dwarf && die !in dieTags && Emittable(dwarf[die])
      modifies this
      ensures Valid() && Extended(old(structs), old(dieTags)) && fresh(sdef) && sdef.size > 0
      ensures sdef.tag in structs && structs[sdef.tag] == sdef && die in dieTags && dieTags[die] == sdef.tag
      ensures View() == Opened(old(View()), die, dwarf[die])
    {
      hide HasIdentifier, NewTag, Dwarf.Closed, Definitions;
      UnusedTag(die);
      var tag := AllocateTag(dwarf[die]);
      sdef := new StructDef(tag, dwarf[die].kind, dwarf[die].byteSize);
      Register(sdef, die);
    }

    lemma UnusedTag(die: Offset)
      requires die in dwarf
      ensures NewTag(View(), dwarf[die]) !in structs
    {
    }

    method Register(sdef: StructDef, die: Offset)
      requires Valid() && die in dwarf && die !in dieTags && Emittable(dwarf[die]) && sdef.tag !in structs
      modifies this`dieTags, this`structs
      ensures Valid() && structs == old(structs)[sdef.tag := sdef] && dieTags == old(dieTags)[die := sdef.tag]
      ensures Definitions() == old(Definitions())[sdef.tag := old(sdef.View())]
    {
      dieTags := dieTags[die := sdef.tag];
      structs := structs[sdef.tag := sdef];
    }

    method Finish(sdef: StructDef)
      requires Valid() && sdef.tag in structs && structs[sdef.tag] == sdef
      requires sdef.size > 0
      modifies this`order, sdef
      ensures Valid()
      ensures View() == Walk.Completed(old(View()), sdef.tag)
    {
      hide Dwarf.Closed, AtOffsetZero;
      if sdef.kind.Union? {
        sdef.members := AtOffsetZero(sdef.members);
        sdef.trailingPad := 0;
        sdef.members := sdef.members + [Member(UNION_PAD, Plain(UInt8), [sdef.size], 0)];
      }
      order := order + [sdef.tag];
      Redefined(sdef);
    }

    method EmitMembers(sdef: StructDef, members: seq<MemberDie>) returns (ok: bool)
      requires Valid() && LeavesIn(dwarf, members)
      requires sdef.tag in structs && structs[sdef.tag] == sdef
      modifies this, sdef
      ensures Valid() && Extended(old(structs), old(dieTags))
      ensures match WalkMembers(dwarf, old(View()), sdef.tag, members)
        case None => !ok
        case Some(st) => ok && View() == st
      decreases Missing(dwarf, View()), 3, 0
    {
      hide WalkMember, WalkMembers, Missing;
      for i := 0 to |members|
        invariant Valid() && Extended(old(structs), old(dieTags))
        invariant sdef.tag in structs && structs[sdef.tag] == sdef
        invariant Missing(dwarf, View()) <= Missing(dwarf, old(View()))
        invariant WalkMembers(dwarf, old(View()), sdef.tag, members) ==
                  WalkMembers(dwarf, View(), sdef.tag, members[i..])
      {
        ghost var before := View();
        WalkFirst(dwarf, before, sdef.tag, members[i..]);
        assert members[i..][1..] == members[i + 1..];
        var added := EmitMember(sdef, members[i]);
        if !added {
          return false;
        }
        FewerMissing(dwarf, before, View());
      }
      WalkNone(dwarf, View(), sdef.tag);
      return true;
    }

    method EmitMember(sdef: StructDef, child: MemberDie) returns (ok: bool)
      requires Valid() && LeafIn(dwarf, child.ty)
      requires sdef.tag in structs && structs[sdef.tag] == sdef
      modifies this, sdef
      ensures Valid() && Extended(old(structs), old(dieTags))
      ensures match WalkMember(dwarf, old(View()), sdef.tag, child)
        case None => !ok
        case Some(st) => ok && View() == st
      decreases Missing(dwarf, View()), 2, 0
    {
      hide Visit, Declared, DecodedOffset, HasIdentifier, AddMember, Warn, Missing, Definitions, Dwarf.Closed;
      if !HasIdentifier(child.name) {
        AddWarning(AnonymousDropped(sdef.tag));
        return true;
      }
      if child.bitSize.Some? {
        AddWarning(BitfieldDropped(sdef.tag, child.name.value));
        return true;
      }
      var resolved := MemberCtype(child.ty);
      if resolved.Raised? {
        return false;
      }
      if resolved.value.None? {
        AddWarning(TypeDropped(sdef.tag, child.name.value));
        return true;
      }
      var offset := DecodeOffset(child.location);
      if offset.None? {
        return false;
      }
      AppendMember(sdef, Member(child.name.value, resolved.value.value.ctype, resolved.value.value.dims, offset.value));
      return true;
    }

    method AddWarning(w: Warning)
      modifies this`warnings
      ensures View() == Warn(old(View()), w)
    {
      warnings := warnings + [w];
    }

    method AppendMember(sdef: StructDef, m: Member)
      requires Valid() && sdef.tag in structs && structs[sdef.tag] == sdef
      modifies sdef
      ensures View() == AddMember(old(View()), sdef.tag, m)
    {
      hide Dwarf.Closed;
      sdef.members := sdef.members + [m];
      Redefined(sdef);
    }
  
    // ---- Verification and repair ----

    /** What the walk leaves behind and every repair keeps. */
    ghost predicate Ready()
      reads this, structs.Values
    {
      && Valid() && NoRepeats(order)
      && (forall i :: 0 <= i < |order| ==> order[i] in structs)
      && (forall t :: t in structs ==> Sane(structs[t].View()))
    }

    /** The definitions in the order in which they are rendered. */
    ghost function Ordered(): (defs: seq<Definition>)
      requires Ready()
      reads this, structs.Values
      ensures |defs| == |order| && AllSane(defs) && DistinctTags(defs)
    {
      var defs := Walk.Ordered(View());
      assert forall i :: 0 <= i < |order| ==> defs[i] == structs[order[i]].View();
      defs
    }

    method RenderAll() returns (header: seq<Rendered>)
      requires Ready()
      ensures header == RenderedAll(Ordered())
    {
      hide Header.Render, Sane;
      header := [];
      for i := 0 to |order|
        invariant |header| == i
        invariant forall j :: 0 <= j < i ==> header[j] == RenderedOf(structs[order[j]].View())
      {
        var sdef := structs[order[i]];
        var body := sdef.Render();
        header := header + [Rendered(sdef.kind, sdef.tag, body)];
      }
      assert forall i :: 0 <= i < |order| ==> Ordered()[i] == structs[order[i]].View();
    }

    /** The first mismatch between the layouts that cffi reports and DWARF. */
    method VerifyOnce(ffi: Layouts) returns (found: Option<Finding>)
      requires Ready() && ffi == LayoutAll(Ordered(), map[])
      ensures found == FirstMismatch(Ordered(), map[])
    {
      hide LayoutOf, Compare, FirstMismatch, Sane, LayoutAll, AllSane;
      ghost var defs := Ordered();
      assert defs[0..] == defs && defs[..0] == [];
      NothingRead();
      for i := 0 to |order|
        invariant AllSane(defs[i..])
        invariant FirstMismatch(defs, map[]) == Later(FirstMismatch(defs[i..], LayoutAll(defs[..i], map[])), i)
      {
        var sdef := structs[order[i]];
        assert defs[i] == sdef.View();
        SearchNext(defs, map[], i);
        LayoutAt(defs, map[], i);
        MembersNamed(sdef.View());
        var mismatch := VerifyStruct(sdef, ffi[sdef.tag]);
        if mismatch.Some? {
          return Some(Finding(i, mismatch.value));
        }
      }
      NothingLeft(defs[|order|..], LayoutAll(defs[..|order|], map[]));
      return None;
    }

    method VerifyStruct(sdef: StructDef, actual: Layout) returns (mismatch: Option<Mismatch>)
      requires SizeOnly(sdef.View()) || |actual.offsets| == |sdef.members|
      requires forall i :: 0 <= i < |sdef.members| ==> sdef.members[i].name != ""
      ensures mismatch == Compare(sdef.View(), actual)
    {
      if sdef.opaqueBytes || sdef.kind.Union? {
        return if actual.size != sdef.size then Some(Mismatch(AtSize, actual.size)) else None;
      }
      for idx := 0 to |sdef.members|
        invariant FirstBadMember(sdef.View(), actual.offsets, 0) == FirstBadMember(sdef.View(), actual.offsets, idx)
      {
        if sdef.members[idx].name == "" {
          continue;
        }
        if actual.offsets[idx] != sdef.members[idx].offset {
          return Some(Mismatch(AtMember(idx), actual.offsets[idx]));
        }
      }
      return if actual.size != sdef.size then Some(Mismatch(AtSize, actual.size)) else None;
    }

    /** Verify and repair until the layout is exact.  It is, on return, if and only if fewer repairs than passes
        were needed; either way the passes are those of the loop without a cap. */
    method VerifyAndRepair() returns (converged: bool)
      requires Ready()
      modifies structs.Values, this`warnings
      ensures Ready()
      ensures Ordered() == Run(old(Ordered()), 200)
      ensures warnings == old(warnings) + RunWarnings(old(Ordered()), 200)
      ensures converged <==> RemainingAll(old(Ordered()), map[]) < 200
    {
      hide Ready, Ordered, OnCourse, FirstMismatch, Sane, RenderedAll, LayoutAll, Repaired, RepairWarnings,
        RemainingAll, Run, RunWarnings, AllSane, DistinctTags;
      ghost var start, logged := Ordered(), warnings;
      Start(start, logged);
      for pass := 0 to MAX_REPAIR_PASSES
        invariant Ready()
        invariant OnCourse(start, logged, Ordered(), warnings, pass)
      {
        var header := RenderAll();
        ReadRendered(Ordered(), map[]);
        var mismatch := VerifyOnce(ReadHeader(header, map[]));
        OnePassDone(start, logged, Ordered(), warnings, pass);
        if mismatch.None? {
          return true;
        }
        RepairFound(mismatch.value);
      }
      OutOfPasses(start, logged, Ordered(), warnings);
      return false;
    }

    method RepairFound(f: Finding)
      requires Ready() && f.position < |order|
      requires f.mismatch.place.AtMember? ==> f.mismatch.place.index < |Ordered()[f.position].members|
      requires Sane(Repaired(Ordered()[f.position], f.mismatch))
      modifies structs.Values, this`warnings
      ensures Ready()
      ensures Ordered() ==
        old(Ordered())[f.position := Repaired(old(Ordered())[f.position], f.mismatch)]
      ensures warnings == old(warnings) + RepairWarnings(old(Ordered())[f.position], f.mismatch)
    {
      hide Sane, Repaired, RepairWarnings;
      var sdef := structs[order[f.position]];
      assert Ordered()[f.position] == sdef.View();
      RepairStruct(sdef, f.mismatch);
      Redefined(sdef);
      OrderedUpdate(old(View()), f.position, sdef.View());
    }

    method RepairStruct(sdef: StructDef, m: Mismatch)
      requires m.place.AtMember? ==> m.place.index < |sdef.members|
      modifies sdef, this`warnings
      ensures sdef.View() == Repaired(old(sdef.View()), m)
      ensures warnings == old(warnings) + RepairWarnings(old(sdef.View()), m)
    {
      if m.place.AtSize? {
        if m.actual < sdef.size && !sdef.opaqueBytes {
          sdef.trailingPad := sdef.trailingPad + (sdef.size - m.actual);
          return;
        }
        warnings := warnings + [SizeOpaque(sdef.tag, m.actual, sdef.size)];
        sdef.opaqueBytes := true;
        return;
      }
      var i := m.place.index;
      var member := sdef.members[i];
      if m.actual < member.offset {
        sdef.pads := sdef.pads[i := (if i in sdef.pads then sdef.pads[i] else 0) + (member.offset - m.actual)];
        return;
      }
      warnings := warnings + [OffsetOpaque(sdef.tag, member.name, m.actual, member.offset)];
      sdef.opaqueBytes := true;
    }
  }

  const MAX_REPAIR_PASSES := 200

  lemma MembersNamed(d: Definition)
    requires Sane(d)
    ensures forall i :: 0 <= i < |d.members| ==> d.members[i].name != ""
  {
  }

  /** After this many passes the loop has done what the loop without a cap does. */
  ghost predicate OnCourse(
      start: seq<Definition>, logged: seq<Warning>, defs: seq<Definition>, warnings: seq<Warning>, passes: nat)
    requires AllSane(start) && AllSane(defs)
  {
    && passes <= MAX_REPAIR_PASSES
    && Run(start, MAX_REPAIR_PASSES) == Run(defs, MAX_REPAIR_PASSES - passes)
    && logged + RunWarnings(start, MAX_REPAIR_PASSES) == warnings + RunWarnings(defs, MAX_REPAIR_PASSES - passes)
    && RemainingAll(start, map[]) == RemainingAll(defs, map[]) + passes
  }

  lemma Start(defs: seq<Definition>, warnings: seq<Warning>)
    requires AllSane(defs)
    ensures OnCourse(defs, warnings, defs, warnings, 0)
  {
  }

  lemma OnePassDone(
      start: seq<Definition>, logged: seq<Warning>, defs: seq<Definition>, warnings: seq<Warning>, passes: nat)
    requires AllSane(start) && AllSane(defs) && OnCourse(start, logged, defs, warnings, passes)
    requires passes < MAX_REPAIR_PASSES
    ensures var f := FirstMismatch(defs, map[]);
      if f.None? then
        && RemainingAll(start, map[]) == passes
        && defs == Run(start, MAX_REPAIR_PASSES)
        && warnings == logged + RunWarnings(start, MAX_REPAIR_PASSES)
      else
        var k, m := f.value.position, f.value.mismatch;
        && Sane(Repaired(defs[k], m))
        && AllSane(defs[k := Repaired(defs[k], m)])
        && OnCourse(start, logged, defs[k := Repaired(defs[k], m)], warnings + RepairWarnings(defs[k], m), passes + 1)
  {
    hide FirstMismatch, RemainingAll, OutcomeAll, RenderAll, Repaired, Sane, RepairWarnings, Run, RunWarnings;
    OnePass(defs, map[]);
    var n := MAX_REPAIR_PASSES - passes;
    if FirstMismatch(defs, map[]).None? {
      Idle(defs, n);
    } else {
      var f := FirstMismatch(defs, map[]).value;
      assert Step(defs)[f.position] == Repaired(defs[f.position], f.mismatch);
      NextPass(defs, n);
    }
  }

  lemma NextPass(defs: seq<Definition>, n: nat)
    requires AllSane(defs) && n > 0
    ensures Run(defs, n) == Run(Step(defs), n - 1)
    ensures RunWarnings(defs, n) == StepWarnings(defs) + RunWarnings(Step(defs), n - 1)
  {
  }

  lemma OutOfPasses(start: seq<Definition>, logged: seq<Warning>, defs: seq<Definition>, warnings: seq<Warning>)
    requires AllSane(start) && AllSane(defs) && OnCourse(start, logged, defs, warnings, MAX_REPAIR_PASSES)
    ensures defs == Run(start, MAX_REPAIR_PASSES)
    ensures warnings == logged + RunWarnings(start, MAX_REPAIR_PASSES)
    ensures RemainingAll(start, map[]) >= MAX_REPAIR_PASSES
  {
  }

  lemma {:induction false} Idle(defs: seq<Definition>, n: nat)
    requires AllSane(defs) && FirstMismatch(defs, map[]).None?
    ensures Run(defs, n) == defs && RunWarnings(defs, n) == []
    decreases n
  {
    hide FirstMismatch;
    if n == 0 {
    } else {
      Idle(defs, n - 1);
    }
  }

  lemma NothingRead()
    ensures LayoutAll([], map[]) == map[]
  {
  }

  lemma NothingLeft(defs: seq<Definition>, known: Layouts)
    requires AllSane(defs) && defs == []
    ensures FirstMismatch(defs, known).None?
  {
  }

  lemma ClosedLeaves(g: Graph, o: Offset)
    requires Dwarf.Closed(g) && o in g
    ensures LeavesIn(g, g[o].members)
  {
  }

  lemma WalkFirst(g: Graph, st: State, tag: string, ms: seq<MemberDie>)
    requires Dwarf.Closed(g) && LeavesIn(g, ms) && tag in st.structs && ms != []
    ensures WalkMembers(g, st, tag, ms) ==
      match WalkMember(g, st, tag, ms[0])
      case None => None
      case Some(st1) => WalkMembers(g, st1, tag, ms[1..])
  {
    hide WalkMember, Dwarf.Closed;
  }

  lemma WalkNone(g: Graph, st: State, tag: string)
    requires Dwarf.Closed(g) && tag in st.structs
    ensures WalkMembers(g, st, tag, []) == Some(st)
  {
  }

  lemma {:induction false} SameDeclaration(g: Graph, tags: map<Offset, string>, t: Type)
    ensures Declared(g, tags, t) == Declared(g, tags, Resolved(t))
    decreases Length(t)
  {
    match t
    case Qualified(of) => SameDeclaration(g, tags, of);
    case Typedef(of) => SameDeclaration(g, tags, of);
    case _ =>
  }
}
