/** The emitter of the API-mode declarations, with its mutable state. */
module ApiEmitter {
  import opened Dwarf
  import opened Walk
  import opened Api
  import opened ApiWalk

  class ApiCdefEmitter {
    const dwarf: Graph
    var defs: seq<ApiDefinition>
    var dieRefs: map<Offset, Reference>
    var emittedNames: set<string>
    var warnings: seq<ApiWarning>

    ghost predicate Valid() {
      Dwarf.Closed(dwarf) && Acyclic(dwarf)
    }

    /** References are those of named aggregates. */
    ghost predicate Sound()
      reads this
    {
      forall o :: o in dieRefs ==> o in dwarf && IsNamed(dwarf[o]) && dieRefs[o] == ReferenceTo(dwarf[o])
    }

    /** The state as a value. */
    ghost function View(): ApiState
      reads this
    {
      ApiState(defs, dieRefs, emittedNames, warnings)
    }

    constructor (dwarf: Graph)
      requires Dwarf.Closed(dwarf) && Acyclic(dwarf)
      ensures Valid() && Sound() && View() == NOTHING && this.dwarf == dwarf
    {
      this.dwarf := dwarf;
      defs, dieRefs, emittedNames, warnings := [], map[], {}, [];
    }

    /** The lines for the members: with an ellipsis at the end (partial), or all of them or none.  Without the
        ellipsis nothing is defined, referred to or reported on the way. */
    method MembersBody(die: Offset, partial: bool) returns (lines: Option<seq<ApiItem>>)
      requires Valid() && Sound() && die in dwarf
      modifies this
      ensures Sound()
      ensures partial ==> View() == ApiMembers(dwarf, old(View()), die, 0) && lines == Some(PartialBody(dwarf, die))
      ensures !partial ==>
        View() == old(View()) && lines == StrictBody(dwarf, die, |dwarf[die].members|)
      decreases (if partial then Unreferenced(dwarf, View()) + 1 else 0),
                (if partial then 2 else Height(dwarf, Aggregate(die))), 1, 0
    {
      if partial {
        var all := PartialLines(die);
        return Some(all + [Ellipsis]);
      } else {
        lines := StrictLines(die);
      }
    }

    method PartialLines(die: Offset) returns (lines: seq<ApiItem>)
      requires Valid() && Sound() && die in dwarf
      modifies this
      ensures Sound()
      ensures View() == ApiMembers(dwarf, old(View()), die, 0)
      ensures lines == PartialItems(dwarf, die, |dwarf[die].members|)
      decreases Unreferenced(dwarf, View()) + 1, 1, 4, 0
    {
      hide ApiDeclared, Dwarf.Closed, Acyclic, ApiVisit, Unreferenced, IsNamed, Height, LeafIn;
      lines := [];
      ghost var start := View();
      for i := 0 to |dwarf[die].members|
        invariant Sound()
        invariant lines == PartialItems(dwarf, die, i)
        invariant start.refs.Keys <= dieRefs.Keys
        invariant ApiMembers(dwarf, View(), die, i) == ApiMembers(dwarf, start, die, 0)
      {
        var child := dwarf[die].members[i];
        InnerHeight(dwarf, die, i);
        FewerUnreferenced(dwarf, start, View());
        var rendered := MemberType(child.ty, false);
        assert warnings + [] == warnings;
        if rendered.None? {
          warnings := warnings + [MemberOmitted(dwarf[die].name, child.name)];
          continue;
        }
        var d := rendered.value;
        if child.bitSize.Some? {
          warnings := warnings + [BitfieldOmitted(dwarf[die].name, child.name)];
          continue;
        }
        if child.name.None? {
          if d.ctype.Inline? {
            lines := lines + [Anonymous(d.ctype)];
          }
        } else {
          lines := lines + [Declaration(d.ctype, child.name.value, d.dims)];
        }
      }
    }

    method StrictLines(die: Offset) returns (lines: Option<seq<ApiItem>>)
      requires Valid() && Sound() && die in dwarf
      modifies this
      ensures View() == old(View()) && lines == StrictBody(dwarf, die, |dwarf[die].members|)
      decreases 0, Height(dwarf, Aggregate(die)), 0, 0
    {
      hide ApiDeclared, Dwarf.Closed, Acyclic, IsNamed, Height;
      var all := [];
      for i := 0 to |dwarf[die].members|
        invariant View() == old(View())
        invariant StrictBody(dwarf, die, i) == Some(all)
      {
        var child := dwarf[die].members[i];
        InnerHeight(dwarf, die, i);
        var rendered := MemberType(child.ty, true);
        if rendered.None? {
          FailsForGood(dwarf, die, i + 1);
          return None;
        }
        var d := rendered.value;
        if child.bitSize.Some? {
          if child.name.None? || d.dims != [] {
            FailsForGood(dwarf, die, i + 1);
            return None;
          }
          all := all + [Bitfield(d.ctype, child.name.value, child.bitSize.value)];
        } else if child.name.None? {
          if !d.ctype.Inline? {
            FailsForGood(dwarf, die, i + 1);
            return None;
          }
          all := all + [Anonymous(d.ctype)];
        } else {
          all := all + [Declaration(d.ctype, child.name.value, d.dims)];
        }
      }
      return Some(all);
    }

    method WholeBody(die: Offset) returns (body: Option<seq<ApiItem>>)
      requires Valid() && Sound() && die in dwarf
      modifies this
      ensures View() == old(View()) && body == InlineBody(dwarf, die)
      decreases 0, Height(dwarf, Aggregate(die)), 2, 0
    {
      hide StrictBody, Dwarf.Closed, Acyclic;
      var inner := MembersBody(die, false);
      if inner.None? || inner.value == [] {
        return None;
      }
      return inner;
    }

    method MemberType(typeDie: Type, strict: bool) returns (r: Option<ApiDeclarator>)
      requires Valid() && Sound() && LeafIn(dwarf, typeDie)
      modifies this
      ensures Sound()
      ensures View() == if strict then old(View()) else ApiVisit(dwarf, old(View()), typeDie)
      ensures r == ApiDeclared(dwarf, typeDie, strict)
      decreases (if strict then 0 else Unreferenced(dwarf, View()) + 1),
                (if strict then Height(dwarf, typeDie) else 1), 3, Length(typeDie)
    {
      hide Dwarf.Closed, Acyclic, InlineBody, ApiEmit, Unreferenced;
      var die := ResolveTypedefs(typeDie);
      SameApi(dwarf, typeDie, strict);
      match die
      case NoType => return None;
      case Exotic => return None;
      case Pointer => return ApiScalar(Some(VoidPointer));
      case Base(encoding, size) => return ApiScalar(BaseScalar(encoding, size));
      case Enumeration(byteSize) => return ApiScalar(UnsignedScalar(EnumerationSize(byteSize)));
      case Array(element, ranges) =>
        var inner := MemberType(element, strict);
        if inner.None? {
          return None;
        }
        var dims := ReadArrayDims(ranges);
        if exists i :: 0 <= i < |dims| && dims[i] <= 0 {
          return None;
        }
        return Some(ApiDeclarator(inner.value.ctype, dims + inner.value.dims));
      case Aggregate(o) =>
        if HasIdentifier(dwarf[o].name) && !strict {
          var reference := Emit(o);
          if reference.None? {
            return None;
          }
          return Some(ApiDeclarator(Named(reference.value.kind, reference.value.name), []));
        }
        if dwarf[o].isDeclaration {
          return None;
        }
        var body := WholeBody(o);
        if body.None? {
          return None;
        }
        return Some(ApiDeclarator(Inline(dwarf[o].kind, body.value), []));
      case Qualified(_) => assert false; return None;
      case Typedef(_) => assert false; return None;
    }

    /** The reference to a named aggregate, which is defined if it is not yet; None for any other. */
    method Emit(die: Offset) returns (r: Option<Reference>)
      requires Valid() && Sound() && die in dwarf
      modifies this
      ensures Sound()
      ensures View() == ApiEmit(dwarf, old(View()), die)
      ensures r == if IsNamed(dwarf[die]) then Some(ReferenceTo(dwarf[die])) else None
      decreases Unreferenced(dwarf, View()) + 1, 0, 0, 0
    {
      hide Dwarf.Closed, Acyclic, PartialBody, ApiMembers, Unreferenced, HasIdentifier;
      if die in dieRefs {
        return Some(dieRefs[die]);
      }
      if dwarf[die].isDeclaration {
        return None;
      }
      if !HasIdentifier(dwarf[die].name) {
        return None;
      }
      var reference := Reference(dwarf[die].kind, dwarf[die].name.value);
      if reference.name in emittedNames {
        dieRefs := dieRefs[die := reference];
        assert emittedNames == emittedNames + {reference.name};
        return Some(reference);
      }
      ghost var before := View();
      emittedNames := emittedNames + {reference.name};
      dieRefs := dieRefs[die := reference];
      FewerUnreferenced(dwarf, before, View());
      var body := MembersBody(die, true);
      defs := defs + [ApiDefinition(reference.kind, reference.name, body.value)];
      return Some(reference);
    }

    /** All definitions for a root, and the reference that its typedef stands for; an error when it has no name. */
    method Render(root: Offset) returns (r: Option<Reference>)
      requires Valid() && root in dwarf && View() == NOTHING
      modifies this
      ensures r.Some? <==> IsNamed(dwarf[root])
      ensures r.Some? ==> r.value == ReferenceTo(dwarf[root])
      ensures View() == ApiEmit(dwarf, NOTHING, root)
    {
      r := Emit(root);
    }
  }

  lemma {:induction false} SameApi(g: Graph, t: Type, strict: bool)
    requires Dwarf.Closed(g) && Acyclic(g) && LeafIn(g, t)
    ensures ApiDeclared(g, t, strict) == ApiDeclared(g, Resolved(t), strict)
    decreases Length(t)
  {
    hide Dwarf.Closed, Acyclic, InlineBody;
    match t
    case Qualified(of) => SameApi(g, of, strict);
    case Typedef(of) => SameApi(g, of, strict);
    case _ =>
  }

  lemma {:induction false} FailsForGood(g: Graph, o: Offset, n: nat)
    requires Dwarf.Closed(g) && Acyclic(g) && o in g && n <= |g[o].members|
    requires StrictBody(g, o, n).None?
    ensures StrictBody(g, o, |g[o].members|).None?
    decreases |g[o].members| - n
  {
    hide Dwarf.Closed, Acyclic, ApiDeclared, StrictItem, Height;
    if n == |g[o].members| {
    } else {
      FailsForGood(g, o, n + 1);
    }
  }
}
