/** Verification of the header against DWARF, and its repair, as functions on the definitions.

    Compare finds the first mismatch of one definition and Repaired mends it; the extractor repeats this
    until nothing mismatches.  Remaining counts exactly how often it will, from any state, and Outcome
    is the body it will arrive at.  Both are preserved by every single repair, which is all that the
    results about whole runs rest on. */
module Repair {
  import opened Dwarf
  import opened Header

  datatype Place = AtSize | AtMember(index: nat)

  datatype Mismatch = Mismatch(place: Place, actual: nat)

  datatype Warning =
    | AnonymousDropped(tag: string)
    | BitfieldDropped(tag: string, member: string)
    | TypeDropped(tag: string, member: string)
    | SizeOpaque(tag: string, actual: nat, size: nat)
    | OffsetOpaque(tag: string, member: string, actual: nat, offset: int)

  const UNION_PAD := "_penguin_union_pad"

  /** What the extractor establishes before verification and no repair changes. */
  ghost predicate Sane(d: Definition) {
    && d.size > 0
    && (forall i :: 0 <= i < |d.members| ==> d.members[i].name != "")
    && (d.kind.Union? ==>
          && d.pads == map[] && d.trailingPad == 0
          && d.members != [] && d.members[|d.members| - 1] == Member(UNION_PAD, Plain(UInt8), [d.size], 0))
  }

  // ---- One definition ----

  /** The first member from index i on whose offset is not the one DWARF gives. */
  function FirstBadMember(d: Definition, offsets: seq<nat>, i: nat): (r: Option<Mismatch>)
    requires i <= |d.members| == |offsets|
    ensures r.Some? ==> r.value.place.AtMember? && r.value.place.index < |d.members|
    decreases |d.members| - i
  {
    if i == |d.members| then None
    else if offsets[i] != d.members[i].offset then Some(Mismatch(AtMember(i), offsets[i]))
    else FirstBadMember(d, offsets, i + 1)
  }

  /** Only the size of an opaque definition or a union is compared. */
  predicate SizeOnly(d: Definition) {
    d.opaqueBytes || d.kind.Union?
  }

  function Compare(d: Definition, l: Layout): (r: Option<Mismatch>)
    requires SizeOnly(d) || |l.offsets| == |d.members|
    ensures r.Some? && r.value.place.AtMember? ==> r.value.place.index < |d.members|
  {
    var member := if SizeOnly(d) then None else FirstBadMember(d, l.offsets, 0);
    if member.Some? then member
    else if l.size != d.size then Some(Mismatch(AtSize, l.size))
    else None
  }

  function Repaired(d: Definition, m: Mismatch): Definition
    requires m.place.AtMember? ==> m.place.index < |d.members|
  {
    match m.place
    case AtSize =>
      if m.actual < d.size && !d.opaqueBytes
      then d.(trailingPad := d.trailingPad + (d.size - m.actual))
      else d.(opaqueBytes := true)
    case AtMember(i) =>
      if m.actual < d.members[i].offset
      then d.(pads := d.pads[i := d.PadAt(i) + (d.members[i].offset - m.actual)])
      else d.(opaqueBytes := true)
  }

  /** The warning that goes with a repair: only giving up on a definition is reported. */
  function RepairWarnings(d: Definition, m: Mismatch): seq<Warning>
    requires m.place.AtMember? ==> m.place.index < |d.members|
  {
    match m.place
    case AtSize =>
      if m.actual < d.size && !d.opaqueBytes then [] else [SizeOpaque(d.tag, m.actual, d.size)]
    case AtMember(i) =>
      if m.actual < d.members[i].offset then []
      else [OffsetOpaque(d.tag, d.members[i].name, m.actual, d.members[i].offset)]
  }

  // ---- Reaching one offset ----

  /** Padding can bring something of alignment a, that follows a byte string ending at e, to this offset. */
  predicate Fits(e: nat, a: Alignment, target: int): (r: bool)
    ensures r ==> e <= target
  {
    AlignUp(e, a) <= target && target % a == 0
  }

  /** Repairs spent on a target that alignment keeps overshooting: each pad closes the remainder of the target
      until the distance r to the next boundary is used up, and the last repair makes the definition opaque. */
  function Tries(r: nat, remainder: nat): nat
    requires remainder > 0
  {
    if r < remainder then 2 else 1 + Tries(r - remainder, remainder)
  }

  function RepairsAt(e: nat, a: Alignment, target: int): nat {
    var at := AlignUp(e, a);
    if at == target then 0
    else if at > target || target % a == 0 then 1
    else Tries(at - e, target % a)
  }

  lemma PadOnce(e: nat, a: Alignment, target: int)
    requires AlignUp(e, a) < target
    ensures var e' := e + (target - AlignUp(e, a));
            && RepairsAt(e', a, target) + 1 == RepairsAt(e, a, target)
            && (Fits(e', a, target) <==> Fits(e, a, target))
            && (Fits(e, a, target) ==> AlignUp(e', a) == target)
  {
    var at, remainder := AlignUp(e, a), target % a;
    var e' := e + (target - at);
    if remainder == 0 {
      AlignedAt(e', a, target);
    } else {
      Multiples(target, a);
      if remainder <= at - e {
        AlignedAt(e', a, target - remainder);
      } else {
        AlignedAt(e', a, target - remainder + a);
      }
    }
  }

  lemma Multiples(n: nat, a: Alignment)
    ensures (n - n % a) % a == 0 && (n - n % a + a) % a == 0
  {
    if a == 1 {
    } else if a == 2 {
      assert (n - n % 2) % 2 == 0;
    } else if a == 4 {
      assert (n - n % 4) % 4 == 0;
    } else {
      assert (n - n % 8) % 8 == 0;
    }
  }

  lemma AlignedAt(e: nat, a: Alignment, at: nat)
    requires e <= at < e + a && at % a == 0
    ensures AlignUp(e, a) == at
  {
    hide AlignUp;
    SameMultiple(AlignUp(e, a), at, a);
  }

  lemma LeastMultiple(e: nat, a: Alignment, n: int)
    requires e <= n && n % a == 0
    ensures AlignUp(e, a) <= n
  {
    hide AlignUp;
    if n < AlignUp(e, a) {
      SameMultiple(AlignUp(e, a), n, a);
    }
  }

  lemma SameMultiple(x: nat, y: nat, a: Alignment)
    requires x % a == 0 && y % a == 0 && x < y + a && y < x + a
    ensures x == y
  {
    if a == 1 {} else if a == 2 {} else if a == 4 {} else {}
  }

  // ---- The rest of one structure ----

  function End(m: Member, known: Layouts): int {
    m.offset + DeclaredSize(m.ctype, m.dims, known)
  }

  function MembersAlign(ms: seq<Member>, known: Layouts): Alignment {
    if ms == [] then 1 else MaxAlignment(TypeAlign(ms[0].ctype, known), MembersAlign(ms[1..], known))
  }

  /** Every member from index i on, and then the size, can be reached, the member before i ending at e. */
  predicate AllFit(d: Definition, i: nat, e: nat, known: Layouts)
    requires i <= |d.members|
    decreases |d.members| - i
  {
    if i == |d.members| then Fits(e + d.trailingPad, MembersAlign(d.members, known), d.size)
    else
      && Fits(e + d.PadAt(i), TypeAlign(d.members[i].ctype, known), d.members[i].offset)
      && AllFit(d, i + 1, End(d.members[i], known), known)
  }

  function RemainingFrom(d: Definition, i: nat, e: nat, known: Layouts): nat
    requires i <= |d.members|
    decreases |d.members| - i
  {
    if i == |d.members| then RepairsAt(e + d.trailingPad, MembersAlign(d.members, known), d.size)
    else
      var a, target := TypeAlign(d.members[i].ctype, known), d.members[i].offset;
      RepairsAt(e + d.PadAt(i), a, target) +
      if Fits(e + d.PadAt(i), a, target) then RemainingFrom(d, i + 1, End(d.members[i], known), known) else 0
  }

  function CompletedFrom(d: Definition, i: nat, e: nat, known: Layouts): seq<Item>
    requires i <= |d.members| && AllFit(d, i, e, known)
    decreases |d.members| - i
  {
    if i == |d.members| then
      TailItems(d.trailingPad + (d.size - AlignUp(e + d.trailingPad, MembersAlign(d.members, known))))
    else
      var m, p := d.members[i], d.PadAt(i);
      PadItems(i, p + (m.offset - AlignUp(e + p, TypeAlign(m.ctype, known)))) + [FieldOf(m)] +
      CompletedFrom(d, i + 1, End(m, known), known)
  }

  /** The first mismatch from member i on, read off DWARF offsets instead of the layout. */
  function Scan(d: Definition, i: nat, e: nat, known: Layouts): (r: Option<Mismatch>)
    requires i <= |d.members|
    ensures r.Some? && r.value.place.AtMember? ==> i <= r.value.place.index < |d.members|
    decreases |d.members| - i
  {
    if i == |d.members| then
      var at := AlignUp(e + d.trailingPad, MembersAlign(d.members, known));
      if at == d.size then None else Some(Mismatch(AtSize, at))
    else
      var at := AlignUp(e + d.PadAt(i), TypeAlign(d.members[i].ctype, known));
      if at == d.members[i].offset then Scan(d, i + 1, End(d.members[i], known), known)
      else Some(Mismatch(AtMember(i), at))
  }

  /** From d to d' one of the repairs that remain from member i on is spent, and the outcome stays the same. */
  ghost predicate Progress(d: Definition, d': Definition, i: nat, e: nat, known: Layouts)
    requires i <= |d.members| && d'.members == d.members
  {
    if d'.opaqueBytes then RemainingFrom(d, i, e, known) == 1 && !AllFit(d, i, e, known)
    else
      && RemainingFrom(d', i, e, known) + 1 == RemainingFrom(d, i, e, known)
      && AllFit(d', i, e, known) == AllFit(d, i, e, known)
      && (AllFit(d, i, e, known) ==> CompletedFrom(d', i, e, known) == CompletedFrom(d, i, e, known))
  }

  lemma {:induction false} ScanRepaired(d: Definition, i: nat, e: nat, known: Layouts)
    requires i <= |d.members| && !d.opaqueBytes
    requires Scan(d, i, e, known).Some?
    ensures Progress(d, Repaired(d, Scan(d, i, e, known).value), i, e, known)
    decreases |d.members| - i
  {
    hide AlignUp, Fits, RepairsAt, DeclaredSize, TypeAlign, MembersAlign, Progress;
    var m := Scan(d, i, e, known).value;
    if i == |d.members| {
      SizeRepaired(d, e, known);
    } else if m.place == AtMember(i) {
      MemberRepaired(d, i, e, known);
    } else {
      ScanRepaired(d, i + 1, End(d.members[i], known), known);
      BehindMember(d, Repaired(d, m), i, e, known);
    }
  }

  lemma BehindMember(d: Definition, d': Definition, i: nat, e: nat, known: Layouts)
    requires i < |d.members| && d'.members == d.members && d'.PadAt(i) == d.PadAt(i)
    requires AlignUp(e + d.PadAt(i), TypeAlign(d.members[i].ctype, known)) == d.members[i].offset
    requires Progress(d, d', i + 1, End(d.members[i], known), known)
    ensures Progress(d, d', i, e, known)
  {
    hide AlignUp, Fits, RepairsAt, DeclaredSize, TypeAlign, MembersAlign, RemainingFrom, AllFit, CompletedFrom;
    AtTarget(e + d.PadAt(i), TypeAlign(d.members[i].ctype, known), d.members[i].offset);
    UnfoldMember(d, i, e, known);
    UnfoldMember(d', i, e, known);
  }

  lemma AtTarget(e: nat, a: Alignment, target: int)
    requires AlignUp(e, a) == target
    ensures Fits(e, a, target) && RepairsAt(e, a, target) == 0
  {
  }

  lemma SizeRepaired(d: Definition, e: nat, known: Layouts)
    requires !d.opaqueBytes && Scan(d, |d.members|, e, known).Some?
    ensures Progress(d, Repaired(d, Scan(d, |d.members|, e, known).value), |d.members|, e, known)
  {
    hide AlignUp, Fits, RepairsAt, DeclaredSize, TypeAlign, MembersAlign, RemainingFrom, AllFit, CompletedFrom;
    var a := MembersAlign(d.members, known);
    Overshoot(e + d.trailingPad, a, d.size);
    if AlignUp(e + d.trailingPad, a) < d.size {
      PadOnce(e + d.trailingPad, a, d.size);
    }
    UnfoldEnd(d, e, known);
    UnfoldEnd(Repaired(d, Scan(d, |d.members|, e, known).value), e, known);
  }

  lemma Overshoot(e: nat, a: Alignment, target: int)
    ensures AlignUp(e, a) > target ==> !Fits(e, a, target) && RepairsAt(e, a, target) == 1
  {
  }

  lemma MemberRepaired(d: Definition, i: nat, e: nat, known: Layouts)
    requires i < |d.members| && !d.opaqueBytes
    requires Scan(d, i, e, known).Some? && Scan(d, i, e, known).value.place == AtMember(i)
    ensures Progress(d, Repaired(d, Scan(d, i, e, known).value), i, e, known)
  {
    hide AlignUp, Fits, RepairsAt, DeclaredSize, TypeAlign, MembersAlign;
    var target := d.members[i].offset;
    if AlignUp(e + d.PadAt(i), TypeAlign(d.members[i].ctype, known)) > target {
      Overshoot(e + d.PadAt(i), TypeAlign(d.members[i].ctype, known), target);
    } else {
      hide Progress;
      MemberPadded(d, Repaired(d, Scan(d, i, e, known).value), i, e, known);
    }
  }

  lemma MemberPadded(d: Definition, d': Definition, i: nat, e: nat, known: Layouts)
    requires i < |d.members| && !d.opaqueBytes
    requires var at := AlignUp(e + d.PadAt(i), TypeAlign(d.members[i].ctype, known));
      && at < d.members[i].offset
      && d' == d.(pads := d.pads[i := d.PadAt(i) + (d.members[i].offset - at)])
    ensures Progress(d, d', i, e, known)
  {
    hide AlignUp, Fits, RepairsAt, DeclaredSize, TypeAlign, MembersAlign, RemainingFrom, AllFit, CompletedFrom;
    var p, a, target := d.PadAt(i), TypeAlign(d.members[i].ctype, known), d.members[i].offset;
    PadOnce(e + p, a, target);
    assert e + d'.PadAt(i) == e + p + (target - AlignUp(e + p, a));
    UnfoldMember(d, i, e, known);
    UnfoldMember(d', i, e, known);
    if Fits(e + p, a, target) {
      LaterPads(d, d', i + 1, End(d.members[i], known), known);
    }
  }

  /** The definitions above, unfolded once. */
  lemma UnfoldMember(d: Definition, i: nat, e: nat, known: Layouts)
    requires i < |d.members|
    ensures var m, p, a := d.members[i], d.PadAt(i), TypeAlign(d.members[i].ctype, known);
      if Fits(e + p, a, m.offset) then
        && RemainingFrom(d, i, e, known) == RepairsAt(e + p, a, m.offset) + RemainingFrom(d, i + 1, End(m, known), known)
        && AllFit(d, i, e, known) == AllFit(d, i + 1, End(m, known), known)
        && (AllFit(d, i, e, known) ==>
              CompletedFrom(d, i, e, known) == PadItems(i, p + (m.offset - AlignUp(e + p, a))) + [FieldOf(m)] +
                                               CompletedFrom(d, i + 1, End(m, known), known))
      else
        RemainingFrom(d, i, e, known) == RepairsAt(e + p, a, m.offset) && !AllFit(d, i, e, known)
  {
    hide AlignUp, RepairsAt, DeclaredSize, TypeAlign, MembersAlign;
  }

  lemma UnfoldEnd(d: Definition, e: nat, known: Layouts)
    ensures var n, p, a := |d.members|, d.trailingPad, MembersAlign(d.members, known);
      && RemainingFrom(d, n, e, known) == RepairsAt(e + p, a, d.size)
      && AllFit(d, n, e, known) == Fits(e + p, a, d.size)
      && (AllFit(d, n, e, known) ==>
            CompletedFrom(d, n, e, known) == TailItems(p + (d.size - AlignUp(e + p, a))))
  {
    hide AlignUp, RepairsAt, DeclaredSize, TypeAlign, MembersAlign;
  }

  /** What follows member i depends on no pad before it. */
  lemma {:induction false} LaterPads(d: Definition, d': Definition, i: nat, e: int, known: Layouts)
    requires i <= |d.members| && 0 <= e
    requires d' == d.(pads := d'.pads) && forall j :: i <= j < |d.members| ==> d'.PadAt(j) == d.PadAt(j)
    ensures RemainingFrom(d', i, e, known) == RemainingFrom(d, i, e, known)
    ensures AllFit(d', i, e, known) == AllFit(d, i, e, known)
    ensures AllFit(d, i, e, known) ==> CompletedFrom(d', i, e, known) == CompletedFrom(d, i, e, known)
    decreases |d.members| - i
  {
    hide AlignUp, Fits, RepairsAt, DeclaredSize, TypeAlign, MembersAlign, RemainingFrom, AllFit, CompletedFrom;
    if i < |d.members| {
      UnfoldMember(d, i, e, known);
      UnfoldMember(d', i, e, known);
      if Fits(e + d.PadAt(i), TypeAlign(d.members[i].ctype, known), d.members[i].offset) {
        LaterPads(d, d', i + 1, End(d.members[i], known), known);
      }
    } else {
      UnfoldEnd(d, e, known);
      UnfoldEnd(d', e, known);
    }
  }

  // ---- One definition: the layout and the count ----

  predicate IsEmpty(d: Definition) {
    d.members == [] && d.trailingPad == 0
  }

  /** A union can only be exact when its own size is a multiple of its alignment and holds every member. */
  predicate UnionFits(d: Definition, known: Layouts) {
    && d.size % MembersAlign(d.members, known) == 0
    && forall i :: 0 <= i < |d.members| ==> DeclaredSize(d.members[i].ctype, d.members[i].dims, known) <= d.size
  }

  predicate CanBeExact(d: Definition, known: Layouts) {
    match d.kind
    case Union => UnionFits(d, known)
    case Struct => IsEmpty(d) || AllFit(d, 0, 0, known)
  }

  /** How many repairs are left before the definition is exact. */
  function Remaining(d: Definition, known: Layouts): nat {
    if d.opaqueBytes then 0
    else if d.kind.Union? then if UnionFits(d, known) then 0 else 1
    else if IsEmpty(d) then 0
    else RemainingFrom(d, 0, 0, known)
  }

  /** The body that the repairs arrive at. */
  function Outcome(d: Definition, known: Layouts): seq<Item> {
    if d.opaqueBytes || !CanBeExact(d, known) then [OpaqueBytes(AtLeastOne(d.size))]
    else if d.kind.Union? || IsEmpty(d) then Render(d)
    else CompletedFrom(d, 0, 0, known)
  }

  /** The layout of the lines from member i on, placed from e on, by members instead of by lines. */
  lemma PlacedAt(d: Definition, i: nat, e: nat, known: Layouts)
    requires i < |d.members|
    ensures var m := d.members[i];
            var at := AlignUp(e + d.PadAt(i), TypeAlign(m.ctype, known));
            var next := at + DeclaredSize(m.ctype, m.dims, known);
      && StructOffsets(RenderFrom(d, i), e, known) == [at] + StructOffsets(RenderFrom(d, i + 1), next, known)
      && StructEnd(RenderFrom(d, i), e, known) == StructEnd(RenderFrom(d, i + 1), next, known)
      && BodyAlign(RenderFrom(d, i), known) ==
           MaxAlignment(TypeAlign(m.ctype, known), BodyAlign(RenderFrom(d, i + 1), known))
  {
    hide AlignUp, DeclaredSize, TypeAlign, StructOffsets, StructEnd, BodyAlign;
    var rest, field, p := RenderFrom(d, i + 1), FieldOf(d.members[i]), d.PadAt(i);
    PlacedFirst(field, rest, e + p, known);
    if p > 0 {
      PlacedFirst(Pad(i, p), [field] + rest, e, known);
      assert RenderFrom(d, i) == [Pad(i, p)] + ([field] + rest);
      BytesAt(e);
    } else {
      assert RenderFrom(d, i) == [field] + rest;
    }
  }

  lemma PlacedFirst(it: Item, rest: seq<Item>, e: nat, known: Layouts)
    ensures var at := AlignUp(e, ItemAlign(it, known));
            var next := at + ItemSize(it, known);
      && StructOffsets([it] + rest, e, known) ==
           (if it.Field? then [at] else []) + StructOffsets(rest, next, known)
      && StructEnd([it] + rest, e, known) == StructEnd(rest, next, known)
      && BodyAlign([it] + rest, known) == MaxAlignment(ItemAlign(it, known), BodyAlign(rest, known))
  {
    hide AlignUp, DeclaredSize, TypeAlign;
    assert ([it] + rest)[1..] == rest;
  }

  lemma BytesAt(e: nat)
    ensures AlignUp(e, 1) == e
  {
  }

  lemma {:induction false} RenderedAlign(d: Definition, i: nat, known: Layouts)
    requires i <= |d.members|
    ensures BodyAlign(RenderFrom(d, i), known) == MembersAlign(d.members[i..], known)
    decreases |d.members| - i
  {
    if i == |d.members| {
    } else {
      PlacedAt(d, i, 0, known);
      RenderedAlign(d, i + 1, known);
      assert d.members[i..][1..] == d.members[i + 1..];
    }
  }

  lemma {:induction false} OffsetCount(d: Definition, i: nat, e: nat, known: Layouts)
    requires i <= |d.members|
    ensures |StructOffsets(RenderFrom(d, i), e, known)| == |d.members| - i
    decreases |d.members| - i
  {
    if i == |d.members| {
    } else {
      var m := d.members[i];
      PlacedAt(d, i, e, known);
      OffsetCount(d, i + 1, AlignUp(e + d.PadAt(i), TypeAlign(m.ctype, known)) + DeclaredSize(m.ctype, m.dims, known), known);
    }
  }

  lemma TailPlaced(d: Definition, e: nat, known: Layouts)
    ensures StructEnd(RenderFrom(d, |d.members|), e, known) == e + d.trailingPad
  {
    BytesAt(e);
  }

  /** Comparing the layout with DWARF is scanning the members. */
  lemma {:induction false} ScanIsCompare(d: Definition, offsets: seq<nat>, i: nat, e: nat, known: Layouts)
    requires i <= |d.members| == |offsets|
    requires offsets[i..] == StructOffsets(RenderFrom(d, i), e, known)
    ensures var size := AlignUp(StructEnd(RenderFrom(d, i), e, known), MembersAlign(d.members, known));
            var bad := FirstBadMember(d, offsets, i);
      Scan(d, i, e, known) ==
      if bad.Some? then bad else if size != d.size then Some(Mismatch(AtSize, size)) else None
    decreases |d.members| - i
  {
    hide AlignUp, DeclaredSize, TypeAlign, MembersAlign, StructOffsets, StructEnd, RenderFrom;
    if i == |d.members| {
      TailPlaced(d, e, known);
    } else {
      PlacedAt(d, i, e, known);
      assert offsets[i] == offsets[i..][0];
      assert offsets[i + 1..] == offsets[i..][1..];
      if offsets[i] == d.members[i].offset {
        ScanIsCompare(d, offsets, i + 1, End(d.members[i], known), known);
      }
    }
  }

  lemma CompareIsScan(d: Definition, known: Layouts)
    requires !SizeOnly(d) && !IsEmpty(d)
    ensures var l := LayoutOf(d, known);
      |l.offsets| == |d.members| && Compare(d, l) == Scan(d, 0, 0, known)
  {
    OffsetCount(d, 0, 0, known);
    RenderedAlign(d, 0, known);
    assert d.members[0..] == d.members;
    var offsets := LayoutOf(d, known).offsets;
    assert offsets[0..] == offsets;
    hide AlignUp, TypeAlign, DeclaredSize;
    ScanIsCompare(d, offsets, 0, 0, known);
  }

  /** Nothing left to scan: the body is what it was going to be. */
  lemma {:induction false} ScannedThrough(d: Definition, i: nat, e: nat, known: Layouts)
    requires i <= |d.members| && Scan(d, i, e, known).None?
    ensures RemainingFrom(d, i, e, known) == 0 && AllFit(d, i, e, known)
    ensures CompletedFrom(d, i, e, known) == RenderFrom(d, i)
    decreases |d.members| - i
  {
    hide AlignUp, Fits, RepairsAt, DeclaredSize, TypeAlign, MembersAlign, RemainingFrom, AllFit, CompletedFrom;
    if i == |d.members| {
      AtTarget(e + d.trailingPad, MembersAlign(d.members, known), d.size);
      UnfoldEnd(d, e, known);
    } else {
      var m := d.members[i];
      AtTarget(e + d.PadAt(i), TypeAlign(m.ctype, known), m.offset);
      UnfoldMember(d, i, e, known);
      ScannedThrough(d, i + 1, End(m, known), known);
    }
  }

  lemma UnionNext(d: Definition, i: nat, known: Layouts)
    requires i < |d.members| && d.pads == map[]
    ensures RenderFrom(d, i) == [FieldOf(d.members[i])] + RenderFrom(d, i + 1)
    ensures var size := DeclaredSize(d.members[i].ctype, d.members[i].dims, known);
            var rest := UnionEnd(RenderFrom(d, i + 1), known);
      UnionEnd(RenderFrom(d, i), known) == if size > rest then size else rest
    ensures UnionOffsets(RenderFrom(d, i)) == [0] + UnionOffsets(RenderFrom(d, i + 1))
  {
    hide DeclaredSize;
    assert RenderFrom(d, i)[1..] == RenderFrom(d, i + 1);
  }

  lemma {:induction false} UnionEndBound(d: Definition, i: nat, bound: nat, known: Layouts)
    requires i <= |d.members| && d.pads == map[] && d.trailingPad == 0
    ensures UnionEnd(RenderFrom(d, i), known) <= bound <==>
      forall j :: i <= j < |d.members| ==> DeclaredSize(d.members[j].ctype, d.members[j].dims, known) <= bound
    decreases |d.members| - i
  {
    hide DeclaredSize, UnionEnd, RenderFrom;
    if i < |d.members| {
      UnionNext(d, i, known);
      UnionEndBound(d, i + 1, bound, known);
    } else {
      NoUnion(d, known);
    }
  }

  lemma NoUnion(d: Definition, known: Layouts)
    requires d.trailingPad == 0
    ensures RenderFrom(d, |d.members|) == []
    ensures UnionEnd(RenderFrom(d, |d.members|), known) == 0
  {
  }

  lemma {:induction false} UnionOffsetsZero(d: Definition, i: nat, known: Layouts)
    requires i <= |d.members| && d.pads == map[] && d.trailingPad == 0
    ensures |UnionOffsets(RenderFrom(d, i))| == |d.members| - i
    ensures forall j :: 0 <= j < |UnionOffsets(RenderFrom(d, i))| ==> UnionOffsets(RenderFrom(d, i))[j] == 0
    decreases |d.members| - i
  {
    hide RenderFrom;
    if i < |d.members| {
      UnionNext(d, i, known);
      UnionOffsetsZero(d, i + 1, known);
    } else {
      NoUnion(d, known);
    }
  }

  lemma UnionLayout(d: Definition, known: Layouts)
    requires Sane(d) && d.kind.Union? && !d.opaqueBytes
    ensures LayoutOf(d, known).size >= d.size
    ensures LayoutOf(d, known).size == d.size <==> UnionFits(d, known)
    ensures |LayoutOf(d, known).offsets| == |d.members|
    ensures forall j :: 0 <= j < |d.members| ==> LayoutOf(d, known).offsets[j] == 0
  {
    var n, a := |d.members|, MembersAlign(d.members, known);
    var end := UnionEnd(RenderFrom(d, 0), known);
    RenderedAlign(d, 0, known);
    assert d.members[0..] == d.members;
    PadSize(d.size, known);
    hide DeclaredSize;
    UnionEndBound(d, 0, d.size, known);
    UnionEndBound(d, 0, end, known);
    UnionOffsetsZero(d, 0, known);
    var last := d.members[n - 1];
    assert d.size == DeclaredSize(last.ctype, last.dims, known) <= end;
    UnionAligned(end, d.size, a);
  }

  lemma UnionAligned(end: nat, size: nat, a: Alignment)
    requires size <= end
    ensures AlignUp(end, a) == size <==> end <= size && size % a == 0
  {
  }

  lemma PadSize(size: Positive, known: Layouts)
    ensures DeclaredSize(Plain(UInt8), [size], known) == size
  {
    assert Product([size]) == size * Product([]);
  }

  lemma ByteBodies(d: Definition, known: Layouts)
    requires Sane(d) && (d.opaqueBytes || (d.kind.Struct? && IsEmpty(d)))
    ensures LayoutOf(d, known) == Layout(d.size, 1, [])
  {
    var items := Render(d);
    assert items[1..] == [];
    assert UnionEnd(items, known) == d.size;
    assert StructEnd(items, 0, known) == d.size;
    assert BodyAlign(items, known) == 1;
    BytesAt(d.size);
    assert UnionOffsets(items) == [];
    assert StructOffsets(items, 0, known) == [];
  }

  /** One verification of one definition, and the repair it calls for: exact definitions are finished, and any
      other repair leaves one repair less to do, with the same body to arrive at. */
  lemma RepairOne(d: Definition, known: Layouts)
    requires Sane(d)
    ensures var l := LayoutOf(d, known);
      && (SizeOnly(d) || |l.offsets| == |d.members|)
      && (Compare(d, l).None? <==> Remaining(d, known) == 0)
      && (Compare(d, l).None? ==> Render(d) == Outcome(d, known))
      && (Compare(d, l).Some? ==>
            var d' := Repaired(d, Compare(d, l).value);
            && Sane(d')
            && Remaining(d', known) + 1 == Remaining(d, known)
            && Outcome(d', known) == Outcome(d, known))
  {
    hide RemainingFrom, AllFit, CompletedFrom, LayoutOf, UnionFits;
    if d.opaqueBytes {
      ByteBodies(d, known);
    } else if d.kind.Union? {
      UnionLayout(d, known);
    } else if IsEmpty(d) {
      ByteBodies(d, known);
    } else {
      CompareIsScan(d, known);
      if Scan(d, 0, 0, known).None? {
        ScannedThrough(d, 0, 0, known);
      } else {
        ScanRepaired(d, 0, 0, known);
      }
    }
  }
}
