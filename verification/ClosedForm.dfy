/** The outcome of the repair in closed form: one padding pass over offsets and sizes that DWARF gives, with no
    reference to layouts of partly padded structures. */
module ClosedForm {
  import opened Dwarf
  import opened Header
  import opened Repair
  import opened Fixpoint

  /** A definition as the extractor leaves it. */
  predicate Fresh(d: Definition) {
    d.pads == map[] && d.trailingPad == 0 && !d.opaqueBytes
  }

  /** Where the member before index i ends, by DWARF offsets. */
  function PreviousEnd(d: Definition, i: nat, known: Layouts): int
    requires i <= |d.members|
  {
    if i == 0 then 0 else End(d.members[i - 1], known)
  }

  predicate InOrder(d: Definition, i: nat, known: Layouts)
    requires i < |d.members|
  {
    && PreviousEnd(d, i, known) <= d.members[i].offset
    && d.members[i].offset % TypeAlign(d.members[i].ctype, known) == 0
  }

  /** DWARF places no member inside the one before it or off its rendered alignment, and likewise for the end of
      the definition.  Members of a union need only fit into it. */
  predicate WellPlaced(d: Definition, known: Layouts) {
    match d.kind
    case Union => UnionFits(d, known)
    case Struct =>
      d.members != [] ==>
        && (forall i :: 0 <= i < |d.members| ==> InOrder(d, i, known))
        && PreviousEnd(d, |d.members|, known) <= d.size
        && d.size % MembersAlign(d.members, known) == 0
  }

  function Gap(d: Definition, i: nat, known: Layouts): int
    requires i < |d.members|
  {
    var e := PreviousEnd(d, i, known);
    if e < 0 then 0 else d.members[i].offset - AlignUp(e, TypeAlign(d.members[i].ctype, known))
  }

  function TailGap(d: Definition, known: Layouts): int {
    var e := PreviousEnd(d, |d.members|, known);
    if e < 0 || d.members == [] then 0 else d.size - AlignUp(e, MembersAlign(d.members, known))
  }

  function Gaps(d: Definition, known: Layouts): (gaps: set<nat>)
    ensures forall i :: i in gaps ==> i < |d.members|
  {
    set i | 0 <= i < |d.members| && Gap(d, i, known) > 0
  }

  /** The definition with all its padding, or opaque when padding cannot place its members. */
  function Padded(d: Definition, known: Layouts): Definition {
    if !WellPlaced(d, known) then d.(opaqueBytes := true)
    else if d.kind.Union? then d
    else
      var tail := TailGap(d, known);
      d.(pads := map i | i in Gaps(d, known) :: Gap(d, i, known), trailingPad := if tail > 0 then tail else 0)
  }

  // ---- Placing members ----

  lemma FitsMeans(e: nat, a: Alignment, target: int)
    ensures Fits(e, a, target) <==> e <= target && target % a == 0
  {
    hide AlignUp;
    if e <= target && target % a == 0 {
      LeastMultiple(e, a, target);
    }
  }

  ghost predicate PlacedFrom(d: Definition, i: nat, known: Layouts)
    requires i <= |d.members|
  {
    && (forall j :: i <= j < |d.members| ==> InOrder(d, j, known))
    && PreviousEnd(d, |d.members|, known) <= d.size
    && d.size % MembersAlign(d.members, known) == 0
  }

  lemma {:induction false} FitsExactly(d: Definition, i: nat, known: Layouts)
    requires i <= |d.members| && Fresh(d) && PreviousEnd(d, i, known) >= 0
    ensures AllFit(d, i, PreviousEnd(d, i, known), known) <==> PlacedFrom(d, i, known)
    decreases |d.members| - i
  {
    hide AlignUp, Fits, RepairsAt, DeclaredSize, TypeAlign, MembersAlign, RemainingFrom, AllFit, CompletedFrom;
    var e := PreviousEnd(d, i, known);
    if i == |d.members| {
      FitsMeans(e, MembersAlign(d.members, known), d.size);
      UnfoldEnd(d, e, known);
    } else {
      FitsMeans(e, TypeAlign(d.members[i].ctype, known), d.members[i].offset);
      UnfoldMember(d, i, e, known);
      if InOrder(d, i, known) {
        FitsExactly(d, i + 1, known);
      }
    }
  }

  /** A structure can be made exact if and only if DWARF places it well. */
  lemma ExactlyWellPlaced(d: Definition, known: Layouts)
    requires Fresh(d)
    ensures CanBeExact(d, known) <==> WellPlaced(d, known)
  {
    hide AllFit, UnionFits;
    FitsExactly(d, 0, known);
  }

  lemma PaddedPads(d: Definition, known: Layouts)
    requires d.kind.Struct? && WellPlaced(d, known) && Fresh(d)
    ensures var d' := Padded(d, known);
      && d'.members == d.members
      && (forall i :: 0 <= i < |d.members| ==>
            d'.PadAt(i) == if Gap(d, i, known) > 0 then Gap(d, i, known) else 0)
      && d'.trailingPad == if TailGap(d, known) > 0 then TailGap(d, known) else 0
  {
    hide Gap, TailGap, WellPlaced;
  }

  lemma RenderedNext(d: Definition, i: nat)
    requires i <= |d.members|
    ensures RenderFrom(d, i) ==
      if i == |d.members| then TailItems(d.trailingPad)
      else PadItems(i, d.PadAt(i)) + [FieldOf(d.members[i])] + RenderFrom(d, i + 1)
  {
  }

  lemma GapAt(d: Definition, i: nat, known: Layouts)
    requires i < |d.members| && PreviousEnd(d, i, known) >= 0
    ensures Gap(d, i, known) ==
      d.members[i].offset - AlignUp(PreviousEnd(d, i, known), TypeAlign(d.members[i].ctype, known))
  {
    hide AlignUp, TypeAlign;
  }

  lemma TailGapAt(d: Definition, known: Layouts)
    requires PreviousEnd(d, |d.members|, known) >= 0 && d.members != []
    ensures TailGap(d, known) ==
      d.size - AlignUp(PreviousEnd(d, |d.members|, known), MembersAlign(d.members, known))
  {
    hide AlignUp, MembersAlign;
  }

  lemma {:induction false} CompletedIsClosed(d: Definition, i: nat, known: Layouts)
    requires i <= |d.members| && Fresh(d) && d.kind.Struct? && WellPlaced(d, known) && d.members != []
    requires PreviousEnd(d, i, known) >= 0 && AllFit(d, i, PreviousEnd(d, i, known), known)
    ensures CompletedFrom(d, i, PreviousEnd(d, i, known), known) == RenderFrom(Padded(d, known), i)
    decreases |d.members| - i
  {
    hide AlignUp, Fits, RepairsAt, DeclaredSize, TypeAlign, MembersAlign, RemainingFrom, AllFit, CompletedFrom,
      Padded, WellPlaced, Gap, TailGap, RenderFrom;
    var e, d' := PreviousEnd(d, i, known), Padded(d, known);
    PaddedPads(d, known);
    RenderedNext(d', i);
    if i < |d.members| {
      var m := d.members[i];
      UnfoldMember(d, i, e, known);
      GapAt(d, i, known);
      CompletedIsClosed(d, i + 1, known);
    } else {
      UnfoldEnd(d, e, known);
      TailGapAt(d, known);
    }
  }

  /** The outcome of the repairs is the closed form. */
  lemma OutcomeIsClosed(d: Definition, known: Layouts)
    requires Sane(d) && Fresh(d)
    ensures Outcome(d, known) == Render(Padded(d, known))
  {
    hide AllFit, UnionFits, CompletedFrom;
    ExactlyWellPlaced(d, known);
    if d.kind.Struct? && d.members != [] && WellPlaced(d, known) {
      CompletedIsClosed(d, 0, known);
    }
  }

  lemma NotOpaque(d: Definition, n: nat)
    requires !d.opaqueBytes
    ensures Render(d) != [OpaqueBytes(n)]
  {
    if d.members != [] {
      assert Render(d)[0] == (PadItems(0, d.PadAt(0)) + [FieldOf(d.members[0])])[0];
    }
  }

  /** Exact opacity: what the repairs arrive at is opaque if and only if DWARF does not place the members well. */
  lemma OpaqueExactly(d: Definition, known: Layouts)
    requires Sane(d) && Fresh(d)
    ensures Outcome(d, known) == [OpaqueBytes(d.size)] <==> !WellPlaced(d, known)
  {
    hide Outcome, WellPlaced, Render;
    OutcomeIsClosed(d, known);
    if WellPlaced(d, known) {
      NotOpaque(Padded(d, known), d.size);
    } else {
      assert Render(Padded(d, known)) == [OpaqueBytes(d.size)] by { OpaqueBody(Padded(d, known)); }
    }
  }

  lemma OpaqueBody(d: Definition)
    requires d.opaqueBytes && d.size > 0
    ensures Render(d) == [OpaqueBytes(d.size)]
  {
  }

  // ---- How many repairs ----

  function GapsFrom(d: Definition, i: nat, known: Layouts): (gaps: set<nat>)
    requires i <= |d.members|
  {
    set j | i <= j < |d.members| && Gap(d, j, known) > 0
  }

  /** Whether a definition gets a trailing pad, as a count. */
  function TailCount(d: Definition, known: Layouts): nat {
    if d.kind.Struct? && TailGap(d, known) > 0 then 1 else 0
  }

  lemma {:induction false} GapsCounted(d: Definition, i: nat, known: Layouts)
    requires i <= |d.members| && Fresh(d) && d.members != []
    requires PreviousEnd(d, i, known) >= 0 && PlacedFrom(d, i, known)
    ensures RemainingFrom(d, i, PreviousEnd(d, i, known), known) ==
            |GapsFrom(d, i, known)| + if TailGap(d, known) > 0 then 1 else 0
    decreases |d.members| - i
  {
    hide AlignUp, Fits, RepairsAt, DeclaredSize, TypeAlign, MembersAlign, RemainingFrom, AllFit, CompletedFrom,
      GapsFrom;
    var e := PreviousEnd(d, i, known);
    if i == |d.members| {
      FitsMeans(e, MembersAlign(d.members, known), d.size);
      UnfoldEnd(d, e, known);
      OneRepair(e, MembersAlign(d.members, known), d.size);
      NoGap(d, known);
    } else {
      var m := d.members[i];
      assert InOrder(d, i, known);
      FitsMeans(e, TypeAlign(m.ctype, known), m.offset);
      OneRepair(e, TypeAlign(m.ctype, known), m.offset);
      UnfoldMember(d, i, e, known);
      GapsCounted(d, i + 1, known);
      NextGap(d, i, known);
    }
  }

  lemma NoGap(d: Definition, known: Layouts)
    ensures |GapsFrom(d, |d.members|, known)| == 0
  {
  }

  lemma NextGap(d: Definition, i: nat, known: Layouts)
    requires i < |d.members|
    ensures |GapsFrom(d, i, known)| == (if Gap(d, i, known) > 0 then 1 else 0) + |GapsFrom(d, i + 1, known)|
  {
    hide Gap;
    assert GapsFrom(d, i, known) ==
      (if Gap(d, i, known) > 0 then {i} else {}) + GapsFrom(d, i + 1, known);
  }

  lemma OneRepair(e: nat, a: Alignment, target: int)
    requires Fits(e, a, target)
    ensures RepairsAt(e, a, target) == if target - AlignUp(e, a) > 0 then 1 else 0
  {
  }

  /** A well placed definition takes one repair for each gap before a member and one for a gap at its end. */
  lemma RepairsAreGaps(d: Definition, known: Layouts)
    requires Sane(d) && Fresh(d) && WellPlaced(d, known)
    ensures Remaining(d, known) == (if d.kind.Struct? then |Gaps(d, known)| else 0) + TailCount(d, known)
  {
    hide RemainingFrom, UnionFits;
    if d.kind.Struct? && d.members != [] {
      GapsCounted(d, 0, known);
      assert Gaps(d, known) == GapsFrom(d, 0, known);
    } else if d.kind.Struct? {
      assert Gaps(d, known) == {};
    }
  }

  /** Repairs spent on a misaligned offset or size: one for each time its remainder fits into the distance r to the
      next boundary, then one more pad and the one that gives up. */
  lemma {:induction false} TriesCount(r: nat, remainder: nat)
    requires remainder > 0
    ensures remainder * (Tries(r, remainder) - 2) <= r < remainder * (Tries(r, remainder) - 1)
    decreases r
  {
    if r < remainder {
    } else {
      TriesCount(r - remainder, remainder);
      var k := Tries(r - remainder, remainder);
      assert Tries(r, remainder) == k + 1;
      assert remainder * (k - 1) == remainder * (k - 2) + remainder;
      assert remainder * k == remainder * (k - 1) + remainder;
    }
  }

  // ---- Whole headers ----

  ghost predicate AllFresh(defs: seq<Definition>) {
    forall i :: 0 <= i < |defs| ==> Fresh(defs[i])
  }

  /** The closed form of each definition, each with the closed forms before it. */
  function PaddedAll(defs: seq<Definition>, known: Layouts): (r: seq<Definition>)
    ensures |r| == |defs|
  {
    if defs == [] then []
    else
      var d := Padded(defs[0], known);
      [d] + PaddedAll(defs[1..], known[d.tag := LayoutOf(d, known)])
  }

  function AllWellPlaced(defs: seq<Definition>, known: Layouts): bool {
    defs != [] ==>
      && WellPlaced(defs[0], known)
      && AllWellPlaced(defs[1..], known[defs[0].tag := LayoutOf(Padded(defs[0], known), known)])
  }

  function AllGaps(defs: seq<Definition>, known: Layouts): nat {
    if defs == [] then 0
    else
      var d := defs[0];
      (if d.kind.Struct? then |Gaps(d, known)| else 0) + TailCount(d, known) +
      AllGaps(defs[1..], known[d.tag := LayoutOf(Padded(d, known), known)])
  }

  /** Refinement: what the repair loop arrives at is the one-pass padding. */
  lemma {:induction false} OutcomeAllIsClosed(defs: seq<Definition>, known: Layouts)
    requires AllSane(defs) && AllFresh(defs)
    ensures OutcomeAll(defs, known) == RenderAll(PaddedAll(defs, known))
  {
    hide Outcome, Render, Padded, BodyLayout, Sane, Fresh;
    if defs == [] {
    } else {
      var d := defs[0];
      OutcomeIsClosed(d, known);
      PaddedTag(d, known);
      OutcomeAllIsClosed(defs[1..], Settled(d, known));
      assert RenderAll(PaddedAll(defs, known)) ==
        [Render(Padded(d, known))] + RenderAll(PaddedAll(defs[1..], Settled(d, known)));
    }
  }

  lemma PaddedTag(d: Definition, known: Layouts)
    ensures var d' := Padded(d, known);
      && d'.tag == d.tag && d'.kind == d.kind && d'.size == d.size && d'.members == d.members
      && (d.opaqueBytes ==> d'.opaqueBytes)
      && (!d.opaqueBytes ==> d'.opaqueBytes == !WellPlaced(d, known))
  {
  }

  /** Pass bound: on a well placed header every pass but the last closes one gap. */
  lemma {:induction false} RepairsAreAllGaps(defs: seq<Definition>, known: Layouts)
    requires AllSane(defs) && AllFresh(defs) && AllWellPlaced(defs, known)
    ensures RemainingAll(defs, known) == AllGaps(defs, known)
  {
    hide Outcome, Render, Padded, BodyLayout, Sane, Fresh, Remaining, WellPlaced, Gaps, TailCount;
    if defs == [] {
    } else {
      var d := defs[0];
      OutcomeIsClosed(d, known);
      PaddedTag(d, known);
      RepairsAreGaps(d, known);
      RepairsAreAllGaps(defs[1..], Settled(d, known));
    }
  }
}
