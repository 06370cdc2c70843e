/** Runs of the repair over a whole header. */
module Fixpoint {
  import opened Dwarf
  import opened Lists
  import opened Header
  import opened Repair

  ghost predicate AllSane(defs: seq<Definition>) {
    forall i :: 0 <= i < |defs| ==> Sane(defs[i])
  }

  function TagsOf(defs: seq<Definition>): seq<string> {
    seq(|defs|, i requires 0 <= i < |defs| => defs[i].tag)
  }

  ghost predicate DistinctTags(defs: seq<Definition>) {
    NoRepeats(TagsOf(defs))
  }

  datatype Finding = Finding(position: nat, mismatch: Mismatch)

  /** The first mismatch of a header, each definition laid out after those before it. */
  function FirstMismatch(defs: seq<Definition>, known: Layouts): (r: Option<Finding>)
    requires AllSane(defs)
    ensures r.Some? ==>
      && r.value.position < |defs|
      && var m, d := r.value.mismatch, defs[r.value.position];
         m.place.AtMember? ==> m.place.index < |d.members|
  {
    if defs == [] then None
    else
      RepairOne(defs[0], known);
      var l := LayoutOf(defs[0], known);
      var m := Compare(defs[0], l);
      if m.Some? then Some(Finding(0, m.value))
      else
        var later := FirstMismatch(defs[1..], known[defs[0].tag := l]);
        if later.Some? then Some(Finding(later.value.position + 1, later.value.mismatch)) else None
  }

  function Later(f: Option<Finding>, n: nat): Option<Finding> {
    if f.Some? then Some(Finding(f.value.position + n, f.value.mismatch)) else None
  }

  /** Looking for the first mismatch one definition at a time. */
  lemma {:induction false} SearchNext(defs: seq<Definition>, known: Layouts, i: nat)
    requires i < |defs| && AllSane(defs) && AllSane(defs[i..])
    ensures var l := LayoutOf(defs[i], LayoutAll(defs[..i], known));
      && (SizeOnly(defs[i]) || |l.offsets| == |defs[i].members|)
      && AllSane(defs[i + 1..])
      && Later(FirstMismatch(defs[i..], LayoutAll(defs[..i], known)), i) ==
           (if Compare(defs[i], l).Some? then Some(Finding(i, Compare(defs[i], l).value))
            else Later(FirstMismatch(defs[i + 1..], LayoutAll(defs[..i + 1], known)), i + 1))
  {
    hide LayoutOf, Compare, Sane;
    assert defs[i..][0] == defs[i] && defs[i..][1..] == defs[i + 1..];
    RepairOne(defs[i], LayoutAll(defs[..i], known));
    LayoutNext(defs, known, i);
  }

  function RepairAt(defs: seq<Definition>, f: Finding): seq<Definition>
    requires f.position < |defs|
    requires f.mismatch.place.AtMember? ==> f.mismatch.place.index < |defs[f.position].members|
  {
    defs[f.position := Repaired(defs[f.position], f.mismatch)]
  }

  /** The layouts that a definition will be known with once it is exact. */
  function Settled(d: Definition, known: Layouts): Layouts {
    known[d.tag := BodyLayout(d.kind, Outcome(d, known), known)]
  }

  function RemainingAll(defs: seq<Definition>, known: Layouts): nat {
    if defs == [] then 0
    else Remaining(defs[0], known) + RemainingAll(defs[1..], Settled(defs[0], known))
  }

  function OutcomeAll(defs: seq<Definition>, known: Layouts): (bodies: seq<seq<Item>>)
    ensures |bodies| == |defs|
  {
    if defs == [] then []
    else [Outcome(defs[0], known)] + OutcomeAll(defs[1..], Settled(defs[0], known))
  }

  function RenderAll(defs: seq<Definition>): (bodies: seq<seq<Item>>)
    ensures |bodies| == |defs|
  {
    seq(|defs|, i requires 0 <= i < |defs| => Render(defs[i]))
  }

  /** One pass: it finds nothing exactly when no repair is left, and otherwise brings the header one repair
      closer to the same outcome. */
  lemma {:induction false} OnePass(defs: seq<Definition>, known: Layouts)
    requires AllSane(defs)
    ensures var f := FirstMismatch(defs, known);
      && (f.None? <==> RemainingAll(defs, known) == 0)
      && (f.None? ==> RenderAll(defs) == OutcomeAll(defs, known))
      && (f.Some? ==>
            var defs' := RepairAt(defs, f.value);
            && AllSane(defs')
            && RemainingAll(defs', known) + 1 == RemainingAll(defs, known)
            && OutcomeAll(defs', known) == OutcomeAll(defs, known))
  {
    hide Remaining, Outcome, LayoutOf, Compare, Render, Repaired, BodyLayout, Sane;
    if defs == [] {
    } else {
      var d := defs[0];
      RepairOne(d, known);
      var l := LayoutOf(d, known);
      var f := FirstMismatch(defs, known);
      if Compare(d, l).Some? {
        var d' := Repaired(d, Compare(d, l).value);
        SameKind(d, Compare(d, l).value);
        assert RepairAt(defs, f.value)[1..] == defs[1..];
      } else {
        SettledExact(d, known);
        OnePass(defs[1..], known[d.tag := l]);
        if f.Some? {
          var rest := FirstMismatch(defs[1..], known[d.tag := l]);
          assert RepairAt(defs, f.value)[1..] == RepairAt(defs[1..], rest.value);
          assert RepairAt(defs, f.value)[0] == d;
        }
      }
    }
  }

  lemma SameKind(d: Definition, m: Mismatch)
    requires m.place.AtMember? ==> m.place.index < |d.members|
    ensures var d' := Repaired(d, m);
      d'.tag == d.tag && d'.kind == d.kind && d'.size == d.size && d'.members == d.members
  {
  }

  lemma SettledExact(d: Definition, known: Layouts)
    requires Sane(d) && Remaining(d, known) == 0
    ensures Settled(d, known) == known[d.tag := LayoutOf(d, known)]
  {
    hide Remaining, Outcome, Compare, Render, BodyLayout;
    RepairOne(d, known);
  }

  // ---- Whole runs ----

  function Step(defs: seq<Definition>): (r: seq<Definition>)
    requires AllSane(defs)
    ensures AllSane(r) && |r| == |defs|
  {
    OnePass(defs, map[]);
    var f := FirstMismatch(defs, map[]);
    if f.Some? then RepairAt(defs, f.value) else defs
  }

  /** The header after n passes of a loop without a cap. */
  function Run(defs: seq<Definition>, n: nat): (r: seq<Definition>)
    requires AllSane(defs)
    ensures AllSane(r)
    decreases n
  {
    if n == 0 then defs else Run(Step(defs), n - 1)
  }

  ghost predicate Exact(defs: seq<Definition>)
    requires AllSane(defs)
  {
    FirstMismatch(defs, map[]).None?
  }

  /** The loop needs no cap: it stops after exactly RemainingAll repairs, on every input, with the outcome that
      was determined before the first pass. */
  lemma {:induction false} Termination(defs: seq<Definition>, n: nat)
    requires AllSane(defs)
    ensures Exact(Run(defs, n)) <==> RemainingAll(defs, map[]) <= n
    ensures Exact(Run(defs, n)) ==> RenderAll(Run(defs, n)) == OutcomeAll(defs, map[])
    ensures Exact(Run(defs, n)) ==> Run(defs, n + 1) == Run(defs, n)
    decreases n
  {
    hide RemainingAll, OutcomeAll, FirstMismatch, RenderAll, RepairAt;
    OnePass(defs, map[]);
    if n > 0 {
      Termination(Step(defs), n - 1);
    } else {
      assert Run(defs, 1) == Run(Step(defs), 0);
    }
  }

  // ---- Warnings ----

  function StepWarnings(defs: seq<Definition>): seq<Warning>
    requires AllSane(defs)
  {
    var f := FirstMismatch(defs, map[]);
    if f.Some? then RepairWarnings(defs[f.value.position], f.value.mismatch) else []
  }

  function RunWarnings(defs: seq<Definition>, n: nat): seq<Warning>
    requires AllSane(defs)
    decreases n
  {
    if n == 0 then [] else StepWarnings(defs) + RunWarnings(Step(defs), n - 1)
  }

  function OpaqueCount(defs: seq<Definition>): nat {
    if defs == [] then 0 else (if defs[0].opaqueBytes then 1 else 0) + OpaqueCount(defs[1..])
  }

  lemma {:induction false} OpaqueCountUpdate(defs: seq<Definition>, k: nat, d: Definition)
    requires k < |defs|
    ensures OpaqueCount(defs[k := d]) + (if defs[k].opaqueBytes then 1 else 0) ==
            OpaqueCount(defs) + (if d.opaqueBytes then 1 else 0)
  {
    if k == 0 {
      assert defs[k := d][1..] == defs[1..];
    } else {
      assert defs[k := d][1..] == defs[1..][k - 1 := d];
      OpaqueCountUpdate(defs[1..], k - 1, d);
    }
  }

  /** Giving up on a definition is final: nothing mismatches in it any more. */
  lemma OpaqueIsExact(d: Definition, known: Layouts)
    requires Sane(d) && d.opaqueBytes
    ensures Compare(d, LayoutOf(d, known)).None?
  {
    hide LayoutOf, Compare, Outcome;
    RepairOne(d, known);
  }

  lemma {:induction false} NeverOpaque(defs: seq<Definition>, known: Layouts)
    requires AllSane(defs) && FirstMismatch(defs, known).Some?
    ensures !defs[FirstMismatch(defs, known).value.position].opaqueBytes
  {
    hide LayoutOf, Compare, Sane;
    var d := defs[0];
    RepairOne(d, known);
    if d.opaqueBytes {
      OpaqueIsExact(d, known);
    }
    if Compare(d, LayoutOf(d, known)).None? {
      NeverOpaque(defs[1..], known[d.tag := LayoutOf(d, known)]);
    }
  }

  /** Every definition that a run gives up on is reported once, and nothing else is. */
  lemma {:induction false} OneWarningEach(defs: seq<Definition>, n: nat)
    requires AllSane(defs)
    ensures OpaqueCount(Run(defs, n)) == OpaqueCount(defs) + |RunWarnings(defs, n)|
    decreases n
  {
    hide FirstMismatch, OpaqueCount;
    if n == 0 {
    } else {
      var f := FirstMismatch(defs, map[]);
      if f.Some? {
        var k := f.value.position;
        NeverOpaque(defs, map[]);
        OpaqueCountUpdate(defs, k, Repaired(defs[k], f.value.mismatch));
      }
      OneWarningEach(Step(defs), n - 1);
    }
  }

  function CountAbout(ws: seq<Warning>, tag: string): nat {
    if ws == [] then 0 else (if ws[0].tag == tag then 1 else 0) + CountAbout(ws[1..], tag)
  }

  lemma CountNext(ws: seq<Warning>, rest: seq<Warning>, tag: string)
    requires |ws| <= 1
    ensures CountAbout(ws + rest, tag) == CountAbout(rest, tag) + if ws != [] && ws[0].tag == tag then 1 else 0
  {
    if ws == [] {
      assert ws + rest == rest;
    } else {
      assert (ws + rest)[1..] == rest;
    }
  }

  /** What one pass does to the definition at position k, and says about it. */
  lemma StepAt(defs: seq<Definition>, k: nat)
    requires AllSane(defs) && DistinctTags(defs) && k < |defs|
    ensures var d, d', ws := defs[k], Step(defs)[k], StepWarnings(defs);
      && |ws| <= 1 && d'.tag == d.tag && DistinctTags(Step(defs)) && (d.opaqueBytes ==> d'.opaqueBytes)
      && (ws != [] && ws[0].tag == d.tag <==> d'.opaqueBytes && !d.opaqueBytes)
  {
    hide FirstMismatch;
    var f := FirstMismatch(defs, map[]);
    if f.Some? {
      var j := f.value.position;
      NeverOpaque(defs, map[]);
      SameKind(defs[j], f.value.mismatch);
      assert TagsOf(Step(defs)) == TagsOf(defs);
      assert TagsOf(defs)[j] == defs[j].tag && TagsOf(defs)[k] == defs[k].tag;
    }
  }

  /** A definition is reported by one warning if the run gives up on it, and by none if it does not. */
  lemma {:induction false} ReportedOnce(defs: seq<Definition>, n: nat, k: nat)
    requires AllSane(defs) && DistinctTags(defs) && k < |defs|
    ensures |Run(defs, n)| == |defs|
    ensures CountAbout(RunWarnings(defs, n), defs[k].tag) ==
      if Run(defs, n)[k].opaqueBytes && !defs[k].opaqueBytes then 1 else 0
    ensures defs[k].opaqueBytes ==> Run(defs, n)[k].opaqueBytes
    decreases n
  {
    hide Step, StepWarnings, DistinctTags, CountAbout;
    if n == 0 {
      assert CountAbout([], defs[k].tag) == 0 by { NothingAbout(defs[k].tag); }
    } else {
      StepAt(defs, k);
      ReportedOnce(Step(defs), n - 1, k);
      CountNext(StepWarnings(defs), RunWarnings(Step(defs), n - 1), defs[k].tag);
    }
  }

  lemma NothingAbout(tag: string)
    ensures CountAbout([], tag) == 0
  {
  }

  // ---- What the layout promises ----

  /** A member lies between two bounds and is aligned. */
  ghost predicate Sits(m: Member, at: nat, from: nat, end: nat, known: Layouts) {
    at % TypeAlign(m.ctype, known) == 0 && from <= at && EndOf(m, at, known) <= end
  }

  function EndOf(m: Member, at: nat, known: Layouts): nat {
    at + DeclaredSize(m.ctype, m.dims, known)
  }

  /** Members from index i on are in order, apart and aligned, within `end`. */
  ghost predicate Apart(ms: seq<Member>, i: nat, offsets: seq<nat>, start: nat, end: nat, known: Layouts)
    requires i <= |ms|
  {
    && |offsets| == |ms| - i
    && (offsets == [] ==> start <= end)
    && forall j :: 0 <= j < |offsets| ==>
         Sits(ms[i + j], offsets[j], EndBefore(ms, i, offsets, start, j, known), end, known)
  }

  /** Where the member before the j-th one ends. */
  function EndBefore(ms: seq<Member>, i: nat, offsets: seq<nat>, start: nat, j: nat, known: Layouts): nat
    requires i + |offsets| == |ms| && j < |offsets|
  {
    if j == 0 then start else EndOf(ms[i + j - 1], offsets[j - 1], known)
  }

  lemma {:induction false} MembersApart(d: Definition, i: nat, e: nat, known: Layouts)
    requires i <= |d.members|
    ensures Apart(d.members, i, StructOffsets(RenderFrom(d, i), e, known), e,
                  StructEnd(RenderFrom(d, i), e, known), known)
    decreases |d.members| - i
  {
    hide AlignUp, DeclaredSize, TypeAlign, StructOffsets, StructEnd, RenderFrom, Apart;
    if i < |d.members| {
      var m := d.members[i];
      PlacedAt(d, i, e, known);
      var at := AlignUp(e + d.PadAt(i), TypeAlign(m.ctype, known));
      var next := at + DeclaredSize(m.ctype, m.dims, known);
      MembersApart(d, i + 1, next, known);
      ApartNext(d.members, i, at, StructOffsets(RenderFrom(d, i + 1), next, known), e,
                StructEnd(RenderFrom(d, i + 1), next, known), known);
    } else {
      NoneApart(d, e, known);
    }
  }

  lemma NoneApart(d: Definition, e: nat, known: Layouts)
    ensures Apart(d.members, |d.members|, StructOffsets(RenderFrom(d, |d.members|), e, known), e,
                  StructEnd(RenderFrom(d, |d.members|), e, known), known)
  {
    OffsetCount(d, |d.members|, e, known);
    TailPlaced(d, e, known);
  }

  lemma ApartNext(ms: seq<Member>, i: nat, at: nat, offsets: seq<nat>, e: nat, end: nat, known: Layouts)
    requires i < |ms| && e <= at && at % TypeAlign(ms[i].ctype, known) == 0
    requires Apart(ms, i + 1, offsets, EndOf(ms[i], at, known), end, known)
    ensures Apart(ms, i, [at] + offsets, e, end, known)
  {
    hide Sits, EndOf;
    FirstSits(ms, i, at, offsets, e, end, known);
    var all := [at] + offsets;
    forall j | 0 <= j < |all|
      ensures Sits(ms[i + j], all[j], EndBefore(ms, i, all, e, j, known), end, known)
    {
      if j > 0 {
        var k := j - 1;
        assert all[j] == offsets[k] && ms[i + j] == ms[i + 1 + k];
        assert k > 0 ==> all[k] == offsets[k - 1] && ms[i + k] == ms[i + 1 + k - 1];
      }
    }
  }

  lemma FirstSits(ms: seq<Member>, i: nat, at: nat, offsets: seq<nat>, e: nat, end: nat, known: Layouts)
    requires i < |ms| && e <= at && at % TypeAlign(ms[i].ctype, known) == 0
    requires Apart(ms, i + 1, offsets, EndOf(ms[i], at, known), end, known)
    ensures Sits(ms[i], at, e, end, known)
  {
    hide TypeAlign, DeclaredSize;
    if offsets != [] {
      assert Sits(ms[i + 1 + 0], offsets[0], EndOf(ms[i], at, known), end, known);
    }
  }

  /** The layout of a structure, however it is padded, is one that C allows: its members are in order, do not overlap
      and are aligned, and its size covers them and is a multiple of its alignment. */
  lemma LayoutIsLegal(d: Definition, known: Layouts)
    requires !SizeOnly(d) && d.members != []
    ensures var l := LayoutOf(d, known);
      Apart(d.members, 0, l.offsets, 0, l.size, known) && l.size % l.align == 0
  {
    hide DeclaredSize, TypeAlign, StructOffsets, StructEnd, RenderFrom, BodyAlign, Apart;
    var items := RenderFrom(d, 0);
    MembersApart(d, 0, 0, known);
    ApartWithin(d.members, StructOffsets(items, 0, known), StructEnd(items, 0, known), LayoutOf(d, known).size, known);
  }

  lemma ApartWithin(ms: seq<Member>, offsets: seq<nat>, end: nat, size: nat, known: Layouts)
    requires Apart(ms, 0, offsets, 0, end, known) && end <= size
    ensures Apart(ms, 0, offsets, 0, size, known)
  {
    hide DeclaredSize, TypeAlign;
  }

  // ---- Stability ----

  /** The first n offsets are the same, and none of the others is smaller. */
  ghost predicate MovedForward(before: seq<nat>, after: seq<nat>, n: int) {
    && |before| == |after|
    && forall j :: 0 <= j < |before| ==> before[j] <= after[j] && (j < n ==> before[j] == after[j])
  }

  /** Members before a new pad stay where they are, and those behind it do not move backwards. */
  lemma PaddingMovesForward(d: Definition, i: nat, known: Layouts, bytes: nat)
    requires !SizeOnly(d) && i < |d.members|
    ensures var d' := d.(pads := d.pads[i := d.PadAt(i) + bytes]);
      && |LayoutOf(d, known).offsets| == |d.members|
      && MovedForward(LayoutOf(d, known).offsets, LayoutOf(d', known).offsets, i)
  {
    hide AlignUp, BodyAlign, StructOffsets, RenderFrom, StructEnd;
    var d' := d.(pads := d.pads[i := d.PadAt(i) + bytes]);
    OffsetCount(d, 0, 0, known);
    OffsetsMove(d, d', i, 0, 0, 0, known);
  }

  lemma {:induction false} OffsetsMove(
      d: Definition, d': Definition, k: nat, i: nat, e: nat, e': nat, known: Layouts)
    requires i <= |d.members| && d' == d.(pads := d'.pads) && e <= e' && (i <= k ==> e == e')
    requires forall j :: 0 <= j < |d.members| ==> if j == k then d.PadAt(j) <= d'.PadAt(j) else d'.PadAt(j) == d.PadAt(j)
    ensures MovedForward(StructOffsets(RenderFrom(d, i), e, known), StructOffsets(RenderFrom(d', i), e', known), k - i)
    decreases |d.members| - i
  {
    hide AlignUp, DeclaredSize, TypeAlign, StructOffsets, RenderFrom, MovedForward;
    if i < |d.members| {
      var m, a := d.members[i], TypeAlign(d.members[i].ctype, known);
      PlacedAt(d, i, e, known);
      PlacedAt(d', i, e', known);
      var at, at' := AlignUp(e + d.PadAt(i), a), AlignUp(e' + d'.PadAt(i), a);
      AlignUpMonotone(e + d.PadAt(i), e' + d'.PadAt(i), a);
      var size := DeclaredSize(m.ctype, m.dims, known);
      OffsetsMove(d, d', k, i + 1, at + size, at' + size, known);
      MovedNext(at, at', StructOffsets(RenderFrom(d, i + 1), at + size, known),
                StructOffsets(RenderFrom(d', i + 1), at' + size, known), k - i);
    } else {
      NothingMoved(d, d', e, e', k - i, known);
    }
  }

  lemma MovedNext(at: nat, at': nat, before: seq<nat>, after: seq<nat>, n: int)
    requires MovedForward(before, after, n - 1) && at <= at' && (n > 0 ==> at == at')
    ensures MovedForward([at] + before, [at'] + after, n)
  {
  }

  lemma NothingMoved(d: Definition, d': Definition, e: nat, e': nat, n: int, known: Layouts)
    requires d'.members == d.members
    ensures MovedForward(StructOffsets(RenderFrom(d, |d.members|), e, known),
                         StructOffsets(RenderFrom(d', |d.members|), e', known), n)
  {
    OffsetCount(d, |d.members|, e, known);
    OffsetCount(d', |d.members|, e', known);
  }

  lemma AlignUpMonotone(e: nat, e': nat, a: Alignment)
    requires e <= e'
    ensures AlignUp(e, a) <= AlignUp(e', a)
  {
    hide AlignUp;
    LeastMultiple(e, a, AlignUp(e', a));
  }

  /** Repairing the definition at position k leaves the layout of every definition before it as it was. */
  lemma EarlierStable(defs: seq<Definition>, known: Layouts, k: nat, d: Definition, i: nat)
    requires DistinctTags(defs) && i < k < |defs| && d.tag == defs[k].tag
    ensures defs[i].tag in LayoutAll(defs, known) && defs[i].tag in LayoutAll(defs[k := d], known)
    ensures LayoutAll(defs[k := d], known)[defs[i].tag] == LayoutAll(defs, known)[defs[i].tag]
  {
    hide LayoutOf;
    var defs' := defs[k := d];
    assert defs'[..i] == defs[..i];
    assert TagsOf(defs') == TagsOf(defs);
    LayoutAt(defs, known, i);
    LayoutAt(defs', known, i);
  }

  /** The layout of a definition in the whole header is the one it gets when it is read. */
  lemma {:induction false} LayoutAt(defs: seq<Definition>, known: Layouts, i: nat)
    requires i < |defs| && DistinctTags(defs)
    ensures defs[i].tag in LayoutAll(defs, known)
    ensures LayoutAll(defs, known)[defs[i].tag] == LayoutOf(defs[i], LayoutAll(defs[..i], known))
  {
    hide LayoutOf;
    var next := known[defs[0].tag := LayoutOf(defs[0], known)];
    assert forall j :: 0 <= j < |defs| ==> TagsOf(defs)[j] == defs[j].tag;
    assert TagsOf(defs[1..]) == TagsOf(defs)[1..];
    if i == 0 {
      LayoutKept(defs[1..], next, defs[0].tag);
    } else {
      LayoutAt(defs[1..], next, i - 1);
      assert defs[..i][1..] == defs[1..][..i - 1];
    }
  }

  lemma {:induction false} LayoutKept(defs: seq<Definition>, known: Layouts, tag: string)
    requires tag in known && forall i :: 0 <= i < |defs| ==> defs[i].tag != tag
    ensures tag in LayoutAll(defs, known) && LayoutAll(defs, known)[tag] == known[tag]
  {
    hide LayoutOf;
    if defs == [] {
    } else {
      LayoutKept(defs[1..], known[defs[0].tag := LayoutOf(defs[0], known)], tag);
    }
  }

  lemma {:induction false} LayoutNext(defs: seq<Definition>, known: Layouts, i: nat)
    requires i < |defs|
    ensures var before := LayoutAll(defs[..i], known);
      LayoutAll(defs[..i + 1], known) == before[defs[i].tag := LayoutOf(defs[i], before)]
  {
    hide LayoutOf;
    if i == 0 {
      assert defs[..1][1..] == [];
    } else {
      LayoutNext(defs[1..], known[defs[0].tag := LayoutOf(defs[0], known)], i - 1);
      assert defs[..i][1..] == defs[1..][..i - 1];
      assert defs[..i + 1][1..] == defs[1..][..i];
    }
  }
}
