/** The ABI-mode header as a syntax tree, and the layout a C compiler gives it. */
module Header {
  import opened Dwarf

  datatype CType = Plain(scalar: Scalar) | Tagged(kind: Kind, tag: string)

  datatype Member = Member(name: string, ctype: CType, dims: seq<Positive>, offset: int)

  /** One structure or union of the header: its emitted members and the repairs made so far. */
  datatype Definition = Definition(
    tag: string,
    kind: Kind,
    size: nat,
    members: seq<Member>,
    pads: map<nat, nat>,
    trailingPad: nat,
    opaqueBytes: bool)
  {
    function PadAt(i: nat): nat {
      if i in pads then pads[i] else 0
    }
  }

  /** A line in the body of a rendered definition. */
  datatype Item =
    | Field(name: string, ctype: CType, dims: seq<Positive>)
    | Pad(before: nat, bytes: nat)
    | TailPad(bytes: nat)
    | OpaqueBytes(bytes: nat)
    | EmptyBytes(bytes: nat)

  function PadItems(i: nat, bytes: nat): seq<Item> {
    if bytes > 0 then [Pad(i, bytes)] else []
  }

  function TailItems(bytes: nat): seq<Item> {
    if bytes > 0 then [TailPad(bytes)] else []
  }

  function AtLeastOne(n: nat): (r: nat)
    ensures r >= 1 && (n >= 1 ==> r == n)
  {
    if n == 0 then 1 else n
  }

  function FieldOf(m: Member): Item {
    Field(m.name, m.ctype, m.dims)
  }

  /** The lines for the members from index i on, with the trailing pad. */
  function RenderFrom(d: Definition, i: nat): seq<Item>
    requires i <= |d.members|
    decreases |d.members| - i
  {
    if i == |d.members| then TailItems(d.trailingPad)
    else PadItems(i, d.PadAt(i)) + [FieldOf(d.members[i])] + RenderFrom(d, i + 1)
  }

  function Render(d: Definition): seq<Item> {
    if d.opaqueBytes then [OpaqueBytes(AtLeastOne(d.size))]
    else if d.members == [] && d.trailingPad == 0 then [EmptyBytes(AtLeastOne(d.size))]
    else RenderFrom(d, 0)
  }

  /** The indices that the names of pads in these lines end in. */
  function PadIndices(items: seq<Item>): seq<nat> {
    if items == [] then [] else (if items[0].Pad? then [items[0].before] else []) + PadIndices(items[1..])
  }

  lemma PadIndicesJoin(a: seq<Item>, b: seq<Item>)
    requires |a| <= 2
    ensures PadIndices(a + b) == PadIndices(a) + PadIndices(b)
  {
    if a == [] {
      assert a + b == b;
    } else {
      assert (a + b)[1..] == a[1..] + b;
      PadIndicesJoin(a[1..], b);
    }
  }

  /** The indices are i or more, and each is more than the one before it. */
  ghost predicate Growing(ks: seq<nat>, i: nat) {
    && (forall j :: 0 <= j < |ks| ==> ks[j] >= i)
    && (forall j, k :: 0 <= j < k < |ks| ==> ks[j] < ks[k])
  }

  lemma OneMoreGrowing(head: seq<nat>, ks: seq<nat>, i: nat)
    requires (head == [] || head == [i]) && Growing(ks, i + 1)
    ensures Growing(head + ks, i)
  {
  }

  /** Pads have different names: their indices grow. */
  lemma {:induction false} PadsDiffer(d: Definition, i: nat)
    requires i <= |d.members|
    ensures Growing(PadIndices(RenderFrom(d, i)), i)
    decreases |d.members| - i
  {
    hide Growing;
    if i == |d.members| {
      NoPadIndices(TailItems(d.trailingPad), i);
    } else {
      var rest := RenderFrom(d, i + 1);
      PadsDiffer(d, i + 1);
      HeadIndices(d, i, rest);
      assert RenderFrom(d, i) == PadItems(i, d.PadAt(i)) + [FieldOf(d.members[i])] + rest;
      OneMoreGrowing(PadIndices(PadItems(i, d.PadAt(i))), PadIndices(rest), i);
    }
  }

  lemma NoPadIndices(items: seq<Item>, i: nat)
    requires |items| <= 1 && forall it :: it in items ==> !it.Pad?
    ensures Growing(PadIndices(items), i)
  {
    assert items != [] ==> items[1..] == [] && items[0] in items;
  }

  lemma HeadIndices(d: Definition, i: nat, rest: seq<Item>)
    requires i < |d.members|
    ensures var pads := PadItems(i, d.PadAt(i));
      && PadIndices(pads + [FieldOf(d.members[i])] + rest) == PadIndices(pads) + PadIndices(rest)
      && (PadIndices(pads) == [] || PadIndices(pads) == [i])
  {
    var pads, line := PadItems(i, d.PadAt(i)), [FieldOf(d.members[i])];
    PadIndicesJoin(pads + line, rest);
    PadIndicesJoin(pads, line);
    assert line[1..] == [] && (pads != [] ==> pads[1..] == []);
  }

  // ---- Layout: System V AMD64 psABI, section 3.1.2, "Aggregates and Unions" ----

  /** What cffi reports for a complete structure or union. */
  datatype Layout = Layout(size: nat, align: Alignment, offsets: seq<nat>)

  /** The layouts of the definitions read so far, by tag. */
  type Layouts = map<string, Layout>

  /** The least multiple of a that is not below e. */
  function AlignUp(e: nat, a: Alignment): (r: nat)
    ensures e <= r < e + a && r % a == 0
    ensures e % a == 0 ==> r == e
  {
    if e % a == 0 then e else e + (a - e % a)
  }

  function Product(dims: seq<Positive>): (n: nat)
    ensures n > 0
  {
    if dims == [] then 1 else dims[0] * Product(dims[1..])
  }

  // C rejects a tag that is not complete yet.  In a header whose definitions are in dependency order
  // every tag is, and the default layout below is not reached.
  function TypeSize(c: CType, known: Layouts): nat {
    match c
    case Plain(s) => s.Size()
    case Tagged(_, tag) => if tag in known then known[tag].size else 0
  }

  function TypeAlign(c: CType, known: Layouts): Alignment {
    match c
    case Plain(s) => s.Size()
    case Tagged(_, tag) => if tag in known then known[tag].align else 1
  }

  function DeclaredSize(c: CType, dims: seq<Positive>, known: Layouts): nat {
    Product(dims) * TypeSize(c, known)
  }

  function ItemSize(it: Item, known: Layouts): nat {
    match it
    case Field(_, c, dims) => DeclaredSize(c, dims, known)
    case Pad(_, n) => n
    case TailPad(n) => n
    case OpaqueBytes(n) => n
    case EmptyBytes(n) => n
  }

  function ItemAlign(it: Item, known: Layouts): Alignment {
    if it.Field? then TypeAlign(it.ctype, known) else 1
  }

  function MaxAlignment(a: Alignment, b: Alignment): Alignment {
    if a < b then b else a
  }

  function BodyAlign(items: seq<Item>, known: Layouts): Alignment {
    if items == [] then 1 else MaxAlignment(ItemAlign(items[0], known), BodyAlign(items[1..], known))
  }

  /** Where the last item ends when the items are placed one after another from e on. */
  function StructEnd(items: seq<Item>, e: nat, known: Layouts): nat {
    if items == [] then e
    else StructEnd(items[1..], AlignUp(e, ItemAlign(items[0], known)) + ItemSize(items[0], known), known)
  }

  /** The offsets of the fields, in order, when the items are placed from e on. */
  function StructOffsets(items: seq<Item>, e: nat, known: Layouts): seq<nat> {
    if items == [] then []
    else
      var at := AlignUp(e, ItemAlign(items[0], known));
      (if items[0].Field? then [at] else []) + StructOffsets(items[1..], at + ItemSize(items[0], known), known)
  }

  function UnionEnd(items: seq<Item>, known: Layouts): nat {
    if items == [] then 0
    else
      var rest := UnionEnd(items[1..], known);
      if ItemSize(items[0], known) > rest then ItemSize(items[0], known) else rest
  }

  function UnionOffsets(items: seq<Item>): seq<nat> {
    if items == [] then [] else (if items[0].Field? then [0] else []) + UnionOffsets(items[1..])
  }

  function BodyLayout(kind: Kind, items: seq<Item>, known: Layouts): Layout {
    var a := BodyAlign(items, known);
    match kind
    case Struct => Layout(AlignUp(StructEnd(items, 0, known), a), a, StructOffsets(items, 0, known))
    case Union => Layout(AlignUp(UnionEnd(items, known), a), a, UnionOffsets(items))
  }

  function LayoutOf(d: Definition, known: Layouts): Layout {
    BodyLayout(d.kind, Render(d), known)
  }

  /** A compiler reads the definitions in order; each is laid out with those before it. */
  function LayoutAll(defs: seq<Definition>, known: Layouts): Layouts {
    if defs == [] then known
    else LayoutAll(defs[1..], known[defs[0].tag := LayoutOf(defs[0], known)])
  }

  /** A definition as text: what cffi gets to read. */
  datatype Rendered = Rendered(kind: Kind, tag: string, body: seq<Item>)

  function RenderedOf(d: Definition): Rendered {
    Rendered(d.kind, d.tag, Render(d))
  }

  function RenderedAll(defs: seq<Definition>): (header: seq<Rendered>)
    ensures |header| == |defs|
  {
    seq(|defs|, i requires 0 <= i < |defs| => RenderedOf(defs[i]))
  }

  /** The layouts of a header that is read from its text. */
  function ReadHeader(header: seq<Rendered>, known: Layouts): Layouts {
    if header == [] then known
    else ReadHeader(header[1..], known[header[0].tag := BodyLayout(header[0].kind, header[0].body, known)])
  }

  lemma {:induction false} ReadRendered(defs: seq<Definition>, known: Layouts)
    ensures ReadHeader(RenderedAll(defs), known) == LayoutAll(defs, known)
  {
    hide BodyLayout, Render;
    if defs == [] {
    } else {
      assert RenderedAll(defs)[1..] == RenderedAll(defs[1..]);
      ReadRendered(defs[1..], known[defs[0].tag := LayoutOf(defs[0], known)]);
    }
  }
}
