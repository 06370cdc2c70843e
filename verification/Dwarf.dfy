/** The part of a DWARF type graph that both header generators read.

    A type is a chain: arrays, qualifiers and typedefs each refer to one other type, and a chain ends
    in a base type, an enumeration, a pointer or an aggregate.  Aggregates are found by their DIE offset,
    so a graph is a map from offsets to structure and union DIEs. */
module Dwarf {

  datatype Option<+T> = None | Some(value: T) {
    predicate IsFailure() {
      None?
    }

    function PropagateFailure<U>(): Option<U>
      requires None?
    {
      None
    }

    function Extract(): T
      requires Some?
    {
      value
    }
  }

  type Offset = nat

  // Array bounds, all positive once a declarator has been accepted
  type Positive = n: int | 0 < n witness 1

  datatype Kind = Struct | Union

  /** An attribute that the generators test for being an integer. */
  datatype Attribute = Absent | Integer(n: int) | NotInteger

  datatype Subrange = Subrange(count: Attribute, upperBound: Attribute)

  /** DW_AT_data_member_location: missing, a constant, or a location expression. */
  datatype Location = NoLocation | Constant(n: int) | Expression(bytes: seq<Byte>)

  type Byte = b: int | 0 <= b < 256

  datatype Type =
    | NoType                                              // no DW_AT_type: void
    | Pointer
    | Base(encoding: int, byteSize: int)
    | Enumeration(byteSize: int)                          // 0 when the attribute is missing
    | Array(element: Type, ranges: seq<Subrange>)
    | Qualified(of: Type)                                 // const, volatile, restrict, atomic
    | Typedef(of: Type)
    | Aggregate(die: Offset)
    | Exotic                                              // every other tag

  datatype MemberDie = MemberDie(name: Option<string>, ty: Type, bitSize: Option<int>, location: Location)

  /** byteSize is 0 when DW_AT_byte_size is missing. */
  datatype AggregateDie = AggregateDie(
    kind: Kind, name: Option<string>, isDeclaration: bool, byteSize: nat, members: seq<MemberDie>)

  type Graph = map<Offset, AggregateDie>

  /** The aggregate at the end of a type chain.  A pointer ends its chain. */
  function Leaf(t: Type): Option<Offset> {
    match t
    case Array(element, _) => Leaf(element)
    case Qualified(of) => Leaf(of)
    case Typedef(of) => Leaf(of)
    case Aggregate(die) => Some(die)
    case _ => None
  }

  /** Every reference to an aggregate leads to a DIE of the graph. */
  ghost predicate Closed(g: Graph) {
    forall o, i :: o in g && 0 <= i < |g[o].members| && Leaf(g[o].members[i].ty).Some? ==>
      Leaf(g[o].members[i].ty).value in g
  }

  ghost predicate IsRank(g: Graph, rank: map<Offset, nat>) {
    && rank.Keys == g.Keys
    && forall o, i :: o in g && 0 <= i < |g[o].members| && Leaf(g[o].members[i].ty).Some? ==>
         var inner := Leaf(g[o].members[i].ty).value;
         inner in rank && rank[inner] < rank[o]
  }

  /** No aggregate contains itself by value, which C forbids. */
  ghost predicate Acyclic(g: Graph) {
    exists rank :: IsRank(g, rank)
  }

  ghost function Rank(g: Graph): (rank: map<Offset, nat>)
    requires Acyclic(g)
    ensures IsRank(g, rank)
  {
    var rank :| IsRank(g, rank);
    rank
  }

  /** How deep an aggregate chain may still nest, a measure for recursion through by-value containment. */
  ghost function Height(g: Graph, t: Type): nat
    requires Acyclic(g)
  {
    if Leaf(t).Some? && Leaf(t).value in g then Rank(g)[Leaf(t).value] + 1 else 0
  }

  function Length(t: Type): nat {
    match t
    case Array(element, _) => 1 + Length(element)
    case Qualified(of) => 1 + Length(of)
    case Typedef(of) => 1 + Length(of)
    case _ => 0
  }

  /** What a type is once qualifiers are removed. */
  function Unqualified(t: Type): Type {
    if t.Qualified? then Unqualified(t.of) else t
  }

  /** What a type is once qualifiers and typedefs are removed. */
  function Resolved(t: Type): (r: Type)
    ensures !r.Qualified? && !r.Typedef?
    ensures Leaf(r) == Leaf(t) && Length(r) <= Length(t)
  {
    match t
    case Qualified(of) => Resolved(of)
    case Typedef(of) => Resolved(of)
    case _ => t
  }

  method StripQualifiers(t: Type) returns (r: Type)
    ensures r == Unqualified(t) && !r.Qualified?
    ensures Resolved(r) == Resolved(t) && Length(r) <= Length(t)
  {
    r := t;
    while r.Qualified?
      invariant Unqualified(r) == Unqualified(t) && Resolved(r) == Resolved(t)
      invariant Length(r) <= Length(t)
      decreases r
    {
      r := r.of;
    }
  }

  method ResolveTypedefs(t: Type) returns (r: Type)
    ensures r == Resolved(t)
  {
    r := StripQualifiers(t);
    while r.Typedef?
      invariant Resolved(r) == Resolved(t) && !r.Qualified?
      decreases Length(r)
    {
      r := StripQualifiers(r.of);
    }
  }

  function RangeLength(r: Subrange): int {
    match r.count
    case Integer(n) => n
    case NotInteger => 0
    case Absent => if r.upperBound.Integer? then r.upperBound.n + 1 else 0
  }

  /** The bounds of an array DIE; an array without any subrange has the single bound 0. */
  function ArrayDims(ranges: seq<Subrange>): (dims: seq<int>)
    ensures dims != []
  {
    if ranges == [] then [0] else seq(|ranges|, i requires 0 <= i < |ranges| => RangeLength(ranges[i]))
  }

  method ReadArrayDims(ranges: seq<Subrange>) returns (dims: seq<int>)
    ensures dims == ArrayDims(ranges)
  {
    dims := [];
    for i := 0 to |ranges|
      invariant |dims| == i
      invariant forall j :: 0 <= j < i ==> dims[j] == RangeLength(ranges[j])
    {
      var count := ranges[i].count;
      if count.Absent? {
        var upper := ranges[i].upperBound;
        count := Integer(if upper.Integer? then upper.n + 1 else 0);
      }
      dims := dims + [if count.Integer? then count.n else 0];
    }
    if dims == [] {
      dims := [0];
    }
  }

  predicate IsIdentifierStart(c: char) {
    'a' <= c <= 'z' || 'A' <= c <= 'Z' || c == '_'
  }

  predicate IsIdentifier(s: string) {
    && s != []
    && IsIdentifierStart(s[0])
    && forall i :: 0 <= i < |s| ==> IsIdentifierStart(s[i]) || '0' <= s[i] <= '9'
  }

  /** The C scalar types that the generators print. */
  datatype Scalar = UInt8 | Int8 | UInt16 | Int16 | UInt32 | Int32 | UInt64 | Int64 | Float | Double | VoidPointer {
    function Size(): Alignment {
      match this
      case UInt8 | Int8 => 1
      case UInt16 | Int16 => 2
      case UInt32 | Int32 | Float => 4
      case UInt64 | Int64 | Double | VoidPointer => 8
    }
  }

  type Alignment = a: int | a == 1 || a == 2 || a == 4 || a == 8 witness 1

  function UnsignedScalar(size: int): (r: Option<Scalar>)
    ensures r.Some? ==> r.value.Size() == size
  {
    match size
    case 1 => Some(UInt8)
    case 2 => Some(UInt16)
    case 4 => Some(UInt32)
    case 8 => Some(UInt64)
    case _ => None
  }

  /** The table of base types, keyed by DWARF encoding and size: every entry has the width it is keyed by. */
  function BaseScalar(encoding: int, size: int): (r: Option<Scalar>)
    ensures r.Some? ==> r.value.Size() == size
  {
    match (encoding, size)
    case (0x02, 1) => Some(UInt8)
    case (0x04, 4) => Some(Float)
    case (0x04, 8) => Some(Double)
    case (0x05, 1) => Some(Int8)
    case (0x05, 2) => Some(Int16)
    case (0x05, 4) => Some(Int32)
    case (0x05, 8) => Some(Int64)
    case (0x06, 1) => Some(Int8)
    case (0x07, _) => UnsignedScalar(size)
    case (0x08, 1) => Some(UInt8)
    case (0x10, 1) => Some(UInt8)
    case (0x10, 2) => Some(UInt16)
    case (0x10, 4) => Some(UInt32)
    case _ => None
  }

  function EnumerationSize(byteSize: int): int {
    if byteSize == 0 then 4 else byteSize
  }
}
