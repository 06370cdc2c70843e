/** What DWARF says, on its attributes themselves: array bounds, scalars, and where members lie.  None of it is in
    terms of what the generators compute. */
module Meaning {
  import opened Dwarf
  import opened Offsets

  // ---- Arrays ----

  /** The array has an element i: below its count or, without a count, up to its upper bound. */
  predicate Within(r: Subrange, i: nat) {
    match r.count
    case Integer(n) => i < n
    case NotInteger => false
    case Absent => r.upperBound.Integer? && i <= r.upperBound.n
  }

  ghost predicate Counts(r: Subrange, n: int) {
    forall i: nat :: Within(r, i) <==> i < n
  }

  lemma RangeCounts(r: Subrange)
    ensures Counts(r, RangeLength(r))
  {
  }

  /** How many elements there are. */
  ghost function Elements(r: Subrange): (n: nat)
    ensures Counts(r, n)
  {
    RangeCounts(r);
    assert RangeLength(r) < 0 ==> Counts(r, 0);
    var n: nat :| Counts(r, n);
    n
  }

  lemma CountUnique(r: Subrange, m: nat, n: nat)
    requires Counts(r, m) && Counts(r, n)
    ensures m == n
  {
    assert Within(r, m) <==> m < n;
    assert Within(r, n) <==> n < m;
  }

  /** The bounds of an array, as a C declarator has them. */
  ghost predicate Bounds(ranges: seq<Subrange>, dims: seq<Positive>) {
    |dims| == |ranges| && forall k :: 0 <= k < |dims| ==> Counts(ranges[k], dims[k])
  }

  /** There is a bound, and there are elements. */
  predicate HasElements(ranges: seq<Subrange>) {
    ranges != [] && forall k :: 0 <= k < |ranges| ==> Within(ranges[k], 0)
  }

  predicate AllPositive(dims: seq<int>) {
    forall i :: 0 <= i < |dims| ==> dims[i] > 0
  }

  lemma PositiveExactly(ranges: seq<Subrange>)
    ensures AllPositive(ArrayDims(ranges)) <==> HasElements(ranges)
  {
    hide Within, RangeLength;
    forall k | 0 <= k < |ranges|
      ensures RangeLength(ranges[k]) > 0 <==> Within(ranges[k], 0)
    {
      RangeCounts(ranges[k]);
    }
    if ranges == [] {
      assert ArrayDims(ranges)[0] == 0;
    } else {
      assert forall k :: 0 <= k < |ranges| ==> ArrayDims(ranges)[k] == RangeLength(ranges[k]);
    }
  }

  lemma BoundsExactly(ranges: seq<Subrange>, dims: seq<Positive>)
    requires HasElements(ranges)
    ensures Bounds(ranges, dims) <==> dims == ArrayDims(ranges)
  {
    hide Within, RangeLength;
    forall k | 0 <= k < |ranges|
      ensures Counts(ranges[k], RangeLength(ranges[k]))
    {
      RangeCounts(ranges[k]);
    }
    PositiveExactly(ranges);
    if Bounds(ranges, dims) {
      forall k | 0 <= k < |ranges|
        ensures dims[k] == ArrayDims(ranges)[k]
      {
        CountUnique(ranges[k], dims[k], RangeLength(ranges[k]));
      }
    }
  }

  /** The bounds at the head of a declarator are those of the ranges exactly when they are those that are read. */
  lemma SplitBounds(ranges: seq<Subrange>, dims: seq<Positive>)
    ensures 0 < |ranges| <= |dims| && Bounds(ranges, dims[..|ranges|]) <==>
      && HasElements(ranges) && |ranges| <= |dims| && dims[..|ranges|] == ArrayDims(ranges)
  {
    hide Within;
    if 0 < |ranges| <= |dims| {
      var outer := dims[..|ranges|];
      if Bounds(ranges, outer) {
        forall k | 0 <= k < |ranges|
          ensures Within(ranges[k], 0)
        {
          assert Counts(ranges[k], outer[k]);
        }
      }
      if HasElements(ranges) {
        BoundsExactly(ranges, outer);
      }
    }
  }

  /** As many bytes as the elements of these ranges have, w bytes each. */
  ghost function TimesElements(ranges: seq<Subrange>, w: int): int {
    if ranges == [] then w else Elements(ranges[0]) * TimesElements(ranges[1..], w)
  }

  // ---- Scalars ----

  predicate IsSigned(s: Scalar) {
    s == Int8 || s == Int16 || s == Int32 || s == Int64
  }

  predicate IsUnsigned(s: Scalar) {
    s == UInt8 || s == UInt16 || s == UInt32 || s == UInt64
  }

  predicate IsFloating(s: Scalar) {
    s == Float || s == Double
  }

  /** The scalar has the values of a type in this encoding, and its width. */
  predicate Encodes(encoding: int, size: int, s: Scalar) {
    && s.Size() == size
    && if encoding == 0x04 then IsFloating(s)                                       // DW_ATE_float
       else if encoding == 0x05 then IsSigned(s)                                    // DW_ATE_signed
       else if encoding == 0x06 then IsSigned(s) && size == 1                       // DW_ATE_signed_char
       else if encoding == 0x07 then IsUnsigned(s)                                  // DW_ATE_unsigned
       else if encoding == 0x02 || encoding == 0x08 then IsUnsigned(s) && size == 1 // DW_ATE_boolean, unsigned_char
       else encoding == 0x10 && IsUnsigned(s) && size <= 4                          // DW_ATE_UTF
  }

  predicate Expresses(t: Type, s: Scalar) {
    match t
    case Pointer => s == VoidPointer
    case Base(encoding, size) => Encodes(encoding, size, s)
    case Enumeration(size) => IsUnsigned(s) && s.Size() == if size == 0 then 4 else size
    case _ => false
  }

  lemma ScalarExactly(t: Type, s: Scalar)
    ensures t.Base? ==> (BaseScalar(t.encoding, t.byteSize) == Some(s) <==> Expresses(t, s))
    ensures t.Enumeration? ==> (UnsignedScalar(EnumerationSize(t.byteSize)) == Some(s) <==> Expresses(t, s))
  {
  }

  // ---- Locations ----

  /** A location that is missing, a constant, or DW_OP_plus_uconst. */
  predicate Understood(location: Location) {
    match location
    case NoLocation => true
    case Constant(_) => true
    case Expression(bytes) => bytes != [] && bytes[0] == 0x23
  }

  /** How far into its aggregate a member lies. */
  function Position(location: Location): int
    requires Understood(location)
  {
    match location
    case NoLocation => 0
    case Constant(n) => n
    case Expression(bytes) => Positional(bytes[1..])
  }

  lemma DecodedExactly(location: Location)
    ensures DecodedOffset(location) == if Understood(location) then Some(Position(location)) else None
  {
  }

  lemma PlusConstant(n: nat, trailing: seq<Byte>)
    ensures Understood(Expression([0x23] + Uleb128(n) + trailing))
    ensures Position(Expression([0x23] + Uleb128(n) + trailing)) == n
  {
    OffsetRoundTrip(n, trailing);
    DecodedExactly(Expression([0x23] + Uleb128(n) + trailing));
  }

  // ---- Names ----

  const UPPER := "ABCDEFGHIJKLMNOPQRSTUVWXYZ"

  const LOWER := "abcdefghijklmnopqrstuvwxyz"

  const FIGURES := "0123456789"

  lemma UpperExactly(c: char)
    ensures 'A' <= c <= 'Z' <==> c in UPPER
  {
    assert forall i :: 0 <= i < 26 ==> UPPER[i] as int == 'A' as int + i;
    if 'A' <= c <= 'Z' {
      assert UPPER[c as int - 'A' as int] == c;
    }
  }

  lemma LowerExactly(c: char)
    ensures 'a' <= c <= 'z' <==> c in LOWER
  {
    assert forall i :: 0 <= i < 26 ==> LOWER[i] as int == 'a' as int + i;
    if 'a' <= c <= 'z' {
      assert LOWER[c as int - 'a' as int] == c;
    }
  }

  lemma FigureExactly(c: char)
    ensures '0' <= c <= '9' <==> c in FIGURES
  {
    assert forall i :: 0 <= i < 10 ==> FIGURES[i] as int == '0' as int + i;
    if '0' <= c <= '9' {
      assert FIGURES[c as int - '0' as int] == c;
    }
  }

  predicate IsLetter(c: char) {
    c in UPPER || c in LOWER || c == '_'
  }

  /** What the pattern for C identifiers accepts. */
  lemma IdentifierExactly(s: string)
    ensures IsIdentifier(s) <==> s != "" && IsLetter(s[0]) && forall c :: c in s ==> IsLetter(c) || c in FIGURES
  {
    forall c
      ensures IsLetter(c) <==> IsIdentifierStart(c)
      ensures c in FIGURES <==> '0' <= c <= '9'
    {
      UpperExactly(c);
      LowerExactly(c);
      FigureExactly(c);
    }
    hide IsLetter, IsIdentifierStart;
  }
}
