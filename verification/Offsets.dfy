/** Decoding of DW_AT_data_member_location. */
module Offsets {
  import opened Dwarf

  // ---- Python's operators on non-negative integers ----

  function PowerOfTwo(n: nat): (p: nat)
    ensures p > 0
  {
    if n == 0 then 1 else 2 * PowerOfTwo(n - 1)
  }

  function ShiftLeft(x: nat, n: nat): nat {
    x * PowerOfTwo(n)
  }

  function BitAnd(x: nat, y: nat): nat {
    if x == 0 || y == 0 then 0
    else (if x % 2 == 1 && y % 2 == 1 then 1 else 0) + 2 * BitAnd(x / 2, y / 2)
  }

  function BitOr(x: nat, y: nat): nat
    decreases x + y
  {
    if x == 0 then y
    else if y == 0 then x
    else (if x % 2 == 1 || y % 2 == 1 then 1 else 0) + 2 * BitOr(x / 2, y / 2)
  }

  /** Or-ing in a number shifted past the bits of x adds it. */
  lemma {:induction false} OrAdds(x: nat, y: nat, n: nat)
    requires x < PowerOfTwo(n)
    ensures BitOr(x, ShiftLeft(y, n)) == x + ShiftLeft(y, n)
  {
    if n == 0 {
    } else {
      var half := ShiftLeft(y, n - 1);
      assert ShiftLeft(y, n) == 2 * half;
      OrAdds(x / 2, y, n - 1);
    }
  }

  /** A mask of n ones keeps the lowest n bits. */
  lemma {:induction false} MaskKeeps(low: nat, high: nat, n: nat)
    requires low < PowerOfTwo(n)
    ensures BitAnd(low + ShiftLeft(high, n), PowerOfTwo(n) - 1) == low
  {
    var x := low + ShiftLeft(high, n);
    if n == 0 || x == 0 {
    } else {
      var p, half := PowerOfTwo(n - 1), ShiftLeft(high, n - 1);
      assert ShiftLeft(high, n) == 2 * half;
      MaskKeeps(low / 2, high, n - 1);
      assert x / 2 == low / 2 + half && x % 2 == low % 2;
      assert (2 * p - 1) / 2 == p - 1 && (2 * p - 1) % 2 == 1;
    }
  }

  lemma SevenBits(b: Byte)
    ensures BitAnd(b, 0x7F) == b % 128
    ensures BitAnd(b, 0x80) != 0 <==> b >= 128
  {
    assert PowerOfTwo(3) == 8;
    assert PowerOfTwo(5) == 32;
    assert PowerOfTwo(7) == 128;
    MaskKeeps(b % 128, b / 128, 7);
    TopBit(b, 7);
  }

  lemma {:induction false} TopBit(x: nat, n: nat)
    requires x < 2 * PowerOfTwo(n)
    ensures BitAnd(x, PowerOfTwo(n)) != 0 <==> x >= PowerOfTwo(n)
  {
    if n == 0 || x == 0 {
    } else {
      TopBit(x / 2, n - 1);
    }
  }

  // ---- ULEB128: section 7.6 of DWARF version 5 ----

  /** The unsigned LEB128 encoding of n: base 128, least significant digit first. */
  function Uleb128(n: nat): seq<Byte> {
    if n < 128 then [n] else [n % 128 + 128] + Uleb128(n / 128)
  }

  /** The base-128 number that the bytes spell, up to the first byte without the continuation bit. */
  function Positional(bytes: seq<Byte>): nat {
    if bytes == [] then 0
    else if bytes[0] < 128 then bytes[0]
    else (bytes[0] - 128) + 128 * Positional(bytes[1..])
  }

  const PLUS_UCONST: Byte := 0x23

  /** The offset of a member, or nothing where the generator raises an error. */
  function DecodedOffset(location: Location): Option<int> {
    match location
    case NoLocation => Some(0)
    case Constant(n) => Some(n)
    case Expression(bytes) =>
      if bytes != [] && bytes[0] == PLUS_UCONST then Some(Positional(bytes[1..])) else None
  }

  method DecodeUleb(bytes: seq<Byte>) returns (result: nat)
    ensures result == Positional(bytes)
  {
    result := 0;
    var shift := 0;
    for i := 0 to |bytes|
      invariant result < PowerOfTwo(shift)
      invariant Positional(bytes) == result + PowerOfTwo(shift) * Positional(bytes[i..])
    {
      var digit := BitAnd(bytes[i], 0x7F);
      SevenBits(bytes[i]);
      OrAdds(result, digit, shift);
      Digit(result, shift, bytes, i, Positional(bytes));
      result := BitOr(result, ShiftLeft(digit, shift));
      if BitAnd(bytes[i], 0x80) == 0 {
        break;
      }
      shift := shift + 7;
    }
  }

  lemma Digit(result: nat, shift: nat, bytes: seq<Byte>, i: nat, total: nat)
    requires i < |bytes| && result < PowerOfTwo(shift)
    requires total == result + PowerOfTwo(shift) * Positional(bytes[i..])
    ensures var next := result + ShiftLeft(bytes[i] % 128, shift);
      if bytes[i] < 128 then total == next
      else next < PowerOfTwo(shift + 7) && total == next + PowerOfTwo(shift + 7) * Positional(bytes[i + 1..])
  {
    var p, b, rest := PowerOfTwo(shift), bytes[i], Positional(bytes[i + 1..]);
    assert bytes[i..][0] == b && bytes[i..][1..] == bytes[i + 1..];
    SevenMore(shift);
    if b >= 128 {
      var d := b - 128;
      assert b % 128 == d;
      assert p * (d + 128 * rest) == p * d + p * 128 * rest;
      assert p * d <= p * 127 by { Monotone(p, d, 127); }
    }
  }

  lemma Monotone(p: nat, x: nat, y: nat)
    requires x <= y
    ensures p * x <= p * y
  {
  }

  lemma SevenMore(n: nat)
    ensures PowerOfTwo(n + 7) == 128 * PowerOfTwo(n)
  {
    assert PowerOfTwo(n + 2) == 4 * PowerOfTwo(n);
    assert PowerOfTwo(n + 4) == 4 * PowerOfTwo(n + 2);
    assert PowerOfTwo(n + 6) == 4 * PowerOfTwo(n + 4);
  }

  method DecodeOffset(location: Location) returns (offset: Option<int>)
    ensures offset == DecodedOffset(location)
  {
    if location.NoLocation? {
      return Some(0);
    }
    if location.Constant? {
      return Some(location.n);
    }
    var data := location.bytes;
    if data != [] && data[0] == 0x23 {
      var result := DecodeUleb(data[1..]);
      return Some(result);
    }
    return None;
  }

  /** Decoding inverts encoding, whatever follows the encoded number. */
  lemma {:induction false} UlebRoundTrip(n: nat, trailing: seq<Byte>)
    ensures Positional(Uleb128(n) + trailing) == n
  {
    var bytes := Uleb128(n) + trailing;
    if n < 128 {
    } else {
      UlebRoundTrip(n / 128, trailing);
      assert bytes[1..] == Uleb128(n / 128) + trailing;
    }
  }

  lemma OffsetRoundTrip(n: nat, trailing: seq<Byte>)
    ensures DecodedOffset(Expression([PLUS_UCONST] + Uleb128(n) + trailing)) == Some(n)
  {
    UlebRoundTrip(n, trailing);
    assert ([PLUS_UCONST] + Uleb128(n) + trailing)[1..] == Uleb128(n) + trailing;
  }
}
