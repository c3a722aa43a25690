/** ipow.c: an int32 raised to a uint8 power by unrolled squaring, with the result
    accumulated modulo 2^64. */
module Ipow {
  import opened MachineInts

  const INT32_MAX := 0x7fff_ffff

  type int32 = x: int | -0x8000_0000 <= x <= 0x7fff_ffff
  type uint8 = x: int | 0 <= x <= 255

  function Pow(b: int, n: nat): int {
    if n == 0 then 1 else b * Pow(b, n - 1)
  }

  function Two(n: nat): (r: nat)
    ensures r >= 1
  {
    if n == 0 then 1 else 2 * Two(n - 1)
  }

  /** The table highest_bit_set. */
  function HighestBitSet(exp: uint8): nat {
    if exp == 0 then 0
    else if exp < 2 then 1
    else if exp < 4 then 2
    else if exp < 8 then 3
    else if exp < 16 then 4
    else if exp < 32 then 5
    else if exp < 63 then 6
    else 255
  }

  /** How often the switch squares the base: one less than the bit length of exp. */
  function Squarings(exp: uint8): nat {
    if 2 <= exp < 63 then HighestBitSet(exp) - 1 else 0
  }

  /** The last square still fits int32. */
  predicate LastSquareFits(base: int, squarings: nat) {
    squarings == 0 || Pow(base, Two(squarings)) <= 0x7fff_ffff
  }

  /** What the source says of its result: the power itself, or 0 if that is too big. */
  predicate AsDocumented(r: Outcome, base: int32, exp: uint8) {
    r.Value? && (r.v == Pow(base, exp) || (r.v == 0 && !FitsInt64(Pow(base, exp))))
  }

  // ----- powers

  lemma {:induction false} PowAdd(b: int, m: nat, n: nat)
    ensures Pow(b, m + n) == Pow(b, m) * Pow(b, n)
  {
    if m > 0 {
      PowAdd(b, m - 1, n);
      assert b * (Pow(b, m - 1) * Pow(b, n)) == (b * Pow(b, m - 1)) * Pow(b, n);
    }
  }

  lemma {:induction false} PowSquare(b: int, n: nat)
    ensures Pow(b * b, n) == Pow(b, 2 * n)
  {
    if n > 0 {
      PowSquare(b, n - 1);
      assert Pow(b, 2 * n) == b * (b * Pow(b, 2 * n - 2));
      assert (b * b) * Pow(b, 2 * n - 2) == b * (b * Pow(b, 2 * n - 2));
    }
  }

  lemma {:induction false} PowMono(a: int, m: nat, n: nat)
    requires a >= 1 && m <= n
    ensures 1 <= Pow(a, m) <= Pow(a, n)
    decreases n
  {
    if m < n {
      PowMono(a, m, n - 1);
      MulGrows(a, Pow(a, n - 1));
    } else if m > 0 {
      PowMono(a, m - 1, m - 1);
      MulGrows(a, Pow(a, m - 1));
    }
  }

  lemma MulGrows(a: int, x: int)
    requires a >= 1 && x >= 1
    ensures a * x >= x && a * x >= a
  {}

  lemma {:induction false} PowBase(a: int, b: int, n: nat)
    requires 1 <= a <= b
    ensures Pow(a, n) <= Pow(b, n)
  {
    if n > 0 {
      PowBase(a, b, n - 1);
      PowMono(a, n - 1, n - 1);
      MulMono(a, b, Pow(a, n - 1), Pow(b, n - 1));
    }
  }

  lemma MulMono(a: int, b: int, x: int, y: int)
    requires 0 <= a <= b && 0 <= x <= y
    ensures a * x <= b * y
  {
    assert a * x <= b * x;
    assert b * x <= b * y;
  }

  lemma {:induction false} PowUnit(n: nat)
    ensures Pow(1, n) == 1 && Pow(-1, n) == 1 - 2 * (n % 2) && Pow(0, n) == if n == 0 then 1 else 0
  {
    if n > 0 { PowUnit(n - 1); }
  }

  function Abs(x: int): nat { if x < 0 then -x else x }

  lemma {:induction false} PowAbs(b: int, n: nat)
    ensures Pow(b, n) == if b < 0 && n % 2 == 1 then -Pow(Abs(b), n) else Pow(Abs(b), n)
  {
    if n > 0 { PowAbs(b, n - 1); }
  }

  // ----- the accumulator modulo 2^64

  lemma ModShift(x: int, k: int)
    ensures (x + UINT64 * k) % UINT64 == x % UINT64
  {}

  lemma ModMul(x: int, y: int, b: int)
    requires ToUint64(x) == ToUint64(y)
    ensures ToUint64(x * ToUint64(b)) == ToUint64(y * b)
  {
    var k := y / UINT64 - x / UINT64;
    var j := b / UINT64;
    assert y == x + UINT64 * k && b == ToUint64(b) + UINT64 * j;
    var c := ToUint64(b);
    calc {
      y * b;
      y * c + y * (UINT64 * j);
      x * c + (UINT64 * k) * c + y * (UINT64 * j);
      x * c + UINT64 * (k * c + y * j);
    }
    ModShift(x * c, k * c + y * j);
  }

  lemma FitsExact(x: int, r: int)
    requires FitsInt64(x) && ToUint64(r) == ToUint64(x)
    ensures ToInt64(r) == x
  {}

  // ----- the squaring rounds

  /** One squaring less to do, from the squared base. */
  lemma FitsStep(base: int, n: nat)
    requires n >= 1
    ensures LastSquareFits(base, n) <==> base * base <= INT32_MAX && LastSquareFits(base * base, n - 1)
  {
    PowSquare(base, Two(n - 1));
    if n == 1 {
      assert Pow(base, 2) == base * Pow(base, 1);
    } else if base != 0 {
      var c := base * base;
      assert c >= 1;
      PowMono(c, 1, Two(n - 1));
      assert Pow(c, 1) == c * Pow(c, 0);
    } else {
      PowUnit(Two(n));
    }
  }

  /** Where the switch stands before `n` more squarings: acc, known modulo 2^64, times
      what remains of the power is the power asked for. */
  ghost predicate Tracks(base0: int, exp0: uint8, result: int, exp: nat, base: int, n: nat, acc: int) {
    && Two(n) <= exp < 2 * Two(n)
    && ToUint64(result) == ToUint64(acc)
    && acc * Pow(base, exp) == Pow(base0, exp0)
    && (LastSquareFits(base, n) <==> LastSquareFits(base0, Squarings(exp0)))
  }

  /** Taking the lowest bit off the exponent. */
  lemma PowHalves(b: int, n: nat)
    ensures Pow(b, n) == if n % 2 == 1 then b * Pow(b * b, n / 2) else Pow(b * b, n / 2)
  {
    PowSquare(b, n / 2);
    assert n == 2 * (n / 2) + n % 2;
  }

  lemma MulAssoc(x: int, y: int, z: int)
    ensures x * (y * z) == (x * y) * z
  {}

  lemma RoundTracks(base0: int, exp0: uint8, result: int, exp: nat, base: int, n: nat, acc: int)
    requires n >= 1 && Tracks(base0, exp0, result, exp, base, n, acc)
    ensures base * base > INT32_MAX ==> !LastSquareFits(base0, Squarings(exp0))
    ensures base * base <= INT32_MAX ==>
      if exp % 2 == 1
      then Tracks(base0, exp0, ToUint64(result * ToUint64(base)), exp / 2, base * base, n - 1, acc * base)
      else Tracks(base0, exp0, result, exp / 2, base * base, n - 1, acc)
  {
    FitsStep(base, n);
    ModMul(result, acc, base);
    PowHalves(base, exp);
    MulAssoc(acc, base, Pow(base * base, exp / 2));
  }

  /** If the last square fits, the whole power is below 2^62 in magnitude. */
  lemma PowerBound(base: int, exp: nat, n: nat)
    requires n >= 1 && LastSquareFits(base, n) && exp < 2 * Two(n)
    ensures Abs(Pow(base, exp)) < 0x4000_0000_0000_0000
  {
    var a := Abs(base);
    PowAbs(base, exp);
    assert Two(n) == 2 * Two(n - 1);
    PowAbs(base, Two(n));
    if a == 0 {
      PowUnit(exp);
    } else {
      PowMono(a, exp, Two(n) + Two(n));
      PowMono(a, 0, Two(n));
      PowAdd(a, Two(n), Two(n));
      MulMono(Pow(a, Two(n)), INT32_MAX, Pow(a, Two(n)), INT32_MAX);
    }
  }

  lemma PowerFits(base: int32, exp: uint8)
    requires exp < 63 && LastSquareFits(base, Squarings(exp))
    ensures FitsInt64(Pow(base, exp))
    ensures exp >= 2 ==> Abs(Pow(base, exp)) < 0x4000_0000_0000_0000
  {
    if exp >= 2 {
      TwoBits(exp);
      PowerBound(base, exp, Squarings(exp));
    } else if exp == 1 {
      assert Pow(base, 1) == base * Pow(base, 0);
    }
  }

  lemma TwoBits(exp: uint8)
    requires 1 <= exp < 63
    ensures Two(Squarings(exp)) <= exp < 2 * Two(Squarings(exp))
  {
    assert Two(1) == 2 && Two(2) == 4 && Two(3) == 8;
    assert Two(4) == 16 && Two(5) == 32;
  }

  // ----- exponents marked 255 in the table

  lemma {:induction false} PowTwo63()
    ensures Pow(2, 63) == INT64_MAX + 1
  {
    assert Pow(2, 7) == 128 by { assert Pow(2, 3) == 8; assert Pow(2, 5) == 32; }
    PowAdd(2, 7, 7);
    PowAdd(2, 14, 7);
    PowAdd(2, 21, 21);
    PowAdd(2, 42, 21);
  }

  /** From exponent 63 on, no base beyond -1, 0, 1 has a power in int64, except -2
      raised to exactly 63. */
  lemma MarkedOverflow(base: int, exp: nat)
    requires exp >= 63 && (base < -1 || base > 1)
    ensures FitsInt64(Pow(base, exp)) <==> base == -2 && exp == 63
    ensures Pow(base, exp) != 0
  {
    var a := Abs(base);
    PowTwo63();
    PowAbs(base, exp);
    PowBase(2, a, exp);
    PowMono(2, 63, exp);
    if exp > 63 {
      PowMono(2, 64, exp);
      assert Pow(2, 64) == 2 * Pow(2, 63);
    } else if a > 2 {
      PowBase(3, a, 63);
      PowMono(2, 62, 62);
      PowBase(2, 3, 62);
      assert Pow(3, 63) == 3 * Pow(3, 62) && Pow(2, 63) == 2 * Pow(2, 62);
    }
  }

  lemma FinalRound(base0: int, exp0: uint8, result: int, exp: nat, base: int, acc: int)
    requires Tracks(base0, exp0, result, exp, base, 0, acc)
    ensures exp == 1 && ToUint64(ToUint64(result * ToUint64(base))) == ToUint64(Pow(base0, exp0))
  {
    ModMul(result, acc, base);
    assert Pow(base, 1) == base * Pow(base, 0);
  }

  // ----- the method

  /** Case n + 1 of the switch and, by falling through, all cases after it: multiply if
      the bit is set, shift, square; the last case only multiplies. */
  method FallThrough(n: nat, result: int, exp: uint8, base: int32,
                     ghost base0: int, ghost exp0: uint8, ghost acc: int) returns (r: Outcome)
    requires Tracks(base0, exp0, result, exp, base, n, acc)
    ensures r.Overflow? <==> !LastSquareFits(base0, Squarings(exp0))
    ensures r.Value? ==> ToUint64(r.v) == ToUint64(Pow(base0, exp0))
  {
    var result', exp' := result, exp;
    ghost var acc' := acc;
    if exp % 2 == 1 { result', acc' := ToUint64(result * ToUint64(base)), acc * base; }
    if n == 0 {
      FinalRound(base0, exp0, result, exp, base, acc);
      return Value(result');
    }
    RoundTracks(base0, exp0, result, exp, base, n, acc);
    exp' := exp / 2;
    var square := base * base;
    if square > INT32_MAX { return Overflow; }
    r := FallThrough(n - 1, result', exp', square, base0, exp0, acc');
  }

  method Power(base: int32, exp: uint8) returns (r: Outcome)
    ensures r.Overflow? <==> !LastSquareFits(base, Squarings(exp))
    ensures r.Value? && exp < 63 ==> r.v == Pow(base, exp)
    ensures exp >= 63 ==> r == Value(if -1 <= base <= 1 then Pow(base, exp) else 0)
    ensures AsDocumented(r, base, exp) <==>
      LastSquareFits(base, Squarings(exp)) && !(base == -2 && exp == 63)
  {
    var h := HighestBitSet(exp);
    if h == 255 {
      PowUnit(exp);
      if base < -1 || base > 1 { MarkedOverflow(base, exp); }
      if base == 1 { return Value(1); }
      if base == -1 { return Value(1 - 2 * (exp % 2)); }
      return Value(0);
    }
    if h == 0 { return Value(1); }
    TwoBits(exp);
    r := FallThrough(h - 1, 1, exp, base, base, exp, 1);
    if r.Value? {
      PowerFits(base, exp);
      FitsExact(Pow(base, exp), r.v);
      r := Value(ToInt64(r.v));
    }
  }

  /** 2^62 fits int64 comfortably, yet the fifth squaring, of 65536, overflows; and
      (-2)^63 is INT64_MIN, yet 0 is returned for it. */
  lemma Shortfalls()
    ensures !LastSquareFits(2, Squarings(62)) && FitsInt64(Pow(2, 62))
    ensures FitsInt64(Pow(-2, 63)) && Pow(-2, 63) != 0
  {
    PowTwo63();
    assert Pow(2, 63) == 2 * Pow(2, 62);
    PowAbs(-2, 63);
    assert Two(5) == 32 by { assert Two(2) == 4; assert Two(4) == 16; }
    PowAdd(2, 31, 1);
    PowAdd(2, 31, 31);
    PowMono(2, 31, 62);
    PowAdd(2, 32, 31);
    assert Pow(2, 32) > INT32_MAX by {
      assert Pow(2, 4) == 16 by { assert Pow(2, 2) == 4; }
      PowAdd(2, 4, 4);
      PowAdd(2, 8, 8);
      PowAdd(2, 16, 16);
    }
  }
}
