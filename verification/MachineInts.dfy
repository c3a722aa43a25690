/** 64-bit integers of C. */
module MachineInts {

  const INT64_MAX := 0x7fff_ffff_ffff_ffff
  const UINT64 := 0x1_0000_0000_0000_0000

  /** A number computed in signed steps, unless one of them overflows, on which C promises
      nothing. */
  datatype Outcome = Value(v: int) | Overflow

  predicate FitsInt64(x: int) { -INT64_MAX - 1 <= x <= INT64_MAX }

  function ToUint64(x: int): int { x % UINT64 }

  function ToInt64(x: int): int {
    var r := x % UINT64;
    if r > INT64_MAX then r - UINT64 else r
  }

  /** In numbers: the range, and the one number congruent to x in each of the two ranges. */
  lemma RangesAre(x: int)
    ensures FitsInt64(x) <==> -0x8000_0000_0000_0000 <= x <= 0x7fff_ffff_ffff_ffff
    ensures 0 <= ToUint64(x) <= 0xffff_ffff_ffff_ffff && (x - ToUint64(x)) % 0x1_0000_0000_0000_0000 == 0
    ensures FitsInt64(ToInt64(x)) && (x - ToInt64(x)) % 0x1_0000_0000_0000_0000 == 0
  {
    var k := x / UINT64;
    assert x == UINT64 * k + ToUint64(x);
  }
}
