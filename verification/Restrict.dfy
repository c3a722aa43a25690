/** restrict.cc: summing an array through a pointer that may point into it, against
    summing in a register, which is what __restrict lets the compiler do. */
module Restrict {

  const UINT32 := 0x1_0000_0000

  /** int arithmetic that wraps around. */
  function Wrap(x: int): int {
    (x + UINT32 / 2) % UINT32 - UINT32 / 2
  }

  /** The one int that is congruent to x modulo 2^32; x itself if that is an int. */
  lemma WrapIs(x: int, y: int)
    ensures -0x8000_0000 <= Wrap(x) <= 0x7fff_ffff && (x - Wrap(x)) % 0x1_0000_0000 == 0
    ensures -0x8000_0000 <= y <= 0x7fff_ffff && (x - y) % 0x1_0000_0000 == 0 ==> y == Wrap(x)
    ensures -0x8000_0000 <= x <= 0x7fff_ffff ==> Wrap(x) == x
  {
    var k := (x + UINT32 / 2) / UINT32;
    assert Wrap(x) == x - UINT32 * k;
  }

  function Sum(s: seq<int>): int {
    if s == [] then 0 else Sum(s[..|s| - 1]) + s[|s| - 1]
  }

  lemma WrapAdd(x: int, y: int)
    ensures Wrap(Wrap(x) + y) == Wrap(x + y) && Wrap(Wrap(x)) == Wrap(x)
  {
    var k := (x + UINT32 / 2) / UINT32;
    assert Wrap(x) == x - UINT32 * k;
  }

  lemma WrapShift(x: int, y: int, z: int)
    requires Wrap(x) == Wrap(y)
    ensures Wrap(x + z) == Wrap(y + z)
  {
    WrapAdd(x, z);
    WrapAdd(y, z);
  }

  lemma WrapCancel(x: int, y: int, z: int)
    ensures Wrap(x + z) == Wrap(y + z) <==> Wrap(x) == Wrap(y)
  {
    if Wrap(x + z) == Wrap(y + z) { WrapShift(x + z, y + z, -z); }
    if Wrap(x) == Wrap(y) { WrapShift(x, y, z); }
  }

  lemma WrapCancelled(p: int, q: int, x: int, y: int, z: int)
    requires p == x + z && q == y + z
    ensures Wrap(p) == Wrap(q) <==> Wrap(y) == Wrap(x)
  {
    WrapCancel(x, y, z);
  }

  lemma SumNext(s: seq<int>, i: nat)
    requires i < |s|
    ensures Sum(s[..i + 1]) == Sum(s[..i]) + s[i]
  {
    assert s[..i + 1][..i] == s[..i];
  }

  lemma {:induction false} SumConcat(s: seq<int>, t: seq<int>)
    ensures Sum(s + t) == Sum(s) + Sum(t)
  {
    if t == [] {
      assert s + t == s;
    } else {
      assert (s + t)[..|s + t| - 1] == s + t[..|t| - 1];
      SumConcat(s, t[..|t| - 1]);
    }
  }

  /** What accumulating in place has added up after i elements, when the result is
      element k of the array itself (no element if k is not below |s|). */
  function InPlace(s: seq<int>, k: int, i: nat): int
    requires i <= |s|
  {
    if 0 <= k < i then 2 * Sum(s[..k]) + Sum(s[k + 1..i]) else Sum(s[..i])
  }

  lemma InPlaceNext(s: seq<int>, k: int, i: nat)
    requires i < |s|
    ensures InPlace(s, k, i + 1) == InPlace(s, k, i) + if i == k then InPlace(s, k, i) else s[i]
  {
    SumNext(s, i);
    if i == k {
      assert s[k + 1..i + 1] == [];
    } else if 0 <= k < i {
      assert s[k + 1..i + 1][..i - k - 1] == s[k + 1..i];
    }
  }

  /** add_no_restrict: `mem` holds the array at arr .. arr + num and the result at `result`. */
  method AddNoRestrict(mem: array<int>, arr: nat, num: nat, result: nat)
    requires arr + num <= mem.Length && result < mem.Length
    modifies mem
    ensures mem[result] == Wrap(InPlace(old(mem[arr..arr + num]), result - arr, num))
    ensures
      var s, k := old(mem[arr..arr + num]), result - arr;
      var exact := if 0 <= k < num then 2 * Sum(s[..k]) + Sum(s[k + 1..]) else Sum(s);
      -0x8000_0000 <= exact <= 0x7fff_ffff ==> mem[result] == exact
    ensures forall j | 0 <= j < mem.Length && j != result :: mem[j] == old(mem[j])
  {
    ghost var s := mem[arr..arr + num];
    ghost var k := result - arr;
    mem[result] := 0;
    for i := 0 to num
      invariant mem[result] == Wrap(InPlace(s, k, i))
      invariant forall j | 0 <= j < mem.Length && j != result :: mem[j] == old(mem[j])
    {
      InPlaceNext(s, k, i);
      ghost var x := InPlace(s, k, i);
      WrapAdd(x, s[i]);
      WrapAdd(x, Wrap(x));
      WrapAdd(x, x);
      assert i != k ==> mem[arr + i] == s[i];
      mem[result] := Wrap(mem[result] + mem[arr + i]);
    }
    InPlaceAll(s, k);
    WrapIs(InPlace(s, k, num), 0);
  }

  /** add_temp, and what add_restrict may be compiled to. */
  method AddTemp(mem: array<int>, arr: nat, num: nat, result: nat)
    requires arr + num <= mem.Length && result < mem.Length
    modifies mem
    ensures mem[result] == Wrap(Sum(old(mem[arr..arr + num])))
    ensures
      var exact := Sum(old(mem[arr..arr + num]));
      -0x8000_0000 <= exact <= 0x7fff_ffff ==> mem[result] == exact
    ensures forall j | 0 <= j < mem.Length && j != result :: mem[j] == old(mem[j])
  {
    ghost var s := mem[arr..arr + num];
    var temp := 0;
    for i := 0 to num
      invariant temp == Wrap(Sum(s[..i])) && mem[..] == old(mem[..])
    {
      SumNext(s, i);
      WrapAdd(Sum(s[..i]), s[i]);
      assert mem[arr + i] == mem[..][arr + i] == s[i];
      temp := Wrap(temp + mem[arr + i]);
    }
    assert s[..num] == s;
    assert forall j | 0 <= j < mem.Length :: mem[j] == mem[..][j] == old(mem[..])[j];
    mem[result] := temp;
    WrapIs(Sum(s), 0);
  }

  lemma SumSplit(s: seq<int>, k: nat)
    requires k < |s|
    ensures Sum(s) == s[k] + (Sum(s[..k]) + Sum(s[k + 1..]))
  {
    var t := [s[k]] + s[k + 1..];
    assert s == s[..k] + t;
    SumConcat(s[..k], t);
    SumConcat([s[k]], s[k + 1..]);
    assert Sum([s[k]]) == s[k] by { assert [s[k]][..0] == []; }
  }

  lemma InPlaceAll(s: seq<int>, k: int)
    ensures InPlace(s, k, |s|) ==
      if 0 <= k < |s| then Sum(s[..k]) + (Sum(s[..k]) + Sum(s[k + 1..])) else Sum(s)
  {
    assert s[..|s|] == s;
    if 0 <= k < |s| { assert s[k + 1..|s|] == s[k + 1..]; }
  }

  /** Keeping the sum in a register is a correct transformation exactly when the result
      lies outside the array, or is an element equal to the sum of those before it. */
  lemma PromotionSound(s: seq<int>, k: int)
    ensures Wrap(InPlace(s, k, |s|)) == Wrap(Sum(s)) <==>
      (0 <= k < |s| ==> Wrap(s[k]) == Wrap(Sum(s[..k])))
  {
    InPlaceAll(s, k);
    if 0 <= k < |s| {
      SumSplit(s, k);
      WrapCancelled(InPlace(s, k, |s|), Sum(s), Sum(s[..k]), s[k], Sum(s[..k]) + Sum(s[k + 1..]));
    }
  }
}
