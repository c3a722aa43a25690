/** timespec_utils.h: seconds and nanoseconds, updated through pointers that may be
    equal, with C's division, which rounds toward zero. */
module Timespec {
  import opened MachineInts

  const NSEC_PER_SEC := 1_000_000_000
  type int64 = x: int | FitsInt64(x) witness 0

  function Quot(a: int, b: int): int
    requires b > 0
  {
    if a >= 0 then a / b else -((-a) / b)
  }

  function Rem(a: int, b: int): int
    requires b > 0
  {
    a - b * Quot(a, b)
  }

  /** C's remainder has the sign of the dividend. */
  lemma RemSign(a: int)
    ensures a >= 0 ==> 0 <= Rem(a, NSEC_PER_SEC) < NSEC_PER_SEC
    ensures a <= 0 ==> -NSEC_PER_SEC < Rem(a, NSEC_PER_SEC) <= 0
    ensures Rem(a, NSEC_PER_SEC) == 0 <==> a % NSEC_PER_SEC == 0
  {}

  function Nanos(sec: int, nsec: int): int { sec * NSEC_PER_SEC + nsec }

  predicate InRange(nsec: int) { 0 <= nsec < NSEC_PER_SEC }

  /** In normal form the nanoseconds determine both fields. */
  lemma NormalUnique(s: int, n: int, s': int, n': int)
    requires InRange(n) && InRange(n') && Nanos(s, n) == Nanos(s', n')
    ensures s == s' && n == n'
  {}

  // ----- which additions, products and differences stay in 64 bits

  predicate AddNanosFits(sec: int, nsec: int, count: int) {
    FitsInt64(nsec + count) && FitsInt64(sec + Quot(nsec + count, NSEC_PER_SEC))
  }

  predicate AddFits(sec: int, nsec: int, fromSec: int, fromNsec: int) {
    var carried := fromSec + Quot(nsec + fromNsec, NSEC_PER_SEC);
    FitsInt64(nsec + fromNsec) && FitsInt64(carried) && FitsInt64(sec + carried)
  }

  predicate SubFits(endSec: int, endNsec: int, startSec: int, startNsec: int) {
    && FitsInt64(endSec - startSec) && FitsInt64(endNsec - startNsec)
    && (endNsec < startNsec ==> FitsInt64(endSec - startSec - 1))
  }

  function Borrow(endNsec: int, startNsec: int): int {
    if endNsec < startNsec then 1 else 0
  }

  predicate NanosFits(sec: int, nsec: int) {
    FitsInt64(sec * NSEC_PER_SEC) && FitsInt64(Nanos(sec, nsec))
  }

  predicate DiffFits(endSec: int, endNsec: int, startSec: int, startNsec: int) {
    && FitsInt64(endSec - startSec) && FitsInt64(endNsec - startNsec)
    && NanosFits(endSec - startSec, endNsec - startNsec)
  }

  /** Between normalised times in order, the difference is computed without overflow
      exactly when its nanoseconds fit and the seconds differ by at most 9223372036. */
  lemma OrderedDiffFits(endSec: int64, endNsec: int64, startSec: int64, startNsec: int64)
    requires InRange(endNsec) && InRange(startNsec)
    requires Nanos(endSec, endNsec) >= Nanos(startSec, startNsec)
    ensures DiffFits(endSec, endNsec, startSec, startNsec) <==>
      endSec - startSec <= 9_223_372_036 && FitsInt64(Nanos(endSec, endNsec) - Nanos(startSec, startNsec))
  {
    assert endSec >= startSec;
  }

  // ----- the functions

  class Time {
    var sec: int64
    var nsec: int64

    ghost function Value(): int
      reads this
    {
      Nanos(sec, nsec)
    }

    ghost predicate Normal()
      reads this
    {
      InRange(nsec)
    }

    constructor (s: int64, n: int64)
      ensures sec == s && nsec == n
    {
      sec, nsec := s, n;
    }

    /** Unless a step overflows, the value is conserved and less than a second is left
        over; normal form comes out exactly when the sum of nanoseconds is not negative
        or is a whole number of seconds. */
    method AddNanos(count: int64) returns (ok: bool)
      modifies this
      ensures ok <==> AddNanosFits(old(sec), old(nsec), count)
      ensures ok ==> Value() == old(Value()) + count
      ensures ok ==> -NSEC_PER_SEC < nsec < NSEC_PER_SEC && (old(nsec) + count <= 0 ==> nsec <= 0)
      ensures ok ==> (Normal() <==> old(nsec) + count >= 0 || (old(nsec) + count) % NSEC_PER_SEC == 0)
    {
      var sum := nsec + count;
      if !FitsInt64(sum) { return false; }
      RemSign(sum);
      nsec := Rem(sum, NSEC_PER_SEC);
      var sec' := sec + Quot(sum, NSEC_PER_SEC);
      if !FitsInt64(sec') { return false; }
      sec := sec';
      return true;
    }

    /** `from` may be the same object. */
    method Add(from: Time) returns (ok: bool)
      modifies this
      ensures ok <==> AddFits(old(sec), old(nsec), old(from.sec), old(from.nsec))
      ensures ok ==> Value() == old(Value()) + old(from.Value())
      ensures ok ==> -NSEC_PER_SEC < nsec < NSEC_PER_SEC && (old(nsec + from.nsec) <= 0 ==> nsec <= 0)
      ensures ok ==> (Normal() <==> old(nsec + from.nsec) >= 0 || old(nsec + from.nsec) % NSEC_PER_SEC == 0)
    {
      var sum := nsec + from.nsec;
      if !FitsInt64(sum) { return false; }
      RemSign(sum);
      nsec := Rem(sum, NSEC_PER_SEC);
      var carried := from.sec + Quot(sum, NSEC_PER_SEC);
      if !FitsInt64(carried) || !FitsInt64(sec + carried) { return false; }
      sec := sec + carried;
      return true;
    }
  }

  /** Any two of the three may be the same object. */
  method Sub(end: Time, start: Time, result: Time) returns (ok: bool)
    modifies result
    ensures ok <==> SubFits(old(end.sec), old(end.nsec), old(start.sec), old(start.nsec))
    ensures ok ==> result.Value() == old(end.Value()) - old(start.Value())
    ensures ok ==> result.sec == old(end.sec) - old(start.sec) - Borrow(old(end.nsec), old(start.nsec))
    ensures ok ==> (result.Normal() <==> -NSEC_PER_SEC <= old(end.nsec) - old(start.nsec) < NSEC_PER_SEC)
    ensures ok && old(end.Normal()) && old(start.Normal()) ==> result.Normal()
  {
    if !FitsInt64(end.sec - start.sec) { return false; }
    result.sec := end.sec - start.sec;
    if !FitsInt64(end.nsec - start.nsec) { return false; }
    result.nsec := end.nsec - start.nsec;
    if result.nsec < 0 {
      if !FitsInt64(result.sec - 1) { return false; }
      result.sec := result.sec - 1;
      result.nsec := result.nsec + NSEC_PER_SEC;
    }
    return true;
  }

  /** What was subtracted without overflow and is added back restores a normalised end
      exactly, and adding it back never overflows. */
  method SubThenAdd(end: Time, start: Time) returns (ok: bool, sum: Time)
    requires end.Normal() && start.Normal()
    ensures fresh(sum)
    ensures ok <==> SubFits(end.sec, end.nsec, start.sec, start.nsec)
    ensures ok ==> sum.sec == end.sec && sum.nsec == end.nsec
  {
    var diff := new Time(0, 0);
    sum := new Time(start.sec, start.nsec);
    ok := Sub(end, start, diff);
    if ok {
      var added := sum.Add(diff);
      assert added;
      NormalUnique(sum.sec, sum.nsec, end.sec, end.nsec);
    }
  }

  /** The comparison behind timespec_assert_ge; false stands for a failed assertion. */
  method AssertGe(x: Time, y: Time) returns (ok: bool)
    ensures x.Normal() && y.Normal() ==> (ok <==> x.Value() >= y.Value())
    ensures ok <==> x.sec > y.sec || (x.sec == y.sec && x.nsec >= y.nsec)
  {
    if x.sec > y.sec {
      return true;
    } else {
      if x.sec == y.sec {
        if x.nsec >= y.nsec { return true; } else { return false; }
      } else {
        return false;
      }
    }
  }

  /** Signed arithmetic, converted to unsigned only at the end. */
  method ToNanos(t: Time) returns (r: Outcome)
    ensures r.Overflow? <==> !NanosFits(t.sec, t.nsec)
    ensures r == Value(t.Value()) <==> NanosFits(t.sec, t.nsec) && t.Value() >= 0
    ensures r.Value? ==> r.v == t.Value() + if t.Value() < 0 then 0x1_0000_0000_0000_0000 else 0
  {
    var product := t.sec * NSEC_PER_SEC;
    if !FitsInt64(product) || !FitsInt64(product + t.nsec) { return Overflow; }
    return Value(ToUint64(product + t.nsec));
  }

  /** The true difference exactly when no step overflows and end is not before start. */
  method DiffNano(end: Time, start: Time) returns (r: Outcome)
    ensures r.Overflow? <==> !DiffFits(end.sec, end.nsec, start.sec, start.nsec)
    ensures r == Value(end.Value() - start.Value()) <==>
      DiffFits(end.sec, end.nsec, start.sec, start.nsec) && end.Value() >= start.Value()
    ensures
      var diff := end.Value() - start.Value();
      r.Value? ==> r.v == diff + if diff < 0 then 0x1_0000_0000_0000_0000 else 0
  {
    var secs := end.sec - start.sec;
    if !FitsInt64(secs) || !FitsInt64(secs * NSEC_PER_SEC) { return Overflow; }
    var nsecs := end.nsec - start.nsec;
    if !FitsInt64(nsecs) || !FitsInt64(secs * NSEC_PER_SEC + nsecs) { return Overflow; }
    return Value(ToUint64(secs * NSEC_PER_SEC + nsecs));
  }

  /** The two ways to a difference in nanoseconds agree wherever neither overflows; for
      normalised times in order, subtracting first never overflows where the direct way
      does not. */
  method DiffTwoWays(end: Time, start: Time) returns (direct: Outcome, viaSub: Outcome)
    ensures direct.Overflow? <==> !DiffFits(end.sec, end.nsec, start.sec, start.nsec)
    ensures
      var borrow := Borrow(end.nsec, start.nsec);
      viaSub.Value? <==>
        && SubFits(end.sec, end.nsec, start.sec, start.nsec)
        && NanosFits(end.sec - start.sec - borrow, end.nsec - start.nsec + borrow * NSEC_PER_SEC)
    ensures direct.Value? && viaSub.Value? ==> direct == viaSub
    ensures end.Normal() && start.Normal() && end.Value() >= start.Value() && direct.Value? ==> viaSub.Value?
  {
    direct := DiffNano(end, start);
    viaSub := Overflow;
    var diff := new Time(0, 0);
    var ok := Sub(end, start, diff);
    if ok { viaSub := ToNanos(diff); }
  }

  // ----- inputs on which the functions fall short

  /** One nanosecond before zero is left out of normal form. */
  method OneBeforeZero() returns (t: Time)
    ensures fresh(t) && t.sec == 0 && t.nsec == -1 && !t.Normal()
  {
    t := new Time(0, 0);
    var _ := t.AddNanos(-1);
  }

  /** From half past second 0 to second 9223372037 the difference fits 64 bits, but only
      subtracting first arrives there: the direct product overflows. */
  lemma BorrowAvoidsOverflow()
    ensures !DiffFits(9_223_372_037, 0, 0, 500_000_000)
    ensures SubFits(9_223_372_037, 0, 0, 500_000_000) && NanosFits(9_223_372_036, 500_000_000)
  {}
}
