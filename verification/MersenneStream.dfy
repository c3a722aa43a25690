/** MersenneTwister of random_utils.hh against the MT19937 sequence. */
module MersenneStream {
  import opened MersenneWords
  import opened CircularRecurrence

  const WARMUP := LEN * 100

  type Window = w: seq<word> | |w| == LEN witness seq(LEN, _ => 0)

  /** What call number k (from 0) returns when the sequence starts with w. */
  function Output(w: Window, k: nat): word {
    Swizzle(X(Transition, w, k + LEN))
  }

  function Seeded(seed: word): Window {
    seq(LEN, _ => seed)
  }

  /** What call number n after construction returns. */
  function UserOutput(seed: word, n: nat): word {
    Output(Seeded(seed), WARMUP + n)
  }

  /** The same in numbers, from the seed on. */
  lemma UserOutputIs(seed: word, n: nat)
    ensures |Seeded(seed)| == 624 && forall i | 0 <= i < 624 :: Seeded(seed)[i] == seed
    ensures UserOutput(seed, n) == Swizzle(X(Transition, Seeded(seed), 62400 + n + 624))
  {}

  // ----- outputs give the state away

  /** The window read off 624 outputs. */
  function Recovered(outputs: seq<word>): Window
    requires |outputs| == LEN
  {
    seq(LEN, i requires 0 <= i < LEN => Unswizzle(outputs[i]))
  }

  lemma RecoverWindow(w: Window, k: nat, outputs: seq<word>)
    requires |outputs| == LEN
    requires forall i: nat | i < LEN :: outputs[i] == Output(w, k + i)
    ensures Recovered(outputs) == WindowAt(Transition, w, k + LEN)
  {
    var v := WindowAt(Transition, w, k + LEN);
    forall i: nat | i < LEN
      ensures Recovered(outputs)[i] == v[i]
    {
      SwizzleBijection(X(Transition, w, k + LEN + i));
      assert k + i + LEN == k + LEN + i;
    }
  }

  lemma LaterOutput(w: Window, k: nat, n: nat)
    ensures Output(w, k + n) == Output(WindowAt(Transition, w, k), n)
  {
    Restart(Transition, w, k, n + LEN);
    assert k + (n + LEN) == k + n + LEN;
  }

  /** Word i of the window at k sits at index (k + i) mod 624 of the buffer. */
  lemma WindowInBuffer(w: Window, k: nat, i: nat)
    requires i < LEN
    ensures Image(Transition, w, k)[(k + i) % LEN] == WindowAt(Transition, w, k)[i]
  {
    WordAt(Transition, w, k, k + i);
  }

  /** 624 consecutive outputs give away the whole buffer, word by word and in place, and
      so every later output. */
  lemma OutputsRevealState(w: Window, k: nat, outputs: seq<word>)
    requires |outputs| == LEN
    requires forall i: nat | i < LEN :: outputs[i] == Output(w, k + i)
    ensures Recovered(outputs) == WindowAt(Transition, w, k + LEN)
    ensures forall i: nat | i < LEN ::
      Image(Transition, w, k + LEN)[(k + LEN + i) % LEN] == Recovered(outputs)[i]
    ensures forall n: nat :: Output(w, k + LEN + n) == Output(Recovered(outputs), n)
  {
    RecoverWindow(w, k, outputs);
    forall i: nat | i < LEN
      ensures Image(Transition, w, k + LEN)[(k + LEN + i) % LEN] == Recovered(outputs)[i]
    {
      WindowInBuffer(w, k + LEN, i);
    }
    forall n: nat
      ensures Output(w, k + LEN + n) == Output(Recovered(outputs), n)
    {
      LaterOutput(w, k + LEN, n);
    }
  }

  // ----- whole runs are linear over exclusive or

  function XorWindow(v: Window, w: Window): Window {
    seq(LEN, i requires 0 <= i < LEN => Xor(v[i], w[i]))
  }

  lemma {:induction false} XLinear(v: Window, w: Window, j: nat)
    ensures X(Transition, XorWindow(v, w), j) == Xor(X(Transition, v, j), X(Transition, w, j))
  {
    if j >= LEN {
      XLinear(v, w, j - LEN);
      XLinear(v, w, j - LEN + 1);
      XLinear(v, w, j - LEN + MID);
      TransitionLinear(
        X(Transition, v, j - LEN), X(Transition, v, j - LEN + 1), X(Transition, v, j - LEN + MID),
        X(Transition, w, j - LEN), X(Transition, w, j - LEN + 1), X(Transition, w, j - LEN + MID));
    }
  }

  lemma StreamLinear(a: word, b: word, n: nat)
    ensures UserOutput(Xor(a, b), n) == Xor(UserOutput(a, n), UserOutput(b, n))
  {
    assert Seeded(Xor(a, b)) == XorWindow(Seeded(a), Seeded(b));
    var j := WARMUP + n + LEN;
    XLinear(Seeded(a), Seeded(b), j);
    SwizzleLinear(X(Transition, Seeded(a), j), X(Transition, Seeded(b), j));
  }

  /** Seed 0 yields 0 on every call. */
  lemma ZeroSeed(n: nat)
    ensures UserOutput(0, n) == 0
  {
    XorSelf(0);
    StreamLinear(0, 0, n);
    XorSelf(UserOutput(0, n));
  }

  // ----- the sequence can be run backwards

  /** The word before a window, from the two transitions that used it. */
  function Previous(w: Window): word {
    Join(Untwist(w[LEN - 1], w[MID - 1]), Untwist(w[LEN - 2], w[MID - 2]))
  }

  lemma Backwards(w: Window, k: nat)
    requires k >= 1
    ensures X(Transition, w, k) == Previous(WindowAt(Transition, w, k + 1))
  {
    var v := WindowAt(Transition, w, k + 1);
    var a, b, c := X(Transition, w, k - 1), X(Transition, w, k), X(Transition, w, k + 1);
    assert v[MID - 2] == X(Transition, w, k - 1 + MID);
    assert v[MID - 1] == X(Transition, w, k + MID);
    assert v[LEN - 2] == X(Transition, w, k - 1 + LEN) == Transition(a, b, v[MID - 2]);
    assert v[LEN - 1] == X(Transition, w, k + LEN) == Transition(b, c, v[MID - 1]);
    UntwistTransition(a, b, v[MID - 2]);
    UntwistTransition(b, c, v[MID - 1]);
    JoinParts(b, c, a);
  }

  lemma {:induction false} SameWindowSamePast(v: Window, w: Window, k: nat)
    requires k >= 1 && WindowAt(Transition, v, k) == WindowAt(Transition, w, k)
    ensures X(Transition, v, 1) == X(Transition, w, 1)
  {
    var p', q' := WindowAt(Transition, v, k), WindowAt(Transition, w, k);
    assert p'[0] == X(Transition, v, k) && q'[0] == X(Transition, w, k);
    if k > 1 {
      Backwards(v, k - 1);
      Backwards(w, k - 1);
      var p, q := WindowAt(Transition, v, k - 1), WindowAt(Transition, w, k - 1);
      forall i | 0 <= i < LEN
        ensures p[i] == q[i]
      {
        if i > 0 {
          assert p'[i - 1] == X(Transition, v, k - 1 + i);
          assert q'[i - 1] == X(Transition, w, k - 1 + i);
        }
      }
      assert p == q;
      SameWindowSamePast(v, w, k - 1);
    }
  }

  /** Different seeds never agree on 624 calls in a row. */
  lemma SeedsNeverCollide(a: word, b: word, n: nat)
    requires forall m: nat | n <= m < n + 624 :: UserOutput(a, m) == UserOutput(b, m)
    ensures a == b
  {
    var k := WARMUP + n;
    var outputs := seq(LEN, i requires 0 <= i < LEN => UserOutput(a, n + i));
    forall i: nat | i < LEN
      ensures outputs[i] == Output(Seeded(a), k + i) == Output(Seeded(b), k + i)
    {
      assert UserOutput(a, n + i) == UserOutput(b, n + i);
      assert WARMUP + (n + i) == k + i;
    }
    OutputsRevealState(Seeded(a), k, outputs);
    OutputsRevealState(Seeded(b), k, outputs);
    SameWindowSamePast(Seeded(a), Seeded(b), k + LEN);
    assert Seeded(a)[1] == a && Seeded(b)[1] == b;
  }

  // ----- the generator

  class MersenneTwister {
    var buffer: array<word>
    var index: nat
    ghost var start: Window  // contents before the first call
    ghost var calls: nat     // calls of Integer so far

    ghost predicate Valid()
      reads this, buffer
    {
      && buffer.Length == 624
      && index == calls % 624
      && buffer[..] == Image(Transition, start, calls)
    }

    /** Fills the buffer with the seed and stirs it 62400 times. */
    constructor (seed: word)
      ensures Valid() && fresh(buffer)
      ensures start == Seeded(seed) && calls == 62400
    {
      buffer := new word[LEN];
      index := 0;
      start := Seeded(seed);
      calls := 0;
      new;
      for i := 0 to LEN
        modifies buffer
        invariant forall h | 0 <= h < i :: buffer[h] == seed
      {
        buffer[i] := seed;
      }
      assert buffer[..] == start;
      ImageStart(Transition, start);
      for i := 0 to WARMUP
        invariant Valid() && fresh(buffer)
        invariant start == Seeded(seed) && calls == i
      {
        var _ := Integer();
      }
    }

    /** The index and twist sections of MersenneTwister::integer. */
    method Advance() returns (r: word)
      requires Valid()
      modifies this, buffer
      ensures Valid() && buffer == old(buffer)
      ensures start == old(start) && calls == old(calls) + 1
      ensures r == X(Transition, start, old(calls) + 624)
    {
      var i := index;
      var i2, j := Indices(i, calls);
      ghost var before := buffer[..];
      Slide(Transition, before, start, calls, i, i2, j);
      r := TwistWord(buffer[i], buffer[i2], buffer[j]);
      buffer[index] := r;
      assert buffer[..] == before[i := r];
      index := i2;
      calls := calls + 1;
    }

    method Integer() returns (r: word)
      requires Valid()
      modifies this, buffer
      ensures Valid() && buffer == old(buffer)
      ensures start == old(start) && calls == old(calls) + 1
      ensures r == Output(start, old(calls)) == Swizzle(X(Transition, start, old(calls) + 624))
    {
      r := Advance();
      r := SwizzleWord(r);
    }
  }

  /** The index section: wrap-around by comparison and subtraction gives residues. */
  method Indices(index: nat, ghost k: nat) returns (i2: nat, j: nat)
    requires index == k % 624
    ensures i2 == (k + 1) % 624 && j == (k + 397) % 624
  {
    WrapAround(k);
    i2 := index + 1;
    if i2 >= LEN { i2 := 0; }
    j := index + MID;
    if j >= LEN { j := j - LEN; }
  }

  /** The twist section of MersenneTwister::integer. */
  method TwistWord(a: word, b: word, c: word) returns (r: word)
    ensures r == Transition(a, b, c)
  {
    var s := Join(a, b);
    r := Xor(Xor(c, Half(s)), Feedback(s));
    TwistIsTransition(a, b, c);
  }

  /** The swizzle section of MersenneTwister::integer. */
  method SwizzleWord(x: word) returns (r: word)
    ensures r == Swizzle(x)
  {
    r := x;
    r := Xor(r, Right11(r));
    r := Xor(r, Left7(r));
    r := Xor(r, Left15(r));
    r := Xor(r, Right18(r));
  }
}
