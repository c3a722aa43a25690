/** Words of the generator in random_utils.hh: the twist, the output swizzle, and
    the algebra of both. The exclusive or and the masked shifts are named functions
    so that proofs can work with their laws rather than with single bits. */
module MersenneWords {

  type word = bv32

  const MATRIX: word := 0x9908B0DF

  function Xor(a: word, b: word): word { a ^ b }
  function Half(s: word): word { s >> 1 }
  function Odd(s: word): word { s & 1 }

  /** The upper bit of one word joined with the lower 31 bits of the next. */
  function Join(a: word, b: word): word {
    (a & 0x80000000) | (b & 0x7fffffff)
  }

  function Feedback(s: word): word { Odd(s) * MATRIX }

  /** The twist as MersenneTwister::integer computes it, without a branch. */
  function Twist(a: word, b: word, c: word): word {
    var s := Join(a, b);
    Xor(Xor(c, Half(s)), Feedback(s))
  }

  /** The transition of mersenne_twister_engine, section [rand.eng.mers] of ISO C++. */
  function Transition(a: word, b: word, c: word): word {
    var y := Join(a, b);
    var alpha := if Odd(y) == 1 then MATRIX else 0;
    Xor(Xor(c, Half(y)), alpha)
  }

  function Right11(r: word): word { r >> 11 }
  function Left7(r: word): word { (r << 7) & 0x9d2c5680 }
  function Left15(r: word): word { (r << 15) & 0xefc60000 }
  function Right18(r: word): word { r >> 18 }

  /** One line of the swizzle: r ^= f(r). */
  function Shear(f: word -> word, r: word): word { Xor(r, f(r)) }

  function Swizzle(r: word): word {
    Shear(Right18, Shear(Left15, Shear(Left7, Shear(Right11, r))))
  }

  /** Undoes Shear(f, _) when f shifts everything out in n + 1 rounds. */
  function Unshear(f: word -> word, n: nat, r: word): word {
    if n == 0 then r else Xor(r, f(Unshear(f, n - 1, r)))
  }

  /** The inverse of the swizzle. */
  function Unswizzle(r: word): word {
    Unshear(Right11, 2, Unshear(Left7, 4, Unshear(Left15, 1, Unshear(Right18, 1, r))))
  }

  /** Undoes Xor(Half(s), constant): the top bit tells whether s was odd. */
  function Untwist1(t: word): word {
    if t & 0x80000000 != 0 then (Xor(t, MATRIX) << 1) | 1 else t << 1
  }

  /** The joined word behind Transition(a, b, c), recovered from its result. */
  function Untwist(r: word, c: word): word {
    Untwist1(Xor(r, c))
  }

  // ----- laws of exclusive or

  lemma XorAssoc(a: word, b: word, c: word)
    ensures Xor(Xor(a, b), c) == Xor(a, Xor(b, c))
  {}

  lemma XorComm(a: word, b: word)
    ensures Xor(a, b) == Xor(b, a)
  {}

  lemma XorSelf(a: word)
    ensures Xor(a, a) == 0 && Xor(a, 0) == a
  {}

  lemma XorSwap(a: word, b: word, c: word, d: word)
    ensures Xor(Xor(a, b), Xor(c, d)) == Xor(Xor(a, c), Xor(b, d))
  {
    XorAssoc(a, b, Xor(c, d));
    XorAssoc(b, c, d);
    XorComm(b, c);
    XorAssoc(c, b, d);
    XorAssoc(a, c, Xor(b, d));
  }

  lemma XorCancel(a: word, b: word)
    ensures Xor(Xor(a, b), b) == a
  {
    XorAssoc(a, b, b);
    XorSelf(b);
    XorSelf(a);
  }

  // ----- shifts and masks distribute over it

  lemma Right11Xor(a: word, b: word)
    ensures Right11(Xor(a, b)) == Xor(Right11(a), Right11(b))
  {}

  lemma Left7Xor(a: word, b: word)
    ensures Left7(Xor(a, b)) == Xor(Left7(a), Left7(b))
  {}

  lemma Left15Xor(a: word, b: word)
    ensures Left15(Xor(a, b)) == Xor(Left15(a), Left15(b))
  {}

  lemma Right18Xor(a: word, b: word)
    ensures Right18(Xor(a, b)) == Xor(Right18(a), Right18(b))
  {}

  lemma JoinXor(a: word, b: word, a': word, b': word)
    ensures Join(Xor(a, a'), Xor(b, b')) == Xor(Join(a, b), Join(a', b'))
  {}

  lemma HalfXor(a: word, b: word)
    ensures Half(Xor(a, b)) == Xor(Half(a), Half(b))
  {}

  lemma FeedbackCases(s: word)
    ensures Odd(s) == 0 || Odd(s) == 1
    ensures Feedback(s) == if Odd(s) == 1 then MATRIX else 0
  {}

  lemma OddXor(a: word, b: word)
    ensures Odd(Xor(a, b)) == Xor(Odd(a), Odd(b))
  {}

  lemma FeedbackXor(a: word, b: word)
    ensures Feedback(Xor(a, b)) == Xor(Feedback(a), Feedback(b))
  {
    FeedbackCases(a);
    FeedbackCases(b);
    FeedbackCases(Xor(a, b));
    OddXor(a, b);
    XorSelf(MATRIX);
    XorComm(0, MATRIX);
    XorSelf(0);
    XorSelf(1);
    XorComm(0, 1);
  }

  // ----- the swizzle is a bijection

  function Iterate(f: word -> word, n: nat, r: word): word {
    if n == 0 then r else f(Iterate(f, n - 1, r))
  }

  ghost predicate Linear(f: word -> word) {
    forall a, b {:trigger f(Xor(a, b))} :: f(Xor(a, b)) == Xor(f(a), f(b))
  }

  lemma XorSandwich(r: word, x: word, y: word)
    ensures Xor(Xor(Xor(r, x), y), r) == Xor(y, x)
  {
    XorAssoc(Xor(r, x), y, r);
    XorComm(y, r);
    XorSwap(r, x, r, y);
    XorSelf(r);
    XorComm(0, Xor(x, y));
    XorSelf(Xor(x, y));
    XorComm(x, y);
  }

  lemma XorShared(r: word, x: word, y: word)
    ensures Xor(Xor(r, x), Xor(r, y)) == Xor(x, y)
    ensures Xor(Xor(r, x), r) == x
  {
    XorSwap(r, x, r, y);
    XorSelf(r);
    XorComm(0, Xor(x, y));
    XorSelf(Xor(x, y));
    XorComm(r, x);
    XorCancel(x, r);
  }

  /** One round of undoing a shear, on words alone. */
  lemma UnshearRound(z: word, r: word, x: word, y: word)
    requires z == Xor(r, x)
    ensures Xor(z, r) == x && Xor(Xor(z, y), r) == Xor(y, x)
  {
    XorShared(r, x, 0);
    XorSandwich(r, x, y);
  }

  /** The difference of two rounds, on words alone. */
  lemma ConvergeRound(r: word, x: word, y: word, u: word, v: word)
    requires u == Xor(r, x) && v == Xor(r, y)
    ensures Xor(u, r) == x && Xor(u, v) == Xor(x, y)
  {
    XorShared(r, x, y);
  }

  /** The image of a difference under a linear map. */
  lemma LinearImage(f: word -> word, a: word, b: word, c: word)
    requires Linear(f) && Xor(a, b) == c
    ensures Xor(f(a), f(b)) == f(c)
  {}

  lemma {:induction false} UnshearShear(f: word -> word, n: nat, r: word)
    requires Linear(f)
    ensures Xor(Unshear(f, n, Shear(f, r)), r) == Iterate(f, n + 1, r)
  {
    if n == 0 {
      UnshearRound(Shear(f, r), r, f(r), 0);
      assert Iterate(f, 1, r) == f(Iterate(f, 0, r));
    } else {
      var u := Unshear(f, n - 1, Shear(f, r));
      UnshearShear(f, n - 1, r);
      LinearImage(f, u, r, Iterate(f, n, r));
      UnshearRound(Shear(f, r), r, f(r), f(u));
    }
  }

  lemma {:induction false} UnshearConverges(f: word -> word, n: nat, r: word)
    requires Linear(f)
    ensures Xor(Unshear(f, n + 1, r), Unshear(f, n, r)) == Iterate(f, n + 1, r)
  {
    var u := Unshear(f, n, r);
    if n == 0 {
      ConvergeRound(r, f(u), 0, Unshear(f, 1, r), Xor(r, 0));
      assert Iterate(f, 1, r) == f(Iterate(f, 0, r));
    } else {
      var v := Unshear(f, n - 1, r);
      UnshearConverges(f, n - 1, r);
      LinearImage(f, u, v, Iterate(f, n, r));
      ConvergeRound(r, f(u), f(v), Unshear(f, n + 1, r), u);
    }
  }

  lemma XorZero(a: word, b: word)
    requires Xor(a, b) == 0
    ensures a == b
  {
    XorCancel(a, b);
    XorComm(0, b);
    XorSelf(b);
  }

  /** A shear by a map that vanishes after n + 1 rounds is undone from both sides. */
  lemma ShearBijection(f: word -> word, n: nat, r: word)
    requires Linear(f) && Iterate(f, n + 1, r) == 0
    ensures Unshear(f, n, Shear(f, r)) == r
    ensures Shear(f, Unshear(f, n, r)) == r
  {
    UnshearShear(f, n, r);
    XorZero(Unshear(f, n, Shear(f, r)), r);
    var u := Unshear(f, n, r);
    UnshearConverges(f, n, r);
    XorZero(Unshear(f, n + 1, r), u);
    XorCancel(r, f(u));
  }

  lemma ShiftsVanish(r: word)
    ensures Right11(Right11(Right11(r))) == 0
    ensures Left7(Left7(Left7(Left7(Left7(r))))) == 0
    ensures Left15(Left15(r)) == 0
    ensures Right18(Right18(r)) == 0
  {}

  lemma IterateVanishes(r: word)
    ensures Iterate(Right11, 3, r) == 0
    ensures Iterate(Left7, 5, r) == 0
    ensures Iterate(Left15, 2, r) == 0
    ensures Iterate(Right18, 2, r) == 0
  {
    ShiftsVanish(r);
    assert Iterate(Right11, 1, r) == Right11(r);
    assert Iterate(Left7, 1, r) == Left7(r);
    assert Iterate(Left7, 2, r) == Left7(Left7(r));
    assert Iterate(Left7, 3, r) == Left7(Left7(Left7(r)));
    assert Iterate(Left15, 1, r) == Left15(r);
    assert Iterate(Right18, 1, r) == Right18(r);
  }

  lemma ShiftsLinear()
    ensures Linear(Right11) && Linear(Left7) && Linear(Left15) && Linear(Right18)
  {
    assert Linear(Right11) by { forall a, b { Right11Xor(a, b); } }
    assert Linear(Left7) by { forall a, b { Left7Xor(a, b); } }
    assert Linear(Left15) by { forall a, b { Left15Xor(a, b); } }
    assert Linear(Right18) by { forall a, b { Right18Xor(a, b); } }
  }

  lemma Right11Undone(r: word)
    ensures Unshear(Right11, 2, Shear(Right11, r)) == r == Shear(Right11, Unshear(Right11, 2, r))
  {
    ShiftsLinear();
    IterateVanishes(r);
    ShearBijection(Right11, 2, r);
  }

  lemma Left7Undone(r: word)
    ensures Unshear(Left7, 4, Shear(Left7, r)) == r == Shear(Left7, Unshear(Left7, 4, r))
  {
    ShiftsLinear();
    IterateVanishes(r);
    ShearBijection(Left7, 4, r);
  }

  lemma Left15Undone(r: word)
    ensures Unshear(Left15, 1, Shear(Left15, r)) == r == Shear(Left15, Unshear(Left15, 1, r))
  {
    ShiftsLinear();
    IterateVanishes(r);
    ShearBijection(Left15, 1, r);
  }

  lemma Right18Undone(r: word)
    ensures Unshear(Right18, 1, Shear(Right18, r)) == r == Shear(Right18, Unshear(Right18, 1, r))
  {
    ShiftsLinear();
    IterateVanishes(r);
    ShearBijection(Right18, 1, r);
  }

  lemma SwizzleBijection(r: word)
    ensures Unswizzle(Swizzle(r)) == r
    ensures Swizzle(Unswizzle(r)) == r
  {
    var a := Shear(Right11, r);
    var b := Shear(Left7, a);
    Right11Undone(r);
    Left7Undone(a);
    Left15Undone(b);
    Right18Undone(Shear(Left15, b));
    var p := Unshear(Right18, 1, r);
    var q := Unshear(Left15, 1, p);
    Right18Undone(r);
    Left15Undone(p);
    Left7Undone(q);
    Right11Undone(Unshear(Left7, 4, q));
  }

  // ----- both word functions are linear

  lemma ShearLinear(f: word -> word, a: word, b: word)
    requires Linear(f)
    ensures Shear(f, Xor(a, b)) == Xor(Shear(f, a), Shear(f, b))
  {
    XorSwap(a, b, f(a), f(b));
  }

  lemma SwizzleLinear(a: word, b: word)
    ensures Swizzle(Xor(a, b)) == Xor(Swizzle(a), Swizzle(b))
  {
    ShiftsLinear();
    ShearLinear(Right11, a, b);
    var a1, b1 := Shear(Right11, a), Shear(Right11, b);
    ShearLinear(Left7, a1, b1);
    var a2, b2 := Shear(Left7, a1), Shear(Left7, b1);
    ShearLinear(Left15, a2, b2);
    ShearLinear(Right18, Shear(Left15, a2), Shear(Left15, b2));
  }

  /** The multiplication in the code stands for the standard's conditional constant. */
  lemma TwistIsTransition(a: word, b: word, c: word)
    ensures Twist(a, b, c) == Transition(a, b, c)
  {
    FeedbackCases(Join(a, b));
  }

  lemma TransitionLinear(a: word, b: word, c: word, a': word, b': word, c': word)
    ensures Transition(Xor(a, a'), Xor(b, b'), Xor(c, c'))
         == Xor(Transition(a, b, c), Transition(a', b', c'))
  {
    var s, s' := Join(a, b), Join(a', b');
    JoinXor(a, b, a', b');
    HalfXor(s, s');
    FeedbackXor(s, s');
    XorSwap(c, c', Half(s), Half(s'));
    XorSwap(Xor(c, Half(s)), Xor(c', Half(s')), Feedback(s), Feedback(s'));
    TwistIsTransition(a, b, c);
    TwistIsTransition(a', b', c');
    TwistIsTransition(Xor(a, a'), Xor(b, b'), Xor(c, c'));
  }

  // ----- the transition forgets only the lower 31 bits of its first word

  lemma UntwistWord(s: word)
    ensures Untwist1(Xor(Half(s), if Odd(s) == 1 then MATRIX else 0)) == s
  {}

  lemma UntwistPeel(c: word, x: word, y: word)
    ensures Untwist(Xor(Xor(c, x), y), c) == Untwist1(Xor(x, y))
  {
    XorSandwich(c, x, y);
    XorComm(x, y);
  }

  lemma UntwistTransition(a: word, b: word, c: word)
    ensures Untwist(Transition(a, b, c), c) == Join(a, b)
  {
    var s := Join(a, b);
    var alpha := if Odd(s) == 1 then MATRIX else 0;
    UntwistWord(s);
    UntwistPeel(c, Half(s), alpha);
  }

  lemma JoinParts(a: word, b: word, c: word)
    ensures Join(Join(a, b), Join(c, a)) == a
  {}

  // ----- both word functions in the numbers of mt19937

  lemma ShearLines(z: word)
    ensures Shear(Right11, z) == z ^ (z >> 11)
    ensures Shear(Left7, z) == z ^ ((z << 7) & 0x9d2c5680)
    ensures Shear(Left15, z) == z ^ ((z << 15) & 0xefc60000)
    ensures Shear(Right18, z) == z ^ (z >> 18)
  {
    assert Right11(z) == z >> 11 && Right18(z) == z >> 18;
    assert Left7(z) == (z << 7) & 0x9d2c5680;
    assert Left15(z) == (z << 15) & 0xefc60000;
  }

  /** The four tempering lines of [rand.eng.mers], in numbers. */
  lemma SwizzleTempers(z1: word, z2: word, z3: word, z4: word)
    requires z2 == z1 ^ (z1 >> 11)
    requires z3 == z2 ^ ((z2 << 7) & 0x9d2c5680)
    requires z4 == z3 ^ ((z3 << 15) & 0xefc60000)
    ensures Swizzle(z1) == z4 ^ (z4 >> 18)
  {
    ShearLines(z1);
    ShearLines(z2);
    ShearLines(z3);
    ShearLines(z4);
  }

  /** The images of the 32 single bits; by SwizzleLinear they determine every other. */
  lemma SwizzleImages()
    ensures Swizzle(0x1) == 0x00400091 && Swizzle(0x2) == 0x00000002
    ensures Swizzle(0x4) == 0x01020244 && Swizzle(0x8) == 0x02040489
    ensures Swizzle(0x10) == 0x00000010 && Swizzle(0x20) == 0x08001220
    ensures Swizzle(0x40) == 0x00000040 && Swizzle(0x80) == 0x20404890
    ensures Swizzle(0x100) == 0x00800120 && Swizzle(0x200) == 0x01000240
    ensures Swizzle(0x400) == 0x02000480 && Swizzle(0x800) == 0x04440990
    ensures Swizzle(0x1000) == 0x08081200 && Swizzle(0x2000) == 0x01022244
    ensures Swizzle(0x4000) == 0x22244c81 && Swizzle(0x8000) == 0x40009010
    ensures Swizzle(0x10000) == 0x88013220 && Swizzle(0x20000) == 0x01020000
    ensures Swizzle(0x40000) == 0x20444891 && Swizzle(0x80000) == 0x04880022
    ensures Swizzle(0x100000) == 0x09100044 && Swizzle(0x200000) == 0x12200088
    ensures Swizzle(0x400000) == 0x04440911 && Swizzle(0x800000) == 0x08881222
    ensures Swizzle(0x1000000) == 0x81000040 && Swizzle(0x2000000) == 0x22204888
    ensures Swizzle(0x4000000) == 0x44009100 && Swizzle(0x8000000) == 0x88012200
    ensures Swizzle(0x10000000) == 0x11020440 && Swizzle(0x20000000) == 0x20040801
    ensures Swizzle(0x40000000) == 0x44081102 && Swizzle(0x80000000) == 0x88102204
  {}

  lemma JoinImages(x: word)
    ensures Join(0, 0) == 0 && Half(0) == 0 && Odd(0) == 0
    ensures Join(x & 0x7fffffff, 0) == 0 && Join(0, 0x80000000) == 0
    ensures Join(0x80000000, 0) == 0x80000000 && Half(0x80000000) == 0x40000000 && Odd(0x80000000) == 0
    ensures Join(0, 1) == 1 && Half(1) == 0 && Odd(1) == 1
    ensures var y := x & 0x7ffffffe; Join(0, y) == y && Half(y) == y >> 1 && Odd(y) == 0
  {}

  /** The images of all words in each of the three places; by TransitionLinear they
      determine every other. Of the first word only the top bit counts, of the second all
      the others, and its lowest bit brings in the constant. */
  lemma TransitionImages(x: word)
    ensures Transition(0, 0, x) == x
    ensures Transition(x & 0x7fffffff, 0, 0) == 0 && Transition(0x80000000, 0, 0) == 0x40000000
    ensures Transition(0, x & 0x7ffffffe, 0) == (x & 0x7ffffffe) >> 1
    ensures Transition(0, 1, 0) == 0x9908b0df && Transition(0, 0x80000000, 0) == 0
  {
    JoinImages(x);
    XorSelf(x);
    XorSelf(0);
    XorSelf(0x40000000);
    XorComm(0, 0x40000000);
    XorSelf((x & 0x7ffffffe) >> 1);
    XorComm(0, (x & 0x7ffffffe) >> 1);
    XorComm(0, 0x9908b0df);
    XorSelf(0x9908b0df);
  }
}
