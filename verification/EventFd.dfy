/** The parent and child of eventfd/simple.cc around a non-blocking eventfd. The child
    writes the numbers it draws; the parent alternates waitpid and read until it sees
    the child dead, and then reads once more. */
module EventFd {
  import opened MachineInts

  const UINT32 := 0x1_0000_0000
  const COUNTER_MAX := UINT64 - 2  // largest value an eventfd counter can hold

  datatype Phase = Wait | Read(dead: bool) | Pump | Done

  datatype State = State(
    counter: nat,                                             // in the kernel
    written: nat, childSum: nat, failed: bool, exited: bool,  // child
    phase: Phase, fetches: nat, parentSum: nat)                // parent

  datatype Actor = Child | Parent

  const INIT := State(0, 0, 0, false, false, Wait, 0, 0)

  /** The numbers the child can draw: rand() % max_rand, below RAND_MAX + 1 = 2^31, and
      loop_count of them, an unsigned int. */
  ghost predicate Draws(us: seq<nat>) {
    |us| <= 0xffff_ffff && forall i | 0 <= i < |us| :: us[i] <= 0x7fff_ffff
  }

  predicate Enabled(s: State, a: Actor) {
    match a
    case Child => !s.exited && !s.failed
    case Parent => !s.phase.Done?
  }

  /** A write that would take the counter past its maximum fails, and the child aborts. */
  function ChildStep(us: seq<nat>, s: State): State {
    if s.written >= |us| then s.(exited := true)
    else
      var u := us[s.written];
      if s.counter + u > COUNTER_MAX then s.(failed := true)
      else s.(counter := s.counter + u, written := s.written + 1, childSum := (s.childSum + u) % UINT64)
  }

  /** A read of a zero counter fails with EAGAIN; any other fetches and clears it. */
  function ReadCounter(s: State): State {
    if s.counter == 0 then s
    else s.(counter := 0, fetches := (s.fetches + 1) % UINT32, parentSum := (s.parentSum + s.counter) % UINT64)
  }

  function ParentStep(s: State): State {
    match s.phase
    case Wait => s.(phase := Read(s.exited || s.failed))  // waitpid
    case Read(dead) => ReadCounter(s).(phase := if dead then Pump else Wait)
    case Pump => ReadCounter(s).(phase := Done)
    case Done => s
  }

  function Step(us: seq<nat>, s: State, a: Actor): State {
    if a.Child? then ChildStep(us, s) else ParentStep(s)
  }

  ghost predicate Run(us: seq<nat>, s: State, schedule: seq<Actor>, s': State)
    decreases |schedule|
  {
    if schedule == [] then s' == s
    else Enabled(s, schedule[0]) && Run(us, Step(us, s, schedule[0]), schedule[1..], s')
  }

  ghost predicate Reaches(us: seq<nat>, s: State, s': State) {
    exists schedule :: Run(us, s, schedule, s')
  }

  function Total(us: seq<nat>, n: nat): nat
    requires n <= |us|
  {
    if n == 0 then 0 else Total(us, n - 1) + us[n - 1]
  }

  function Nonzero(us: seq<nat>, n: nat): nat
    requires n <= |us|
  {
    if n == 0 then 0 else Nonzero(us, n - 1) + if us[n - 1] > 0 then 1 else 0
  }

  // ----- every run

  lemma {:induction false} TotalBound(us: seq<nat>, n: nat)
    requires Draws(us) && n <= |us|
    ensures Total(us, n) <= n * 0x7fff_ffff < COUNTER_MAX - 0x7fff_ffff
    ensures Nonzero(us, n) <= n
    ensures Total(us, n) == 0 <==> Nonzero(us, n) == 0
  {
    if n > 0 { TotalBound(us, n - 1); }
  }

  /** Nothing is lost or invented on the way, and the parent has read at most once per
      nonzero write that is no longer in the counter. */
  ghost predicate Inv(us: seq<nat>, s: State) {
    && s.written <= |us| && !s.failed
    && s.childSum == Total(us, s.written) == s.counter + s.parentSum
    && s.fetches + (if s.counter > 0 then 1 else 0) <= Nonzero(us, s.written)
    && (s.parentSum > 0 ==> s.fetches >= 1)
    && (s.exited ==> s.written == |us|)
    && (s.phase == Read(true) ==> s.exited)
    && (s.phase.Pump? || s.phase.Done? ==> s.exited && s.counter == 0)
  }

  lemma ChildInv(us: seq<nat>, s: State)
    requires Draws(us) && Inv(us, s) && Enabled(s, Child)
    ensures Inv(us, ChildStep(us, s))
  {
    TotalBound(us, s.written);
    if s.written < |us| { TotalBound(us, s.written + 1); }
  }

  lemma ParentInv(us: seq<nat>, s: State)
    requires Draws(us) && Inv(us, s)
    ensures Inv(us, ParentStep(s))
  {
    TotalBound(us, s.written);
  }

  lemma StepInv(us: seq<nat>, s: State, a: Actor)
    requires Draws(us) && Inv(us, s) && Enabled(s, a)
    ensures Inv(us, Step(us, s, a))
  {
    if a.Child? { ChildInv(us, s); } else { ParentInv(us, s); }
  }

  lemma {:induction false} RunInv(us: seq<nat>, s: State, schedule: seq<Actor>, s': State)
    requires Draws(us) && Inv(us, s) && Run(us, s, schedule, s')
    ensures Inv(us, s')
    decreases |schedule|
  {
    if schedule != [] {
      StepInv(us, s, schedule[0]);
      RunInv(us, Step(us, s, schedule[0]), schedule[1..], s');
    }
  }

  /** At every point of every run, for every draw the program can make: no write is
      refused, the child's sum is the counter plus the parent's sum, reads never outnumber
      nonzero writes, and the last read finds the counter empty; at exit the sums agree. */
  lemma HandOff(us: seq<nat>, schedule: seq<Actor>, s: State)
    requires Draws(us) && Run(us, INIT, schedule, s)
    ensures !s.failed && s.written <= |us|
    ensures s.childSum == s.counter + s.parentSum
    ensures s.fetches <= Nonzero(us, s.written)
    ensures s.phase.Pump? ==> s.counter == 0
    ensures s.phase.Done? ==> s.parentSum == s.childSum == Total(us, |us|)
  {
    RunInv(us, INIT, schedule, s);
  }

  // ----- numbers of any size

  /** The sums agree modulo 2^64, and the parent stops only after the child. */
  ghost predicate Congruent(us: seq<nat>, s: State) {
    && s.written <= |us|
    && s.childSum == Total(us, s.written) % 0x1_0000_0000_0000_0000
    && s.childSum == (s.counter + s.parentSum) % 0x1_0000_0000_0000_0000
    && 0 <= s.parentSum < 0x1_0000_0000_0000_0000
    && (s.phase == Read(true) ==> s.exited || s.failed)
    && (s.phase.Pump? || s.phase.Done? ==> (s.exited || s.failed) && s.counter == 0)
    && (s.exited ==> s.written == |us|)
  }

  lemma ModAdd(a: int, b: int)
    ensures (a % UINT64 + b) % UINT64 == (a + b) % UINT64
  {
    var k := a / UINT64;
    assert a == UINT64 * k + a % UINT64;
  }

  lemma ChildCongruent(us: seq<nat>, s: State)
    requires Congruent(us, s) && Enabled(s, Child)
    ensures Congruent(us, ChildStep(us, s))
  {
    if s.written < |us| {
      ModAdd(Total(us, s.written), us[s.written]);
      ModAdd(s.counter + s.parentSum, us[s.written]);
    }
  }

  lemma ParentCongruent(us: seq<nat>, s: State)
    requires Congruent(us, s)
    ensures Congruent(us, ParentStep(s))
  {
    ModAdd(s.parentSum + s.counter, 0);
  }

  lemma {:induction false} RunCongruent(us: seq<nat>, s: State, schedule: seq<Actor>, s': State)
    requires Congruent(us, s) && Run(us, s, schedule, s')
    ensures Congruent(us, s')
    decreases |schedule|
  {
    if schedule != [] {
      if schedule[0].Child? { ChildCongruent(us, s); } else { ParentCongruent(us, s); }
      RunCongruent(us, Step(us, s, schedule[0]), schedule[1..], s');
    }
  }

  /** Whatever the child tries to write, refused or not: its sum is that of the numbers
      written, modulo 2^64, and in the end the parent prints the same. */
  lemma SumsAgree(us: seq<nat>, schedule: seq<Actor>, s: State)
    requires Run(us, INIT, schedule, s)
    ensures s.written <= |us| && s.childSum == Total(us, s.written) % 0x1_0000_0000_0000_0000
    ensures s.phase.Done? ==> s.parentSum == s.childSum && (s.failed || s.written == |us|)
  {
    RunCongruent(us, INIT, schedule, s);
  }

  /** The counter holds no more than was written, and a refused write was one too many. */
  ghost predicate Bounded(us: seq<nat>, s: State) {
    && s.written <= |us| && s.counter <= Total(us, s.written)
    && (s.failed ==> Total(us, |us|) > 0xffff_ffff_ffff_fffe)
  }

  lemma {:induction false} RunBounded(us: seq<nat>, s: State, schedule: seq<Actor>, s': State)
    requires Bounded(us, s) && Run(us, s, schedule, s')
    ensures Bounded(us, s')
    decreases |schedule|
  {
    if schedule != [] {
      if s.written < |us| { Remaining(us, s.written + 1); }
      RunBounded(us, Step(us, s, schedule[0]), schedule[1..], s');
    }
  }

  /** The child alone, with nobody reading. */
  lemma {:induction false} ChildAlone(us: seq<nat>, s: State) returns (s': State)
    requires s.written <= |us| && !s.exited && !s.failed
    requires s.counter == Total(us, s.written) <= 0xffff_ffff_ffff_fffe < Total(us, |us|)
    ensures Reaches(us, s, s') && s'.failed
    decreases |us| - s.written
  {
    var a := Step(us, s, Child);
    if a.failed {
      s' := a;
      ReachesSelf(us, s');
    } else {
      s' := ChildAlone(us, a);
    }
    ReachesAfter(us, s, Child, s');
  }

  /** Some run refuses a write exactly when all the numbers together exceed 2^64 - 2. */
  lemma RefusedIff(us: seq<nat>)
    ensures (exists s :: Reaches(us, INIT, s) && s.failed) <==> Total(us, |us|) > 0xffff_ffff_ffff_fffe
  {
    if s :| Reaches(us, INIT, s) && s.failed {
      var schedule :| Run(us, INIT, schedule, s);
      RunBounded(us, INIT, schedule, s);
    }
    if Total(us, |us|) > 0xffff_ffff_ffff_fffe {
      var s := ChildAlone(us, INIT);
    }
  }

  // ----- which read counts are possible

  /** One step in front of a run. */
  lemma ReachesAfter(us: seq<nat>, s: State, a: Actor, s': State)
    requires Enabled(s, a) && Reaches(us, Step(us, s, a), s')
    ensures Reaches(us, s, s')
  {
    var q :| Run(us, Step(us, s, a), q, s');
    assert ([a] + q)[1..] == q;
    assert Run(us, s, [a] + q, s');
  }

  lemma ReachesSelf(us: seq<nat>, s: State)
    ensures Reaches(us, s, s)
  {
    assert Run(us, s, [], s);
  }

  /** The parent lets the child finish and then reads what has piled up, in one go. */
  lemma {:induction false} ReadTheRest(us: seq<nat>, s: State) returns (s': State)
    requires Draws(us) && Inv(us, s) && s.phase.Wait?
    ensures Reaches(us, s, s') && s'.phase.Done?
    ensures s'.fetches == s.fetches + if s.counter + (Total(us, |us|) - Total(us, s.written)) > 0 then 1 else 0
    decreases |us| - s.written, !s.exited
  {
    if !s.exited {
      StepInv(us, s, Child);
      s' := ReadTheRest(us, Step(us, s, Child));
      ReachesAfter(us, s, Child, s');
    } else {
      TotalBound(us, s.written);
      var a := Step(us, s, Parent);
      var b := Step(us, a, Parent);
      s' := Step(us, b, Parent);
      ReachesSelf(us, s');
      ReachesAfter(us, b, Parent, s');
      ReachesAfter(us, a, Parent, s');
      ReachesAfter(us, s, Parent, s');
    }
  }

  lemma FetchOnce(us: seq<nat>, s: State)
    requires Draws(us) && Inv(us, s) && s.phase.Wait? && s.counter > 0 && !s.exited
    ensures var s' := ParentStep(ParentStep(s));
      && Inv(us, s') && s'.phase.Wait? && s'.counter == 0 && !s'.exited
      && s'.written == s.written && s'.fetches == s.fetches + 1
  {
    ParentInv(us, s);
    ParentInv(us, ParentStep(s));
    TotalBound(us, s.written);
  }

  /** The parent reads after each of the next c - 1 nonzero writes, then once at the end. */
  lemma {:induction false} ReadSome(us: seq<nat>, s: State, c: nat) returns (s': State)
    requires Draws(us) && Inv(us, s) && s.phase.Wait? && s.counter == 0 && !s.exited
    requires 1 <= c <= Nonzero(us, |us|) - Nonzero(us, s.written)
    ensures Reaches(us, s, s') && s'.phase.Done? && s'.fetches == s.fetches + c
    decreases |us| - s.written
  {
    StepInv(us, s, Child);
    var a := Step(us, s, Child);
    if c == 1 {
      Remaining(us, s.written);
      s' := ReadTheRest(us, s);
    } else if a.counter == 0 {
      s' := ReadSome(us, a, c);
      ReachesAfter(us, s, Child, s');
    } else {
      FetchOnce(us, a);
      var b := Step(us, a, Parent);
      s' := ReadSome(us, Step(us, b, Parent), c - 1);
      ReachesAfter(us, b, Parent, s');
      ReachesAfter(us, a, Parent, s');
      ReachesAfter(us, s, Child, s');
    }
  }

  lemma {:induction false} Remaining(us: seq<nat>, n: nat)
    requires n <= |us|
    ensures Total(us, n) <= Total(us, |us|) && Nonzero(us, n) <= Nonzero(us, |us|)
    ensures Total(us, n) < Total(us, |us|) <==> Nonzero(us, n) < Nonzero(us, |us|)
    decreases |us| - n
  {
    if n < |us| { Remaining(us, n + 1); }
  }

  ghost predicate CanRead(us: seq<nat>, c: nat) {
    exists s :: Reaches(us, INIT, s) && s.phase.Done? && s.fetches == c
  }

  lemma ReadAtMost(us: seq<nat>, c: nat)
    requires Draws(us) && CanRead(us, c)
    ensures if Nonzero(us, |us|) == 0 then c == 0 else 1 <= c <= Nonzero(us, |us|)
  {
    TotalBound(us, |us|);
    var s :| Reaches(us, INIT, s) && s.phase.Done? && s.fetches == c;
    var schedule :| Run(us, INIT, schedule, s);
    RunInv(us, INIT, schedule, s);
  }

  /** The parent may see any number of wakeups from one up to the number of nonzero
      writes, and none at all exactly when every write was zero. */
  lemma ReadCounts(us: seq<nat>, c: nat)
    requires Draws(us)
    ensures CanRead(us, c) <==>
      if Nonzero(us, |us|) == 0 then c == 0 else 1 <= c <= Nonzero(us, |us|)
  {
    if CanRead(us, c) {
      ReadAtMost(us, c);
    } else if Nonzero(us, |us|) == 0 {
      TotalBound(us, |us|);
      var s := ReadTheRest(us, INIT);
    } else if 1 <= c <= Nonzero(us, |us|) {
      var s := ReadSome(us, INIT, c);
    }
  }
}
