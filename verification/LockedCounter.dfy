/** Iterations finished by a group of workers, thread by thread. */
module Tally {

  function Sum(done: seq<nat>): nat {
    if done == [] then 0 else Sum(done[..|done| - 1]) + done[|done| - 1]
  }

  lemma {:induction false} SumUpdate(done: seq<nat>, t: nat, x: nat)
    requires t < |done|
    ensures Sum(done[t := x]) == Sum(done) - done[t] + x
  {
    var last := |done| - 1;
    if t == last {
      assert done[t := x][..last] == done[..last];
    } else {
      assert done[t := x][..last] == done[..last][t := x];
      SumUpdate(done[..last], t, x);
    }
  }

  /** The total is at most n*k, and reaches it only when every thread has finished. */
  lemma {:induction false} SumBound(done: seq<nat>, k: nat)
    requires forall t | 0 <= t < |done| :: done[t] <= k
    ensures Sum(done) <= |done| * k
    ensures Sum(done) == |done| * k <==> forall t | 0 <= t < |done| :: done[t] == k
  {
    if done != [] {
      var last := |done| - 1;
      SumBound(done[..last], k);
      assert |done| * k == last * k + k;
    }
  }

  lemma {:induction false} SumZero(n: nat)
    ensures Sum(seq(n, _ => 0)) == 0
  {
    if n > 0 {
      assert seq(n, _ => 0)[..n - 1] == seq(n - 1, _ => 0);
      SumZero(n - 1);
    }
  }
}

/** mutex_worker of trying_to_break.cc: lock, load, store, unlock. */
module MutexCounter {
  import opened Tally

  datatype Phase = Outside | Entered | Loaded(reg: int) | Stored

  datatype Holder = Free | Held(owner: nat)

  /** `done[t]` counts the iterations thread t has unlocked after. */
  datatype State = State(value: int, holder: Holder, done: seq<nat>, phase: seq<Phase>)

  function Init(n: nat): State {
    State(0, Free, seq(n, _ => 0), seq(n, _ => Outside))
  }

  predicate Shaped(s: State) {
    |s.done| == |s.phase|
  }

  /** A thread outside waits for the lock; nothing else blocks. */
  predicate Enabled(s: State, k: nat, t: nat)
    requires Shaped(s)
  {
    t < |s.done| && s.done[t] < k && (s.phase[t].Outside? ==> s.holder.Free?)
  }

  function Step(s: State, t: nat): (s': State)
    requires Shaped(s) && t < |s.done|
    ensures Shaped(s') && |s'.done| == |s.done|
  {
    match s.phase[t]
    case Outside => s.(holder := Held(t), phase := s.phase[t := Entered])
    case Entered => s.(phase := s.phase[t := Loaded(s.value)])
    case Loaded(r) => s.(value := r + 1, phase := s.phase[t := Stored])
    case Stored => s.(holder := Free, done := s.done[t := s.done[t] + 1], phase := s.phase[t := Outside])
  }

  ghost predicate Run(s: State, k: nat, schedule: seq<nat>, s': State)
    requires Shaped(s)
    decreases |schedule|
  {
    if schedule == [] then s' == s
    else Enabled(s, k, schedule[0]) && Run(Step(s, schedule[0]), k, schedule[1..], s')
  }

  predicate Complete(s: State, k: nat)
    requires Shaped(s)
  {
    forall t | 0 <= t < |s.done| :: s.done[t] == k && s.phase[t].Outside?
  }

  /** At most one thread is between lock and unlock. */
  ghost predicate MutualExclusion(s: State)
    requires Shaped(s)
  {
    forall t, u | 0 <= t < |s.done| && 0 <= u < |s.done| ::
      !s.phase[t].Outside? && !s.phase[u].Outside? ==> t == u
  }

  function Progress(p: Phase): nat {
    match p
    case Outside => 0
    case Entered => 1
    case Loaded(_) => 2
    case Stored => 3
  }

  function HolderPhase(s: State): Phase
    requires Shaped(s)
  {
    if s.holder.Held? && s.holder.owner < |s.phase| then s.phase[s.holder.owner] else Outside
  }

  /** Steps taken so far: four per finished iteration, plus the holder's. */
  function Steps(s: State): nat
    requires Shaped(s)
  {
    4 * Sum(s.done) + Progress(HolderPhase(s))
  }

  ghost predicate Inv(s: State, k: nat) {
    && Shaped(s)
    && (s.holder.Held? ==> s.holder.owner < |s.done| && !s.phase[s.holder.owner].Outside?)
    && (forall t | 0 <= t < |s.done| ::
          && s.done[t] <= k
          && (!s.phase[t].Outside? ==> s.holder == Held(t) && s.done[t] < k)
          && (s.phase[t].Loaded? ==> s.phase[t].reg == s.value))
    && s.value == Sum(s.done) + if HolderPhase(s).Stored? then 1 else 0
  }

  lemma StepInv(s: State, k: nat, t: nat)
    requires Inv(s, k) && Enabled(s, k, t)
    ensures Inv(Step(s, t), k)
    ensures Steps(Step(s, t)) == Steps(s) + 1
  {
    SumUpdate(s.done, t, s.done[t] + 1);
    var s' := Step(s, t);
    assert s.phase[t].Outside? || s.holder == Held(t);
    assert HolderPhase(s') == s'.phase[t];
  }

  lemma {:induction false} RunInv(s: State, k: nat, schedule: seq<nat>, s': State)
    requires Inv(s, k) && Run(s, k, schedule, s')
    ensures Inv(s', k) && |s'.done| == |s.done|
    ensures Steps(s') == Steps(s) + |schedule|
    decreases |schedule|
  {
    if schedule != [] {
      StepInv(s, k, schedule[0]);
      RunInv(Step(s, schedule[0]), k, schedule[1..], s');
    }
  }

  /** No deadlock: as long as some thread is unfinished, some unfinished thread can move. */
  lemma NoDeadlock(s: State, k: nat)
    requires Inv(s, k) && !Complete(s, k)
    ensures exists t: nat :: Enabled(s, k, t)
  {
    if s.holder.Held? {
      assert Enabled(s, k, s.holder.owner);
    } else {
      var t: nat :| t < |s.done| && !(s.done[t] == k && s.phase[t].Outside?);
      assert Enabled(s, k, t);
    }
  }

  lemma CompleteTotal(s: State, k: nat)
    requires Inv(s, k)
    ensures Steps(s) <= 4 * (|s.done| * k)
    ensures Complete(s, k) <==> Steps(s) == 4 * (|s.done| * k)
    ensures Complete(s, k) ==> s.value == |s.done| * k
  {
    SumBound(s.done, k);
    if s.holder.Held? {
      assert s.done[s.holder.owner] != k;
    }
  }

  /** Over every run of n workers doing k iterations: the lock excludes, no reachable
      state is stuck, and the run is over exactly after 4*n*k steps, with total n*k. */
  lemma MutexRuns(n: nat, k: nat, schedule: seq<nat>, s: State)
    requires Run(Init(n), k, schedule, s)
    ensures Shaped(s) && MutualExclusion(s)
    ensures |schedule| <= 4 * (n * k)
    ensures Complete(s, k) <==> |schedule| == 4 * (n * k)
    ensures Complete(s, k) <==> !exists t: nat :: Enabled(s, k, t)
    ensures Complete(s, k) ==> s.value == n * k
  {
    SumZero(n);
    RunInv(Init(n), k, schedule, s);
    CompleteTotal(s, k);
    if !Complete(s, k) {
      NoDeadlock(s, k);
    }
  }
}

/** atomic_worker of trying_to_break.cc: one indivisible add per iteration. */
module AtomicCounter {
  import opened Tally

  datatype State = State(value: int, done: seq<nat>)

  function Init(n: nat): State {
    State(0, seq(n, _ => 0))
  }

  predicate Enabled(s: State, k: nat, t: nat) {
    t < |s.done| && s.done[t] < k
  }

  function Step(s: State, t: nat): State
    requires t < |s.done|
  {
    State(s.value + 1, s.done[t := s.done[t] + 1])
  }

  ghost predicate Run(s: State, k: nat, schedule: seq<nat>, s': State)
    decreases |schedule|
  {
    if schedule == [] then s' == s
    else Enabled(s, k, schedule[0]) && Run(Step(s, schedule[0]), k, schedule[1..], s')
  }

  lemma {:induction false} RunInv(s: State, k: nat, schedule: seq<nat>, s': State)
    requires Run(s, k, schedule, s') && s.value == Sum(s.done)
    requires forall t | 0 <= t < |s.done| :: s.done[t] <= k
    ensures s'.value == Sum(s'.done) == s.value + |schedule|
    ensures |s'.done| == |s.done| && forall t | 0 <= t < |s'.done| :: s'.done[t] <= k
    decreases |schedule|
  {
    if schedule != [] {
      var t := schedule[0];
      SumUpdate(s.done, t, s.done[t] + 1);
      RunInv(Step(s, t), k, schedule[1..], s');
    }
  }

  /** At every point of every run the counter equals the number of increments done,
      and a run that cannot be extended has reached n*k. */
  lemma AtomicRuns(n: nat, k: nat, schedule: seq<nat>, s: State)
    requires Run(Init(n), k, schedule, s)
    ensures s.value == |schedule| <= n * k
    ensures (!exists t: nat :: Enabled(s, k, t)) <==> s.value == n * k
  {
    SumZero(n);
    RunInv(Init(n), k, schedule, s);
    SumBound(s.done, k);
    if t: nat :| Enabled(s, k, t) {
      assert s.done[t] != k;
    } else {
      forall t | 0 <= t < |s.done|
        ensures s.done[t] == k
      {
        assert !Enabled(s, k, t);
      }
    }
  }
}
