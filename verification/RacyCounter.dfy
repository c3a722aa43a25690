/** The workers of trying_to_break.cc that bump the shared counter with a plain
    load followed by a plain store, under sequentially consistent memory: each
    scheduler choice lets one unfinished thread do its next load or store. */
module RacyCounter {

  /** `done` counts finished iterations; a loaded thread holds the value it read. */
  datatype Thread = Idle(done: nat) | Loaded(done: nat, reg: int)

  datatype State = State(value: int, threads: seq<Thread>)

  function Init(n: nat): State {
    State(0, seq(n, _ => Idle(0)))
  }

  predicate Enabled(s: State, k: nat, t: nat) {
    t < |s.threads| && s.threads[t].done < k
  }

  function Step(s: State, t: nat): State
    requires t < |s.threads|
  {
    match s.threads[t]
    case Idle(d) => s.(threads := s.threads[t := Loaded(d, s.value)])
    case Loaded(d, r) => State(r + 1, s.threads[t := Idle(d + 1)])
  }

  predicate Complete(s: State, k: nat) {
    forall t | 0 <= t < |s.threads| :: s.threads[t] == Idle(k)
  }

  /** `schedule` names, step by step, the thread that moves. */
  ghost predicate Run(s: State, k: nat, schedule: seq<nat>, s': State)
    decreases |schedule|
  {
    if schedule == [] then s' == s
    else Enabled(s, k, schedule[0]) && Run(Step(s, schedule[0]), k, schedule[1..], s')
  }

  ghost predicate Reaches(s: State, k: nat, s': State) {
    exists schedule :: Run(s, k, schedule, s')
  }

  /** Some complete interleaving of n threads doing k increments each prints v. */
  ghost predicate CanEndAt(n: nat, k: nat, v: int) {
    exists s :: Reaches(Init(n), k, s) && Complete(s, k) && s.value == v
  }

  /** The smallest value that can be printed. */
  function Least(n: nat, k: nat): nat {
    if n == 0 || k == 0 then 0
    else if n == 1 then k
    else if k == 1 then 1
    else 2
  }

  /** Iterations still owed by all threads except `skip`
      (by all of them when `skip` is not a thread). */
  function Owed(ts: seq<Thread>, k: nat, skip: nat): int {
    if ts == [] then 0
    else
      var last := |ts| - 1;
      Owed(ts[..last], k, skip) + if last == skip then 0 else k - ts[last].done
  }

  // ----- facts about Owed

  lemma {:induction false} OwedUpdate(ts: seq<Thread>, k: nat, skip: nat, t: nat, x: Thread)
    requires t < |ts|
    ensures Owed(ts[t := x], k, skip)
         == Owed(ts, k, skip) + if t == skip then 0 else ts[t].done - x.done
  {
    var last := |ts| - 1;
    if t == last {
      assert ts[t := x][..last] == ts[..last];
    } else {
      assert ts[t := x][..last] == ts[..last][t := x];
      OwedUpdate(ts[..last], k, skip, t, x);
    }
  }

  lemma {:induction false} OwedInit(n: nat, k: nat, skip: nat)
    ensures Owed(Init(n).threads, k, skip) == if skip < n then (n - 1) * k else n * k
  {
    if n > 0 {
      assert Init(n).threads[..n - 1] == Init(n - 1).threads;
      OwedInit(n - 1, k, skip);
    }
  }

  lemma {:induction false} OwedSign(ts: seq<Thread>, k: nat, skip: nat)
    requires forall t | 0 <= t < |ts| :: ts[t].done <= k
    ensures Owed(ts, k, skip) >= 0
    ensures Owed(ts, k, skip) == 0 <==> forall t | 0 <= t < |ts| && t != skip :: ts[t].done == k
    ensures Owed(ts, k, skip) == Owed(ts, k, |ts|) - if skip < |ts| then k - ts[skip].done else 0
  {
    if ts != [] {
      var last := |ts| - 1;
      OwedSign(ts[..last], k, skip);
      OwedSign(ts[..last], k, last);
      OwedSkipNone(ts[..last], k, |ts|);
    }
  }

  lemma {:induction false} OwedSkipNone(ts: seq<Thread>, k: nat, skip: nat)
    requires skip >= |ts|
    ensures Owed(ts, k, skip) == Owed(ts, k, |ts|)
  {
    if ts != [] {
      var last := |ts| - 1;
      OwedSkipNone(ts[..last], k, skip);
      OwedSkipNone(ts[..last], k, |ts|);
    }
  }

  // ----- every run stays within the bounds

  ghost predicate ThreadInv(s: State, k: nat, t: Thread) {
    && t.done <= k
    && (t.done >= 1 ==> s.value >= 1)
    && (|s.threads| == 1 ==> s.value == t.done)
    && (t.Loaded? ==>
          && t.done < k
          && 0 <= t.reg
          && t.reg + Owed(s.threads, k, |s.threads|) <= |s.threads| * k
          && (t.done >= 1 ==> t.reg >= 1)
          && (|s.threads| == 1 ==> t.reg == t.done))
  }

  ghost predicate Inv(s: State, k: nat) {
    && s.value >= 0
    && s.value + Owed(s.threads, k, |s.threads|) <= |s.threads| * k
    && (forall t | 0 <= t < |s.threads| :: ThreadInv(s, k, s.threads[t]))
    && (|s.threads| >= 1 && k >= 2 && Complete(s, k) ==> s.value >= 2)
  }

  lemma InitInv(n: nat, k: nat)
    ensures Inv(Init(n), k)
  {
    OwedInit(n, k, n);
  }

  lemma StepInv(s: State, k: nat, t: nat)
    requires Inv(s, k) && Enabled(s, k, t)
    ensures Inv(Step(s, t), k)
  {
    var s' := Step(s, t);
    OwedUpdate(s.threads, k, |s.threads|, t, s'.threads[t]);
    assert s'.threads[t] != Idle(k) || s.threads[t].Loaded?;
    assert ThreadInv(s, k, s.threads[t]);
    forall u | 0 <= u < |s'.threads|
      ensures ThreadInv(s', k, s'.threads[u])
    {
      assert ThreadInv(s, k, s.threads[u]);
    }
    if Complete(s', k) {
      assert s'.threads[t] == Idle(k);
    }
  }

  lemma {:induction false} RunInv(s: State, k: nat, schedule: seq<nat>, s': State)
    requires Inv(s, k) && Run(s, k, schedule, s')
    ensures Inv(s', k) && |s'.threads| == |s.threads|
    decreases |schedule|
  {
    if schedule != [] {
      StepInv(s, k, schedule[0]);
      RunInv(Step(s, schedule[0]), k, schedule[1..], s');
    }
  }

  // ----- building runs

  lemma {:induction false} RunConcat(s: State, k: nat, p: seq<nat>, m: State, q: seq<nat>, s': State)
    requires Run(s, k, p, m) && Run(m, k, q, s')
    ensures Run(s, k, p + q, s')
    decreases |p|
  {
    if p == [] {
      assert p + q == q;
    } else {
      assert (p + q)[1..] == p[1..] + q;
      RunConcat(Step(s, p[0]), k, p[1..], m, q, s');
    }
  }

  lemma ReachesTrans(s: State, k: nat, m: State, s': State)
    requires Reaches(s, k, m) && Reaches(m, k, s')
    ensures Reaches(s, k, s')
  {
    var p :| Run(s, k, p, m);
    var q :| Run(m, k, q, s');
    RunConcat(s, k, p, m, q, s');
  }

  lemma ReachesStep(s: State, k: nat, t: nat)
    requires Enabled(s, k, t)
    ensures Reaches(s, k, Step(s, t))
  {
    assert Run(Step(s, t), k, [], Step(s, t));
    assert [t][1..] == [];
    assert Run(s, k, [t], Step(s, t));
  }

  /** All threads but `skip` are between iterations, and none has overrun. */
  predicate Quiet(s: State, k: nat, skip: nat) {
    forall t | 0 <= t < |s.threads| ::
      s.threads[t].done <= k && (t != skip ==> s.threads[t].Idle?)
  }

  /** While `skip` does not move, the others can add exactly `count` to the counter. */
  lemma {:induction false} Advance(s: State, k: nat, skip: nat, count: nat) returns (s': State)
    requires Quiet(s, k, skip) && count <= Owed(s.threads, k, skip)
    ensures Reaches(s, k, s') && Quiet(s', k, skip)
    ensures s'.value == s.value + count
    ensures Owed(s'.threads, k, skip) == Owed(s.threads, k, skip) - count
    ensures |s'.threads| == |s.threads|
    ensures skip < |s.threads| ==> s'.threads[skip] == s.threads[skip]
    decreases count
  {
    if count == 0 {
      s' := s;
      assert Run(s, k, [], s);
    } else {
      OwedSign(s.threads, k, skip);
      var t: nat :| t < |s.threads| && t != skip && s.threads[t].done != k;
      var a := Step(s, t);
      var b := Step(a, t);
      ReachesStep(s, k, t);
      ReachesStep(a, k, t);
      ReachesTrans(s, k, a, b);
      assert b.threads == s.threads[t := Idle(s.threads[t].done + 1)];
      OwedUpdate(s.threads, k, skip, t, b.threads[t]);
      s' := Advance(b, k, skip, count - 1);
      ReachesTrans(s, k, b, s');
    }
  }

  lemma QuietComplete(s: State, k: nat)
    requires Quiet(s, k, |s.threads|) && Owed(s.threads, k, |s.threads|) == 0
    ensures Complete(s, k)
  {
    OwedSign(s.threads, k, |s.threads|);
  }

  /** Thread 0 reads 0, the others get `lost` increments in, and thread 0 then
      writes 1 over them. */
  lemma Overwrite(n: nat, k: nat, lost: nat) returns (s: State)
    requires n >= 1 && k >= 1 && lost <= (n - 1) * k
    ensures Reaches(Init(n), k, s) && Quiet(s, k, n)
    ensures |s.threads| == n && s.value == 1 && s.threads[0] == Idle(1)
    ensures Owed(s.threads, k, 0) == (n - 1) * k - lost
  {
    var s0 := Init(n);
    var s1 := Step(s0, 0);
    ReachesStep(s0, k, 0);
    OwedInit(n, k, 0);
    OwedUpdate(s0.threads, k, 0, 0, s1.threads[0]);
    var s2 := Advance(s1, k, 0, lost);
    s := Step(s2, 0);
    ReachesStep(s2, k, 0);
    OwedUpdate(s2.threads, k, 0, 0, s.threads[0]);
    ReachesTrans(s0, k, s1, s2);
    ReachesTrans(s0, k, s2, s);
  }

  /** Every total from k to n*k is attained: overwrite once, then run undisturbed. */
  lemma LoseMany(n: nat, k: nat, lost: nat)
    requires n >= 1 && k >= 1 && lost <= (n - 1) * k
    ensures CanEndAt(n, k, (n - 1) * k - lost + k)
  {
    var s := Overwrite(n, k, lost);
    OwedSign(s.threads, k, 0);
    var s' := Advance(s, k, n, (n - 1) * k - lost + k - 1);
    QuietComplete(s', k);
    ReachesTrans(Init(n), k, s, s');
  }

  /** With one iteration left to it, thread x reads after `extra` further increments,
      waits for everybody else to finish, and writes that reading plus one. */
  lemma WriteLast(s: State, k: nat, x: nat, extra: nat) returns (s': State)
    requires k >= 1 && x < |s.threads| && s.threads[x] == Idle(k - 1)
    requires Quiet(s, k, x) && extra <= Owed(s.threads, k, x)
    ensures Reaches(s, k, s') && Complete(s', k) && s'.value == s.value + extra + 1
  {
    var s1 := Advance(s, k, x, extra);
    var s2 := Step(s1, x);
    ReachesStep(s1, k, x);
    OwedUpdate(s1.threads, k, x, x, s2.threads[x]);
    var s3 := Advance(s2, k, x, Owed(s2.threads, k, x));
    s' := Step(s3, x);
    ReachesStep(s3, k, x);
    FinishLast(s3, k, x);
    ReachesTrans(s, k, s1, s2);
    ReachesTrans(s, k, s2, s3);
    ReachesTrans(s, k, s3, s');
  }

  /** Overwrite until one iteration is left besides thread 0's, and let that one write last. */
  lemma LoseNearlyAll(n: nat, k: nat, extra: nat)
    requires n >= 2 && k >= 2 && extra <= k - 1
    ensures CanEndAt(n, k, 2 + extra)
  {
    assert (n - 1) * k >= k;
    var s := Overwrite(n, k, (n - 1) * k - 1);
    var x := LastUnfinished(s, k);
    var s' := WriteLast(s, k, x, extra);
    ReachesTrans(Init(n), k, s, s');
  }

  lemma LastUnfinished(s: State, k: nat) returns (x: nat)
    requires k >= 1 && Quiet(s, k, |s.threads|) && Owed(s.threads, k, 0) == 1
    requires |s.threads| >= 2 && s.threads[0].done == 1
    ensures 0 < x < |s.threads| && s.threads[x] == Idle(k - 1)
    ensures Owed(s.threads, k, x) == k - 1
  {
    OwedSign(s.threads, k, 0);
    x :| 0 < x < |s.threads| && s.threads[x].done != k;
    OwedSign(s.threads, k, x);
    var ts := s.threads[x := Idle(s.threads[x].done + 1)];
    OwedUpdate(s.threads, k, 0, x, ts[x]);
    OwedSign(ts, k, 0);
    assert ts[x].done == k;
  }

  lemma FinishLast(s: State, k: nat, x: nat)
    requires x < |s.threads| && s.threads[x].Loaded? && s.threads[x].done + 1 == k
    requires Quiet(s, k, x) && Owed(s.threads, k, x) == 0
    ensures Complete(Step(s, x), k)
  {
    OwedSign(s.threads, k, x);
  }

  /** Exactly the totals between Least(n, k) and n*k can be printed. In particular
      two or more threads with two or more attempts each can end as low as 2. */
  lemma FinalValues(n: nat, k: nat, v: int)
    ensures CanEndAt(n, k, v) <==> Least(n, k) <= v <= n * k
  {
    if CanEndAt(n, k, v) {
      var s :| Reaches(Init(n), k, s) && Complete(s, k) && s.value == v;
      var p :| Run(Init(n), k, p, s);
      InitInv(n, k);
      RunInv(Init(n), k, p, s);
      OwedSign(s.threads, k, |s.threads|);
      if n > 0 { assert ThreadInv(s, k, s.threads[0]); }
    }
    if Least(n, k) <= v <= n * k {
      if n == 0 || k == 0 {
        assert Run(Init(n), k, [], Init(n));
      } else if v >= k {
        assert n * k == (n - 1) * k + k;
        LoseMany(n, k, n * k - v);
      } else {
        LoseNearlyAll(n, k, v - 2);
      }
    }
  }
}
