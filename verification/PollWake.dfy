/** Sleeping and waking in mod_poll.c. A poller registers on the wait queue and then
    samples the state; WAKE and RESET store the state and then wake the queue. The two
    orders are parameters, so that both can be shown to matter. */
module PollWake {

  /** Which half each side does first. */
  datatype Order = Order(registerFirst: bool, storeFirst: bool)

  /** The order of mod_poll.c. */
  const SOURCE := Order(true, true)

  /** A poller asleep with `woken` set is about to look again; without it, it stays.
      Everybody but Away and Sampled is on the wait queue. */
  datatype Poller =
    | Away
    | Registered(woken: bool)  // on the queue, state not sampled yet
    | Sampled                  // read 0 before getting on the queue
    | Asleep(woken: bool)      // on the queue, read 0

  /** IOCTL_EPOLL_WAKE stores POLLIN (true), IOCTL_EPOLL_RESET stores 0 (false). */
  datatype Caller = Idle | Half(value: bool)

  datatype State = State(ready: bool, pollers: seq<Poller>, callers: seq<Caller>)

  datatype Action = Poll(p: nat) | Ioctl(c: nat, value: bool)

  function Init(pollers: nat, callers: nat): State {
    State(false, seq(pollers, _ => Away), seq(callers, _ => Idle))
  }

  predicate Enabled(s: State, a: Action) {
    match a
    case Poll(p) => p < |s.pollers| && s.pollers[p] != Asleep(false)
    case Ioctl(c, value) => c < |s.callers| && (s.callers[c].Half? ==> s.callers[c].value == value)
  }

  function PollStep(o: Order, ready: bool, p: Poller): Poller {
    match p
    case Away => if o.registerFirst then Registered(false) else if ready then Away else Sampled
    case Registered(w) => if ready then Away else Asleep(w)
    case Sampled => Asleep(false)
    case Asleep(_) => Registered(false)
  }

  function Wake(p: Poller): Poller {
    if p.Registered? || p.Asleep? then p.(woken := true) else p
  }

  function WakeUpAll(pollers: seq<Poller>): (r: seq<Poller>)
    ensures |r| == |pollers| && forall p | 0 <= p < |r| :: r[p] == Wake(pollers[p])
  {
    seq(|pollers|, p requires 0 <= p < |pollers| => Wake(pollers[p]))
  }

  function Step(o: Order, s: State, a: Action): State
    requires Enabled(s, a)
  {
    match a
    case Poll(p) => s.(pollers := s.pollers[p := PollStep(o, s.ready, s.pollers[p])])
    case Ioctl(c, value) =>
      var first := s.callers[c].Idle?;
      var s' := s.(callers := s.callers[c := if first then Half(value) else Idle]);
      if first == o.storeFirst then s'.(ready := value) else s'.(pollers := WakeUpAll(s.pollers))
  }

  ghost predicate Run(o: Order, s: State, run: seq<Action>, s': State)
    decreases |run|
  {
    if run == [] then s' == s
    else Enabled(s, run[0]) && Run(o, Step(o, s, run[0]), run[1..], s')
  }

  ghost predicate Reachable(o: Order, s: State) {
    exists pollers, callers, run :: Run(o, Init(pollers, callers), run, s)
  }

  /** Somebody sleeps on although the state is POLLIN and no call is about to wake them. */
  ghost predicate LostWakeup(s: State) {
    && s.ready
    && (exists p: nat :: p < |s.pollers| && s.pollers[p] == Asleep(false))
    && (forall c | 0 <= c < |s.callers| :: s.callers[c].Idle?)
  }

  // ----- the order of the source never loses a wakeup

  ghost predicate WakePending(s: State) {
    exists c: nat :: c < |s.callers| && s.callers[c] == Half(true)
  }

  ghost predicate Inv(s: State) {
    && (forall p | 0 <= p < |s.pollers| :: s.pollers[p] != Sampled)
    && (s.ready && (exists p: nat :: p < |s.pollers| && s.pollers[p] == Asleep(false)) ==> WakePending(s))
  }

  lemma StepInv(s: State, a: Action)
    requires Inv(s) && Enabled(s, a)
    ensures Inv(Step(SOURCE, s, a))
  {
    var s' := Step(SOURCE, s, a);
    if p: nat :| p < |s'.pollers| && s'.pollers[p] == Asleep(false) && s'.ready {
      match a
      case Poll(q) =>
        assert p != q;
        assert s.pollers[p] == Asleep(false);
        var c: nat :| c < |s.callers| && s.callers[c] == Half(true);
        assert s'.callers[c] == Half(true);
      case Ioctl(c, value) =>
        if s.callers[c].Idle? {
          assert s'.callers[c] == Half(true);
        }
    }
  }

  lemma {:induction false} RunInv(s: State, run: seq<Action>, s': State)
    requires Inv(s) && Run(SOURCE, s, run, s')
    ensures Inv(s')
    decreases |run|
  {
    if run != [] {
      StepInv(s, run[0]);
      RunInv(Step(SOURCE, s, run[0]), run[1..], s');
    }
  }

  /** In every reachable state, an unwoken sleeper with the state at POLLIN means that
      some WAKE has stored but not yet woken the queue. */
  lemma NoLostWakeup(s: State, p: nat)
    requires Reachable(SOURCE, s) && p < |s.pollers| && s.pollers[p] == Asleep(false) && s.ready
    ensures WakePending(s)
  {
    var n, m, run :| Run(SOURCE, Init(n, m), run, s);
    RunInv(Init(n, m), run, s);
  }

  // ----- and it is the only order of the four that does not

  /** One action in front of a run. */
  lemma RunAfter(o: Order, s: State, a: Action, run: seq<Action>, s': State)
    requires Enabled(s, a) && Run(o, Step(o, s, a), run, s')
    ensures Run(o, s, [a] + run, s')
  {
    assert ([a] + run)[1..] == run;
  }

  lemma RunFour(o: Order, s: State, a: Action, b: Action, c: Action, d: Action)
    requires Enabled(s, a)
    requires Enabled(Step(o, s, a), b)
    requires Enabled(Step(o, Step(o, s, a), b), c)
    requires Enabled(Step(o, Step(o, Step(o, s, a), b), c), d)
    ensures Run(o, s, [a] + ([b] + ([c] + ([d] + []))),
      Step(o, Step(o, Step(o, Step(o, s, a), b), c), d))
  {
    var s1 := Step(o, s, a);
    var s2 := Step(o, s1, b);
    var s3 := Step(o, s2, c);
    var s4 := Step(o, s3, d);
    RunAfter(o, s3, d, [], s4);
    RunAfter(o, s2, c, [d] + [], s4);
    RunAfter(o, s1, b, [c] + ([d] + []), s4);
    RunAfter(o, s, a, [b] + ([c] + ([d] + [])), s4);
  }

  /** One poller and one WAKE suffice: the half done too early misses the other side. */
  lemma WrongOrderLoses(o: Order) returns (s: State)
    requires o != SOURCE
    ensures Reachable(o, s) && LostWakeup(s)
  {
    var s0 := Init(1, 1);
    var poll, wake := Poll(0), Ioctl(0, true);
    if o.registerFirst || !o.storeFirst {
      // wake the queue, fall asleep, store
      RunFour(o, s0, wake, poll, poll, wake);
      s := Step(o, Step(o, Step(o, Step(o, s0, wake), poll), poll), wake);
      assert s.pollers[0] == Asleep(false);
    } else {
      // sample 0, store, wake the queue, get on the queue
      RunFour(o, s0, poll, wake, wake, poll);
      s := Step(o, Step(o, Step(o, Step(o, s0, poll), wake), wake), poll);
      assert s.pollers[0] == Asleep(false);
    }
  }

  /** Wakeups are never lost exactly when pollers register before sampling and callers
      store before waking. */
  lemma OrderMatters(o: Order)
    ensures (forall s | Reachable(o, s) :: !LostWakeup(s)) <==> o == SOURCE
  {
    if o == SOURCE {
      forall s | Reachable(o, s)
        ensures !LostWakeup(s)
      {
        if LostWakeup(s) {
          var p: nat :| p < |s.pollers| && s.pollers[p] == Asleep(false);
          NoLostWakeup(s, p);
        }
      }
    } else {
      var s := WrongOrderLoses(o);
    }
  }

  // ----- delivery

  /** Steps of one poller on its own. */
  function PollTimes(s: State, p: nat, n: nat): Poller
    requires p < |s.pollers|
  {
    if n == 0 then s.pollers[p] else PollStep(SOURCE, s.ready, PollTimes(s, p, n - 1))
  }

  /** Once every call has finished with the state at POLLIN, each poller that was
      waiting returns after at most two steps of its own, and none of them blocks. */
  lemma Delivered(s: State, p: nat)
    requires Reachable(SOURCE, s) && p < |s.pollers| && s.pollers[p] != Away
    requires s.ready && forall c | 0 <= c < |s.callers| :: s.callers[c].Idle?
    ensures PollTimes(s, p, if s.pollers[p].Registered? then 1 else 2) == Away
    ensures Enabled(s, Poll(p))
  {
    var n, m, run :| Run(SOURCE, Init(n, m), run, s);
    RunInv(Init(n, m), run, s);
    assert PollTimes(s, p, 1) == PollStep(SOURCE, s.ready, PollTimes(s, p, 0));
  }

  // ----- the state, read off the actions

  /** How many of the first n actions are caller c's; its calls have two each. */
  function Turns(run: seq<Action>, n: nat, c: nat): nat
    requires n <= |run|
  {
    if n == 0 then 0 else Turns(run, n - 1, c) + if run[n - 1].Ioctl? && run[n - 1].c == c then 1 else 0
  }

  function Polls(run: seq<Action>, n: nat, p: nat): nat
    requires n <= |run|
  {
    if n == 0 then 0 else Polls(run, n - 1, p) + if run[n - 1] == Poll(p) then 1 else 0
  }

  /** Action i is the first half of a call, which stores, or the second, which wakes. */
  predicate Stores(run: seq<Action>, i: nat)
    requires i < |run|
  {
    run[i].Ioctl? && Turns(run, i, run[i].c) % 2 == 0
  }

  predicate Wakes(run: seq<Action>, i: nat)
    requires i < |run|
  {
    run[i].Ioctl? && Turns(run, i, run[i].c) % 2 == 1
  }

  /** Of a poller's actions every other one is to register, and the one after it to look at
      the state. This is the last of the first n actions that registers poller p, or -1. */
  function LastRegistration(run: seq<Action>, n: nat, p: nat): (i: int)
    requires n <= |run|
    ensures -1 <= i < n
    ensures i >= 0 ==> run[i] == Poll(p) && Polls(run, i, p) % 2 == 0
    ensures forall k: nat | i < k < n && run[k] == Poll(p) :: Polls(run, k, p) % 2 == 1
  {
    if n == 0 then -1
    else if run[n - 1] == Poll(p) && Polls(run, n - 1, p) % 2 == 0 then n - 1
    else LastRegistration(run, n - 1, p)
  }

  /** The last of the first n actions that is poller p's, or -1. */
  function LastPoll(run: seq<Action>, n: nat, p: nat): (i: int)
    requires n <= |run|
    ensures -1 <= i < n && (i >= 0 ==> run[i] == Poll(p))
    ensures forall k | i < k < n :: run[k] != Poll(p)
    ensures i == -1 <==> Polls(run, n, p) == 0
  {
    if n == 0 then -1 else if run[n - 1] == Poll(p) then n - 1 else LastPoll(run, n - 1, p)
  }

  /** The last of the first n actions that is caller c's, or -1. */
  function LastTurn(run: seq<Action>, n: nat, c: nat): (i: int)
    requires n <= |run|
    ensures -1 <= i < n && (i >= 0 ==> run[i].Ioctl? && run[i].c == c)
    ensures forall k | i < k < n :: !(run[k].Ioctl? && run[k].c == c)
    ensures i == -1 <==> Turns(run, n, c) == 0
  {
    if n == 0 then -1
    else if run[n - 1].Ioctl? && run[n - 1].c == c then n - 1
    else LastTurn(run, n - 1, c)
  }

  /** Among the first n actions some WAKE stores, and no RESET stores after it. */
  ghost predicate ReadyAfter(run: seq<Action>, n: nat)
    requires n <= |run|
  {
    exists i: nat :: i < n && Stores(run, i) && run[i].value && forall j | i < j < n :: Stores(run, j) ==> run[j].value
  }

  /** A call has woken the queue since poller p registered. */
  ghost predicate WokenAfter(run: seq<Action>, n: nat, p: nat)
    requires n <= |run|
  {
    var i := LastRegistration(run, n, p);
    i >= 0 && exists j :: i < j < n && Wakes(run, j)
  }

  ghost function PollerAfter(run: seq<Action>, n: nat, p: nat): Poller
    requires n <= |run|
  {
    if Polls(run, n, p) % 2 == 1 then Registered(WokenAfter(run, n, p))
    else if Polls(run, n, p) == 0 || ReadyAfter(run, LastPoll(run, n, p)) then Away
    else Asleep(WokenAfter(run, n, p))
  }

  function CallerAfter(run: seq<Action>, n: nat, c: nat): Caller
    requires n <= |run|
  {
    if Turns(run, n, c) % 2 == 0 then Idle else Half(run[LastTurn(run, n, c)].value)
  }

  lemma {:induction false} RunSplit(o: Order, s: State, run: seq<Action>, s': State) returns (m: State)
    requires run != [] && Run(o, s, run, s')
    ensures Run(o, s, run[..|run| - 1], m)
    ensures var a := run[|run| - 1]; Enabled(m, a) && s' == Step(o, m, a)
    decreases |run|
  {
    var n := |run| - 1;
    if n == 0 {
      m := s;
    } else {
      m := RunSplit(o, Step(o, s, run[0]), run[1..], s');
      assert run[1..][..n - 1] == run[..n][1..];
    }
  }

  lemma ReadyNext(run: seq<Action>, n: nat)
    requires n < |run|
    ensures ReadyAfter(run, n + 1) <==> if Stores(run, n) then run[n].value else ReadyAfter(run, n)
  {
    if ReadyAfter(run, n) && (Stores(run, n) ==> run[n].value) {
      var i: nat :| i < n && Stores(run, i) && run[i].value && forall j | i < j < n :: Stores(run, j) ==> run[j].value;
      assert i < n + 1;
    }
  }

  lemma {:induction false} PolledRegistered(run: seq<Action>, n: nat, p: nat)
    requires n <= |run|
    ensures Polls(run, n, p) == 0 <==> LastRegistration(run, n, p) == -1
  {
    if n > 0 { PolledRegistered(run, n - 1, p); }
  }

  lemma WokenNext(run: seq<Action>, n: nat, p: nat)
    requires n < |run|
    ensures WokenAfter(run, n + 1, p) <==>
      if run[n] == Poll(p) && Polls(run, n, p) % 2 == 0 then false
      else WokenAfter(run, n, p) || (Wakes(run, n) && Polls(run, n, p) > 0)
  {
    PolledRegistered(run, n, p);
  }

  lemma PollerNext(run: seq<Action>, n: nat, p: nat)
    requires n < |run|
    ensures PollerAfter(run, n + 1, p) ==
      var x := PollerAfter(run, n, p);
      if run[n] == Poll(p) then PollStep(SOURCE, ReadyAfter(run, n), x)
      else if Wakes(run, n) then Wake(x) else x
  {
    WokenNext(run, n, p);
  }

  ghost predicate ReadOff(run: seq<Action>, n: nat, s: State)
    requires n <= |run|
  {
    && s.ready == ReadyAfter(run, n)
    && (forall p | 0 <= p < |s.pollers| :: s.pollers[p] == PollerAfter(run, n, p))
    && (forall c | 0 <= c < |s.callers| :: s.callers[c] == CallerAfter(run, n, c))
  }

  lemma StepReadOff(run: seq<Action>, n: nat, s: State)
    requires n < |run| && Enabled(s, run[n]) && ReadOff(run, n, s)
    ensures ReadOff(run, n + 1, Step(SOURCE, s, run[n]))
  {
    var s' := Step(SOURCE, s, run[n]);
    ReadyNext(run, n);
    forall p | 0 <= p < |s'.pollers|
      ensures s'.pollers[p] == PollerAfter(run, n + 1, p)
    {
      PollerNext(run, n, p);
    }
  }

  /** In every run: the state is POLLIN exactly when some WAKE has stored it and no RESET
      has stored since; a poller is away exactly when it last saw that (or never looked),
      and about to look again exactly when a call has woken the queue since it registered;
      a caller is busy exactly in the middle of a call. */
  lemma {:induction false} StateOfRun(pollers: nat, callers: nat, run: seq<Action>, n: nat, s: State)
    requires n <= |run| && Run(SOURCE, Init(pollers, callers), run[..n], s)
    ensures |s.pollers| == pollers && |s.callers| == callers && ReadOff(run, n, s)
  {
    if n > 0 {
      var m := RunSplit(SOURCE, Init(pollers, callers), run[..n], s);
      assert run[..n][..n - 1] == run[..n - 1];
      StateOfRun(pollers, callers, run, n - 1, m);
      StepReadOff(run, n - 1, m);
    }
  }

  /** A poller that looks at the state returns if the last store was a WAKE's, and goes to
      sleep if it was a RESET's or there was none. */
  lemma PollOutcome(pollers: nat, callers: nat, run: seq<Action>, s: State, p: nat)
    requires Run(SOURCE, Init(pollers, callers), run, s) && p < pollers
    requires run != [] && run[|run| - 1] == Poll(p) && Polls(run, |run|, p) % 2 == 0
    ensures |s.pollers| == pollers
    ensures if ReadyAfter(run, |run| - 1) then s.pollers[p] == Away else s.pollers[p].Asleep?
  {
    assert run[..|run|] == run;
    StateOfRun(pollers, callers, run, |run|, s);
  }

  /** A poller is held up exactly while it sleeps, the state not being POLLIN when it
      looked, and nobody has woken the queue since it registered; a call is never held up. */
  lemma HeldUp(pollers: nat, callers: nat, run: seq<Action>, s: State, p: nat, c: nat)
    requires Run(SOURCE, Init(pollers, callers), run, s) && p < pollers && c < callers
    ensures
      var n := |run|;
      !Enabled(s, Poll(p)) <==>
        && Polls(run, n, p) > 0 && Polls(run, n, p) % 2 == 0
        && !ReadyAfter(run, LastPoll(run, n, p)) && !WokenAfter(run, n, p)
    ensures Turns(run, |run|, c) % 2 == 0 ==> Enabled(s, Ioctl(c, true)) && Enabled(s, Ioctl(c, false))
    ensures Turns(run, |run|, c) % 2 == 1 ==>
      forall v :: Enabled(s, Ioctl(c, v)) <==> v == run[LastTurn(run, |run|, c)].value
  {
    assert run[..|run|] == run;
    StateOfRun(pollers, callers, run, |run|, s);
  }
}
