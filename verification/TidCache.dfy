/** Counting finitely many keys. */
module KeyCount {

  function Below(n: nat): (r: set<int>)
    ensures forall k: int :: k in r <==> 0 <= k < n
  {
    if n == 0 then {} else Below(n - 1) + {n - 1}
  }

  lemma {:induction false} KeysBound(keys: set<int>, n: nat)
    requires keys <= Below(n)
    ensures |keys| <= n
  {
    if n > 0 {
      KeysBound(keys - {n - 1}, n - 1);
    }
  }
}

/** gettid_cached of pthread_utils.h, called by any number of threads without a lock:
    the check of init_key, the creation of the key, its store into tid_key, the store
    of init_key, the lookup, the allocation and the setting of the slot are separate
    steps, and tid_key is read again at the last of them. */
module TidCache {
  import opened KeyCount

  datatype Pc =
    | Out              // not in gettid_cached
    | Create           // saw init_key false
    | Store(key: nat)  // created a key, about to assign tid_key
    | SetInit          // about to set init_key
    | Get              // about to look its slot up
    | Malloc           // found no record
    | SetSlot(val: int)    // allocated a record, about to put it into its slot

  /** `slots[t]` maps keys to thread t's records; `creator[k]` made key k; `stored` are
      the keys that were ever assigned to tid_key; `returned` logs finished calls. */
  datatype State = State(
    initKey: bool, tidKey: nat, creator: seq<nat>, stored: set<int>,
    pc: seq<Pc>, slots: seq<map<int, int>>, mallocs: seq<nat>, returned: seq<(nat, int)>)

  function Init(n: nat): State {
    State(false, 0, [], {}, seq(n, _ => Out), seq(n, _ => map[]), seq(n, _ => 0), [])
  }

  predicate Shaped(s: State) {
    |s.slots| == |s.pc| && |s.mallocs| == |s.pc|
  }

  /** `tid` is what gettid() answers in each thread. */
  function Step(tid: nat -> int, s: State, t: nat): (s': State)
    requires Shaped(s) && t < |s.pc|
    ensures Shaped(s') && |s'.pc| == |s.pc|
  {
    match s.pc[t]
    case Out => s.(pc := s.pc[t := if s.initKey then Get else Create])
    case Create => s.(creator := s.creator + [t], pc := s.pc[t := Store(|s.creator|)])
    case Store(k) => s.(tidKey := k, stored := s.stored + {k}, pc := s.pc[t := SetInit])
    case SetInit => s.(initKey := true, pc := s.pc[t := Get])
    case Get =>
      if s.tidKey in s.slots[t]
      then s.(pc := s.pc[t := Out], returned := s.returned + [(t, s.slots[t][s.tidKey])])
      else s.(pc := s.pc[t := Malloc])
    case Malloc => s.(mallocs := s.mallocs[t := s.mallocs[t] + 1], pc := s.pc[t := SetSlot(tid(t))])
    case SetSlot(v) => s.(slots := s.slots[t := s.slots[t][s.tidKey := v]],
                      pc := s.pc[t := Out], returned := s.returned + [(t, v)])
  }

  ghost predicate Run(tid: nat -> int, s: State, schedule: seq<nat>, s': State)
    requires Shaped(s)
    decreases |schedule|
  {
    if schedule == [] then s' == s
    else schedule[0] < |s.pc| && Run(tid, Step(tid, s, schedule[0]), schedule[1..], s')
  }

  /** The step of t would replace a record that is already in its slot. */
  ghost predicate Overwrites(s: State, t: nat)
    requires Shaped(s) && t < |s.pc|
  {
    s.pc[t].SetSlot? && s.tidKey in s.slots[t]
  }

  ghost predicate Distinct(s: seq<nat>) {
    forall i, j | 0 <= i < j < |s| :: s[i] != s[j]
  }

  ghost predicate ThreadInv(tid: nat -> int, s: State, t: nat)
    requires Shaped(s) && t < |s.pc|
  {
    var pc := s.pc[t];
    && (pc.Create? ==> t !in s.creator)
    && (t in s.creator ==> pc.Store? || pc.SetInit? || s.initKey)
    && (pc.Store? ==> pc.key < |s.creator| && s.creator[pc.key] == t && pc.key !in s.stored)
    && (pc.SetSlot? ==> pc.val == tid(t))
    && (pc.SetInit? || pc.Get? || pc.Malloc? || pc.SetSlot? ==> s.tidKey in s.stored)
    && (pc.Malloc? || pc.SetSlot? ==> s.tidKey !in s.slots[t])
    && s.slots[t].Keys <= s.stored
    && (forall k: int | k in s.slots[t] :: s.slots[t][k] == tid(t))
    && s.mallocs[t] == |s.slots[t]| + if pc.SetSlot? then 1 else 0
  }

  ghost predicate Inv(tid: nat -> int, s: State) {
    && Shaped(s)
    && Distinct(s.creator)
    && (s.initKey ==> s.tidKey in s.stored)
    && (forall k: int | k in s.stored :: 0 <= k < |s.creator|)
    && (forall k | 0 <= k < |s.creator| :: s.creator[k] < |s.pc|)
    && (forall t: nat | t < |s.pc| :: ThreadInv(tid, s, t))
    && LogInv(tid, s)
  }

  /** Calls have returned the caller's id, and only after it has allocated. */
  ghost predicate LogInv(tid: nat -> int, s: State) {
    forall r | r in s.returned :: r.1 == tid(r.0) && r.0 < |s.mallocs| && s.mallocs[r.0] > 0
  }

  lemma StepSelf(tid: nat -> int, s: State, t: nat)
    requires Inv(tid, s) && t < |s.pc|
    ensures ThreadInv(tid, Step(tid, s, t), t)
  {
    assert ThreadInv(tid, s, t);
  }

  lemma StepOther(tid: nat -> int, s: State, t: nat, u: nat)
    requires Shaped(s) && t < |s.pc| && u < |s.pc| && t != u
    requires Distinct(s.creator) && forall k: int | k in s.stored :: 0 <= k < |s.creator|
    requires ThreadInv(tid, s, t) && ThreadInv(tid, s, u)
    ensures ThreadInv(tid, Step(tid, s, t), u)
  {}

  lemma StepLog(tid: nat -> int, s: State, t: nat)
    requires Shaped(s) && t < |s.pc| && ThreadInv(tid, s, t) && LogInv(tid, s)
    ensures LogInv(tid, Step(tid, s, t))
  {}

  lemma StepInv(tid: nat -> int, s: State, t: nat)
    requires Inv(tid, s) && t < |s.pc|
    ensures Inv(tid, Step(tid, s, t))
    ensures !Overwrites(s, t)
  {
    var s' := Step(tid, s, t);
    assert ThreadInv(tid, s, t);
    StepLog(tid, s, t);
    forall u: nat | u < |s'.pc|
      ensures ThreadInv(tid, s', u)
    {
      assert ThreadInv(tid, s, u);
      if u == t { StepSelf(tid, s, t); } else { StepOther(tid, s, t, u); }
    }
  }

  lemma InitInv(tid: nat -> int, n: nat)
    ensures Inv(tid, Init(n))
  {}

  lemma {:induction false} RunInv(tid: nat -> int, s: State, schedule: seq<nat>, s': State)
    requires Inv(tid, s) && Run(tid, s, schedule, s')
    ensures Inv(tid, s') && |s'.pc| == |s.pc|
    decreases |schedule|
  {
    if schedule != [] {
      StepInv(tid, s, schedule[0]);
      RunInv(tid, Step(tid, s, schedule[0]), schedule[1..], s');
    }
  }

  /** A step logs the caller's id exactly when it ends a call, and nothing otherwise. */
  lemma StepReturns(tid: nat -> int, s: State, t: nat)
    requires Inv(tid, s) && t < |s.pc|
    ensures var s' := Step(tid, s, t);
      s'.returned == if s'.pc[t] == Out then s.returned + [(t, tid(t))] else s.returned
  {
    assert ThreadInv(tid, s, t);
  }

  // ----- counting

  lemma {:induction false} DistinctBound(s: seq<nat>, n: nat)
    requires Distinct(s) && forall i | 0 <= i < |s| :: s[i] < n
    ensures |s| <= n
  {
    if s != [] {
      assert s[0] < n;
      var top := n - 1;
      if top in s {
        var i :| 0 <= i < |s| && s[i] == top;
        var r := s[..i] + s[i + 1..];
        DistinctBound(r, top);
      } else {
        DistinctBound(s, top);
      }
    }
  }

  /** In every run: each call returns the caller's own id when it ends and nothing before,
      no step replaces a cached record, a thread allocates at most once per key ever
      created, and at most one key is created per thread. */
  lemma CacheRuns(tid: nat -> int, n: nat, schedule: seq<nat>, s: State, t: nat)
    requires Run(tid, Init(n), schedule, s) && t < n
    ensures Shaped(s) && |s.pc| == n
    ensures forall r | r in s.returned :: r.1 == tid(r.0)
    ensures !Overwrites(s, t)
    ensures s.mallocs[t] <= |s.creator| <= n
    ensures var s' := Step(tid, s, t);
      s'.returned == if s'.pc[t] == Out then s.returned + [(t, tid(t))] else s.returned
  {
    InitInv(tid, n);
    RunInv(tid, Init(n), schedule, s);
    StepInv(tid, s, t);
    StepReturns(tid, s, t);
    assert ThreadInv(tid, s, t);
    DistinctBound(s.creator, n);
    var keys := s.slots[t].Keys;
    if s.pc[t].SetSlot? {
      KeysBound(keys + {s.tidKey}, |s.creator|);
    } else {
      KeysBound(keys, |s.creator|);
    }
  }

  // ----- every call returns, and every step is accounted for

  /** How many entries of the log are thread t's. */
  function Entries(log: seq<(nat, int)>, t: nat): nat {
    if log == [] then 0 else Entries(log[..|log| - 1], t) + if log[|log| - 1].0 == t then 1 else 0
  }

  /** One entry per call that ends, whoever moves. */
  lemma StepEnds(tid: nat -> int, s: State, t: nat, u: nat)
    requires Inv(tid, s) && t < |s.pc|
    ensures var s' := Step(tid, s, t);
      Entries(s'.returned, u) == Entries(s.returned, u) + if u == t && s'.pc[t] == Out then 1 else 0
  {
    var s' := Step(tid, s, t);
    StepReturns(tid, s, t);
    assert s'.returned != s.returned ==> s'.returned[..|s.returned|] == s.returned;
  }

  /** Steps of the call a thread is in that the accounts below do not count yet; negative
      where they count more. */
  function Ahead(pc: Pc): int {
    match pc
    case Out => 0
    case Create => 1
    case Store(_) => -1
    case SetInit => 0
    case Get => 1
    case Malloc => 2
    case SetSlot(_) => 1
  }

  /** Two steps for each finished call, three for a key, two for each allocation. */
  function Accounted(s: State, t: nat): int
    requires Shaped(s) && t < |s.pc|
  {
    2 * Entries(s.returned, t) + (if t in s.creator then 3 else 0) + 2 * s.mallocs[t] + Ahead(s.pc[t])
  }

  lemma StepAccounted(tid: nat -> int, s: State, t: nat, u: nat)
    requires Inv(tid, s) && t < |s.pc| && u < |s.pc|
    ensures Accounted(Step(tid, s, t), u) == Accounted(s, u) + if u == t then 1 else 0
  {
    var s' := Step(tid, s, t);
    assert ThreadInv(tid, s, t);
    StepEnds(tid, s, t, u);
  }

  /** How often a schedule picks thread t. */
  function Picked(schedule: seq<nat>, t: nat): nat {
    if schedule == [] then 0 else (if schedule[0] == t then 1 else 0) + Picked(schedule[1..], t)
  }

  /** How many calls of thread t end in a run. */
  function Ended(tid: nat -> int, s: State, schedule: seq<nat>, t: nat): nat
    requires Shaped(s)
    decreases |schedule|
  {
    if schedule == [] || schedule[0] >= |s.pc| then 0
    else
      var s' := Step(tid, s, schedule[0]);
      (if schedule[0] == t && s'.pc[t] == Out then 1 else 0) + Ended(tid, s', schedule[1..], t)
  }

  lemma {:induction false} RunEnds(tid: nat -> int, s: State, schedule: seq<nat>, s': State, t: nat)
    requires Inv(tid, s) && Run(tid, s, schedule, s') && t < |s.pc|
    ensures Entries(s'.returned, t) == Entries(s.returned, t) + Ended(tid, s, schedule, t)
    decreases |schedule|
  {
    if schedule != [] {
      StepInv(tid, s, schedule[0]);
      StepEnds(tid, s, schedule[0], t);
      RunEnds(tid, Step(tid, s, schedule[0]), schedule[1..], s', t);
    }
  }

  lemma {:induction false} RunAccounted(tid: nat -> int, s: State, schedule: seq<nat>, s': State, t: nat)
    requires Inv(tid, s) && Run(tid, s, schedule, s') && t < |s.pc|
    ensures Inv(tid, s') && |s'.pc| == |s.pc| && Accounted(s', t) == Accounted(s, t) + Picked(schedule, t)
    decreases |schedule|
  {
    if schedule != [] {
      StepInv(tid, s, schedule[0]);
      StepAccounted(tid, s, schedule[0], t);
      RunAccounted(tid, Step(tid, s, schedule[0]), schedule[1..], s', t);
    }
  }

  /** In every run, for each thread: the log has one entry per call it has finished. Outside
      a call its steps are two per finished call, three if it made a key, two per
      allocation; and a thread that has finished a call has allocated. */
  lemma StepsOfThread(tid: nat -> int, n: nat, schedule: seq<nat>, s: State, t: nat)
    requires Run(tid, Init(n), schedule, s) && t < n
    ensures Shaped(s) && |s.pc| == n && Picked(schedule, t) == Accounted(s, t)
    ensures s.pc[t] == Out ==>
      Picked(schedule, t) == 2 * Entries(s.returned, t) + (if t in s.creator then 3 else 0) + 2 * s.mallocs[t]
    ensures Entries(s.returned, t) == Ended(tid, Init(n), schedule, t)
    ensures Entries(s.returned, t) > 0 ==> s.mallocs[t] > 0
  {
    InitInv(tid, n);
    RunAccounted(tid, Init(n), schedule, s, t);
    RunEnds(tid, Init(n), schedule, s, t);
    assert ThreadInv(tid, s, t);
    EntryListed(s.returned, t);
  }

  lemma {:induction false} EntryListed(log: seq<(nat, int)>, t: nat)
    ensures Entries(log, t) > 0 <==> exists r :: r in log && r.0 == t
  {
    if log != [] {
      var n := |log| - 1;
      assert log == log[..n] + [log[n]];
      EntryListed(log[..n], t);
    }
  }

  // ----- the bound is attained

  lemma {:induction false} RunConcat(tid: nat -> int, s: State, p: seq<nat>, m: State, q: seq<nat>, s': State)
    requires Shaped(s) && Shaped(m) && Run(tid, s, p, m) && Run(tid, m, q, s')
    ensures Run(tid, s, p + q, s')
    decreases |p|
  {
    if p == [] {
      assert p + q == q;
    } else {
      assert (p + q)[1..] == p[1..] + q;
      RunConcat(tid, Step(tid, s, p[0]), p[1..], m, q, s');
    }
  }

  /** One more step at the end of a run. */
  lemma Extend(tid: nat -> int, s: State, p: seq<nat>, m: State, t: nat) returns (q: seq<nat>, s': State)
    requires Shaped(s) && Shaped(m) && Run(tid, s, p, m) && t < |m.pc|
    ensures Shaped(s') && s' == Step(tid, m, t) && Run(tid, s, q, s')
  {
    s' := Step(tid, m, t);
    assert [t][1..] == [];
    assert Run(tid, m, [t], s');
    q := p + [t];
    RunConcat(tid, s, p, m, [t], s');
  }

  /** The first i threads have seen init_key false; nothing else has happened. */
  lemma {:induction false} AllEnter(tid: nat -> int, n: nat, i: nat) returns (p: seq<nat>, s: State)
    requires i <= n
    ensures Run(tid, Init(n), p, s)
    ensures s == Init(n).(pc := seq(n, t requires 0 <= t < n => if t < i then Create else Out))
  {
    if i == 0 {
      p, s := [], Init(n);
      assert s.pc == seq(n, t requires 0 <= t < n => if t < i then Create else Out);
    } else {
      var p0, s0 := AllEnter(tid, n, i - 1);
      p, s := Extend(tid, Init(n), p0, s0, i - 1);
      assert s.pc == seq(n, t requires 0 <= t < n => if t < i then Create else Out);
    }
  }

  /** i keys exist and thread 0 has cached its id under each; the rest wait to create. */
  ghost predicate Cached(s: State, n: nat, i: nat) {
    && Shaped(s) && |s.pc| == n && 1 <= i <= n
    && s.initKey && |s.creator| == i && s.pc[0] == Out && s.mallocs[0] == i
    && (forall t | i <= t < n :: s.pc[t] == Create)
    && (forall k: int | k in s.slots[0] :: k < i)
  }

  /** Thread t, having seen init_key false, creates a key and makes it current. */
  lemma CreateKey(tid: nat -> int, s: State, p0: seq<nat>, m: State, t: nat) returns (p: seq<nat>, s': State)
    requires Shaped(s) && Shaped(m) && Run(tid, s, p0, m) && t < |m.pc| && m.pc[t] == Create
    ensures Shaped(s') && Run(tid, s, p, s')
    ensures s'.initKey && s'.tidKey == |m.creator| && |s'.creator| == |m.creator| + 1
    ensures s'.pc == m.pc[t := Get] && s'.slots == m.slots && s'.mallocs == m.mallocs
  {
    p, s' := Extend(tid, s, p0, m, t);
    p, s' := Extend(tid, s, p, s', t);
    p, s' := Extend(tid, s, p, s', t);
  }

  /** Thread t finds nothing under the current key and allocates. */
  lemma CacheMiss(tid: nat -> int, s: State, p0: seq<nat>, m: State, t: nat) returns (p: seq<nat>, s': State)
    requires Shaped(s) && Shaped(m) && Run(tid, s, p0, m)
    requires t < |m.pc| && m.pc[t] == Get && m.tidKey !in m.slots[t]
    ensures Shaped(s') && Run(tid, s, p, s')
    ensures s'.initKey == m.initKey && s'.creator == m.creator && s'.pc == m.pc[t := Out]
    ensures s'.slots == m.slots[t := m.slots[t][m.tidKey := tid(t)]]
    ensures s'.mallocs == m.mallocs[t := m.mallocs[t] + 1]
  {
    p, s' := Extend(tid, s, p0, m, t);
    p, s' := Extend(tid, s, p, s', t);
    p, s' := Extend(tid, s, p, s', t);
  }

  lemma FirstKey(tid: nat -> int, n: nat) returns (p: seq<nat>, s: State)
    requires n >= 1
    ensures Run(tid, Init(n), p, s) && Cached(s, n, 1)
  {
    p, s := AllEnter(tid, n, n);
    p, s := CreateKey(tid, Init(n), p, s, 0);
    p, s := CacheMiss(tid, Init(n), p, s, 0);
  }

  lemma NextKey(tid: nat -> int, n: nat, i: nat, p0: seq<nat>, s0: State) returns (p: seq<nat>, s: State)
    requires i < n && Run(tid, Init(n), p0, s0) && Cached(s0, n, i)
    ensures Run(tid, Init(n), p, s) && Cached(s, n, i + 1)
  {
    p, s := CreateKey(tid, Init(n), p0, s0, i);
    p, s := Extend(tid, Init(n), p, s, 0);
    p, s := CacheMiss(tid, Init(n), p, s, 0);
  }

  /** For every number of threads some run creates that many keys and makes one thread
      allocate that many records: the missing lock costs exactly this much. */
  lemma WorstCase(tid: nat -> int, n: nat)
    requires n >= 1
    ensures exists p, s :: Run(tid, Init(n), p, s) && Cached(s, n, n)
  {
    var p, s := FirstKey(tid, n);
    for i := 1 to n
      invariant Run(tid, Init(n), p, s) && Cached(s, n, i)
    {
      p, s := NextKey(tid, n, i, p, s);
    }
  }
}
