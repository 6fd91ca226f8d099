/** RecursiveLock of 3ds/synchronization.c, step by step, over a plain lock: that LightLock behaves as
    one is LightLock.RefinesPlainLock. Every access to thread_tag and counter is a step of its own. */
module RecursiveLock {
  import opened Bytes
  import opened Threads

  datatype Pc =
    | Idle
    | ReadTag | Acquire | SetTag | LoadCounter | StoreCounter(val: nat)
    | LoadToDecrease | StoreDecreased(val: nat) | ClearTag | ReleaseInner

  /** tag is thread_tag, with Nobody for 0; holder is who holds the inner lock; depth counts, for each thread, its
      completed calls of lock that no call of unlock has answered yet. */
  datatype State = State(holder: Owner, tag: Owner, counter: nat, pc: map<Tid, Pc>, depth: map<Tid, nat>)

  datatype Action = Lock(t: Tid) | Unlock(t: Tid) | Go(t: Tid)

  predicate Init(s: State) {
    && s.holder == Nobody && s.tag == Nobody && s.counter == 0 && s.pc.Keys == s.depth.Keys
    && forall t :: t in s.pc ==> s.pc[t] == Idle && s.depth[t] == 0
  }

  /** Callers are balanced: they unlock only what they have locked. They may nest as deep as they like. */
  predicate Enabled(s: State, a: Action) {
    && a.t in s.pc && a.t in s.depth
    && match a
       case Lock(t) => s.pc[t] == Idle
       case Unlock(t) => s.pc[t] == Idle && s.depth[t] > 0
       case Go(t) => s.pc[t] != Idle && (s.pc[t] == Acquire ==> s.holder == Nobody)
  }

  function Step(s: State, a: Action): State
    requires Enabled(s, a)
  {
    match a
    case Lock(t) => s.(pc := s.pc[t := ReadTag])
    case Unlock(t) => s.(pc := s.pc[t := LoadToDecrease], depth := s.depth[t := s.depth[t] - 1])
    case Go(t) => Next(s, t)
  }

  function Next(s: State, t: Tid): State
    requires t in s.pc && t in s.depth && s.pc[t] != Idle
  {
    match s.pc[t]
    case ReadTag => s.(pc := s.pc[t := if s.tag != Thread(t) then Acquire else LoadCounter])
    case Acquire => s.(holder := Thread(t), pc := s.pc[t := SetTag])
    case SetTag => s.(tag := Thread(t), pc := s.pc[t := LoadCounter])
    case LoadCounter => s.(pc := s.pc[t := StoreCounter(s.counter)])
    case StoreCounter(v) =>
      s.(counter := (v + 1) % U32_LIMIT, pc := s.pc[t := Idle], depth := s.depth[t := s.depth[t] + 1])
    case LoadToDecrease => s.(pc := s.pc[t := StoreDecreased(s.counter)])
    case StoreDecreased(v) =>
      var val := (v + U32_LIMIT - 1) % U32_LIMIT;
      s.(counter := val, pc := s.pc[t := if val == 0 then ClearTag else Idle])
    case ClearTag => s.(tag := Nobody, pc := s.pc[t := ReleaseInner])
    case ReleaseInner => s.(holder := Nobody, pc := s.pc[t := Idle])
  }

  /** The counter is a u32. */
  function Wrapped(depth: nat): nat {
    depth % U32_LIMIT
  }

  /** What the thread that holds the inner lock has made of tag and counter: the counter is its depth
      modulo 2^32. An unlock has lowered the depth before it lowers the counter. */
  predicate OwnerInv(s: State, t: Tid)
    requires t in s.pc && t in s.depth
  {
    var d := s.depth[t];
    match s.pc[t]
    case Idle | ReadTag => s.tag == Thread(t) && s.counter == Wrapped(d) && d > 0
    case Acquire => false
    case SetTag => s.tag == Nobody && s.counter == d == 0
    case LoadCounter => s.tag == Thread(t) && s.counter == Wrapped(d)
    case StoreCounter(v) => s.tag == Thread(t) && v == s.counter == Wrapped(d)
    case LoadToDecrease => s.tag == Thread(t) && s.counter == Wrapped(d + 1)
    case StoreDecreased(v) => s.tag == Thread(t) && v == s.counter == Wrapped(d + 1)
    case ClearTag => s.tag == Thread(t) && s.counter == d == 0
    case ReleaseInner => s.tag == Nobody && s.counter == d == 0
  }

  predicate OtherInv(s: State, t: Tid)
    requires t in s.pc && t in s.depth
  {
    (s.pc[t] == Idle || s.pc[t] == ReadTag || s.pc[t] == Acquire) && s.depth[t] == 0
  }

  predicate ThreadInv(s: State, t: Tid)
    requires t in s.pc && t in s.depth
  {
    if s.holder == Thread(t) then OwnerInv(s, t) else OtherInv(s, t)
  }

  ghost predicate Inv(s: State) {
    && s.pc.Keys == s.depth.Keys
    && (s.holder.Thread? ==> s.holder.t in s.pc)
    && (s.holder == Nobody ==> s.tag == Nobody && s.counter == 0)
    && forall t :: t in s.pc ==> ThreadInv(s, t)
  }

  /** An unlock that finds the counter at zero although its thread is still inside: its depth, already
      lowered, is a positive multiple of 2^32. */
  predicate ReleasesEarly(s: State, a: Action) {
    a.Go? && a.t in s.pc && a.t in s.depth && s.pc[a.t].StoreDecreased?
    && s.depth[a.t] > 0 && s.depth[a.t] % U32_LIMIT == 0
  }

  /** The counter step by step: up and down by one are up and down by one of the depth. */
  lemma CounterSteps(d: nat)
    ensures (Wrapped(d) + 1) % U32_LIMIT == Wrapped(d + 1)
    ensures (Wrapped(d + 1) + U32_LIMIT - 1) % U32_LIMIT == Wrapped(d)
  {
    if d % U32_LIMIT == U32_LIMIT - 1 {
      assert d + 1 == (d / U32_LIMIT + 1) * U32_LIMIT;
    } else {
      assert d + 1 == d / U32_LIMIT * U32_LIMIT + (d % U32_LIMIT + 1);
    }
  }

  lemma TagNamesHolder(s: State)
    requires Inv(s)
    ensures s.tag != Nobody ==> s.tag == s.holder
  {
    if s.holder.Thread? {
      assert ThreadInv(s, s.holder.t);
    }
  }

  lemma CallKept(s: State, a: Action)
    requires a.t in s.pc && a.t in s.depth && ThreadInv(s, a.t) && Enabled(s, a) && !a.Go?
    ensures ThreadInv(Step(s, a), a.t)
  {
    hide Wrapped;
    WrappedIs(s.depth[a.t]);
  }

  lemma GoKept(s: State, t: Tid)
    requires t in s.pc && t in s.depth && ThreadInv(s, t) && Enabled(s, Go(t)) && !ReleasesEarly(s, Go(t))
    requires (s.tag != Nobody ==> s.tag == s.holder) && (s.holder == Nobody ==> s.counter == 0)
    ensures ThreadInv(Next(s, t), t)
  {
    hide Wrapped;
    CounterSteps(s.depth[t]);
    WrappedIs(s.depth[t]);
  }

  lemma MoverKept(s: State, a: Action)
    requires Inv(s) && Enabled(s, a) && !ReleasesEarly(s, a)
    ensures ThreadInv(Step(s, a), a.t)
  {
    hide Wrapped, Next, OwnerInv, OtherInv;
    assert ThreadInv(s, a.t);
    if a.Go? {
      TagNamesHolder(s);
      GoKept(s, a.t);
    } else {
      CallKept(s, a);
    }
  }

  lemma WrappedIs(d: nat)
    ensures Wrapped(d) == d % U32_LIMIT && Wrapped(0) == 0
  {
  }

  lemma OthersKept(s: State, a: Action, u: Tid)
    requires Inv(s) && Enabled(s, a) && u in s.pc && u != a.t
    ensures ThreadInv(Step(s, a), u)
  {
    assert ThreadInv(s, a.t) && ThreadInv(s, u);
  }

  lemma StepKeepsInv(s: State, a: Action)
    requires Inv(s) && Enabled(s, a) && !ReleasesEarly(s, a)
    ensures Inv(Step(s, a))
  {
    hide Wrapped;
    MoverKept(s, a);
    forall u | u in s.pc && u != a.t
      ensures ThreadInv(Step(s, a), u)
    {
      OthersKept(s, a, u);
    }
    assert ThreadInv(s, a.t);
    WrappedIs(s.depth[a.t]);
  }

  ghost predicate Reaches(s: State, actions: seq<Action>, s1: State)
    decreases |actions|
  {
    if actions == [] then s == s1
    else Enabled(s, actions[0]) && Reaches(Step(s, actions[0]), actions[1..], s1)
  }

  /** No unlock of the run releases early. */
  ghost predicate NoEarlyRelease(s: State, actions: seq<Action>)
    decreases |actions|
  {
    actions == []
    || (Enabled(s, actions[0]) && !ReleasesEarly(s, actions[0]) && NoEarlyRelease(Step(s, actions[0]), actions[1..]))
  }

  lemma {:induction false} RunKeepsInv(s: State, actions: seq<Action>, s1: State)
    requires Inv(s) && Reaches(s, actions, s1) && NoEarlyRelease(s, actions)
    ensures Inv(s1)
    decreases |actions|
  {
    hide Inv, Enabled, Step, ReleasesEarly;
    if actions != [] {
      StepKeepsInv(s, actions[0]);
      RunKeepsInv(Step(s, actions[0]), actions[1..], s1);
    }
  }

  lemma InitInv(s: State)
    requires Init(s)
    ensures Inv(s)
  {
  }

  /** A tag that is set names the holder, so that the unsynchronised read lets nobody else past; a
      thread inside a critical section holds the inner lock, and the counter is its depth modulo 2^32
      whenever it is between calls. */
  lemma OwnershipExact(s0: State, actions: seq<Action>, s: State)
    requires Init(s0) && Reaches(s0, actions, s) && NoEarlyRelease(s0, actions)
    ensures s.tag != Nobody ==> s.tag == s.holder
    ensures forall t :: t in s.depth && s.depth[t] > 0 ==> s.holder == Thread(t)
    ensures forall t :: t in s.pc && s.pc[t] == Idle ==> t in s.depth && (s.holder == Thread(t) <==> s.depth[t] > 0)
    ensures forall t :: t in s.pc && s.pc[t] == Idle && s.holder == Thread(t) ==>
                          t in s.depth && s.counter == s.depth[t] % U32_LIMIT
  {
    InitInv(s0);
    RunKeepsInv(s0, actions, s);
    if s.holder.Thread? {
      assert ThreadInv(s, s.holder.t);
    }
    forall t | t in s.pc
      ensures s.depth[t] > 0 ==> s.holder == Thread(t)
      ensures s.pc[t] == Idle ==> (s.holder == Thread(t) <==> s.depth[t] > 0)
    {
      assert ThreadInv(s, t);
    }
  }

  /** The read of the tag goes past the inner lock exactly for the thread that holds it. */
  lemma OnlyOwnerSkipsLock(s0: State, actions: seq<Action>, s: State, t: Tid)
    requires Init(s0) && Reaches(s0, actions, s) && NoEarlyRelease(s0, actions)
    requires Enabled(s, Go(t)) && s.pc[t] == ReadTag
    ensures Step(s, Go(t)).pc[t] == LoadCounter <==> s.holder == Thread(t)
  {
    InitInv(s0);
    RunKeepsInv(s0, actions, s);
    assert ThreadInv(s, t);
    if s.holder.Thread? {
      assert ThreadInv(s, s.holder.t);
    }
  }

  /** An unlock goes on to give up the inner lock exactly if its thread's depth, already lowered, is a
      multiple of 2^32: at the outermost unlock, where it is 0 - and too early where it is not. */
  lemma ReleasedAtMultiples(s0: State, actions: seq<Action>, s: State, t: Tid)
    requires Init(s0) && Reaches(s0, actions, s) && NoEarlyRelease(s0, actions)
    requires Enabled(s, Go(t)) && s.pc[t].StoreDecreased?
    ensures Step(s, Go(t)).pc[t] == ClearTag <==> s.depth[t] % U32_LIMIT == 0
    ensures ReleasesEarly(s, Go(t)) <==> Step(s, Go(t)).pc[t] == ClearTag && s.depth[t] != 0
  {
    hide Wrapped;
    InitInv(s0);
    RunKeepsInv(s0, actions, s);
    assert ThreadInv(s, t);
    CounterSteps(s.depth[t]);
    WrappedIs(s.depth[t]);
  }

  /** Until then the inner lock is given up exactly by the unlock that answers the outermost lock. */
  lemma ReleasedAtOutermost(s0: State, actions: seq<Action>, s: State, a: Action)
    requires Init(s0) && Reaches(s0, actions, s) && NoEarlyRelease(s0, actions) && Enabled(s, a)
    ensures s.holder != Nobody && Step(s, a).holder == Nobody ==>
              a == Go(a.t) && s.holder == Thread(a.t) && s.pc[a.t] == ReleaseInner && s.depth[a.t] == 0
  {
    InitInv(s0);
    RunKeepsInv(s0, actions, s);
    assert ThreadInv(s, a.t);
  }

  // How deep is too deep.

  /** No lock is called by a thread that is 2^32 deep or deeper, so that 2^32 is the deepest. */
  ghost predicate Shallow(s: State, actions: seq<Action>)
    decreases |actions|
  {
    actions == []
    || (Enabled(s, actions[0]) && (actions[0].Lock? ==> s.depth[actions[0].t] < U32_LIMIT)
        && Shallow(Step(s, actions[0]), actions[1..]))
  }

  /** Where the depth stands while no lock is called beyond 2^32 - 1. */
  predicate DepthFits(s: State, t: Tid)
    requires t in s.pc && t in s.depth
  {
    if s.pc[t] == Idle then s.depth[t] <= U32_LIMIT else s.depth[t] < U32_LIMIT
  }

  lemma {:induction false} ShallowIsSafe(s: State, actions: seq<Action>)
    requires s.pc.Keys == s.depth.Keys && Shallow(s, actions)
    requires forall t :: t in s.pc ==> DepthFits(s, t)
    ensures NoEarlyRelease(s, actions)
    decreases |actions|
  {
    if actions != [] {
      var s1, t := Step(s, actions[0]), actions[0].t;
      assert DepthFits(s, t);
      forall u | u in s1.pc
        ensures DepthFits(s1, u)
      {
        assert DepthFits(s, u);
      }
      ShallowIsSafe(s1, actions[1..]);
    }
  }

  /** Nesting of up to 2^32 is safe: no unlock releases early. */
  lemma NestingToLimit(s0: State, actions: seq<Action>)
    requires Init(s0) && Shallow(s0, actions)
    ensures NoEarlyRelease(s0, actions)
  {
    ShallowIsSafe(s0, actions);
  }

  lemma {:induction false} RunExtended(s: State, actions: seq<Action>, s1: State, a: Action)
    requires Reaches(s, actions, s1) && Enabled(s1, a)
    ensures Reaches(s, actions + [a], Step(s1, a))
    decreases |actions|
  {
    hide Enabled, Step;
    if actions == [] {
      assert [a][1..] == [];
    } else {
      RunExtended(Step(s, actions[0]), actions[1..], s1, a);
      assert (actions + [a])[1..] == actions[1..] + [a];
    }
  }

  /** Two threads and a free lock. */
  function TwoThreads(): State {
    State(Nobody, Nobody, 0, map[1 := Idle, 2 := Idle], map[1 := 0, 2 := 0])
  }

  /** Thread 1 is inside, this deep. */
  function Nested(depth: nat): State {
    State(Thread(1), Thread(1), Wrapped(depth), map[1 := Idle, 2 := Idle], map[1 := depth, 2 := 0])
  }

  lemma Then(actions: seq<Action>, s: State, a: Action) returns (actions1: seq<Action>, s1: State)
    requires Reaches(TwoThreads(), actions, s) && Enabled(s, a)
    ensures Reaches(TwoThreads(), actions1, s1) && s1 == Step(s, a)
  {
    hide Enabled, Step;
    RunExtended(TwoThreads(), actions, s, a);
    actions1, s1 := actions + [a], Step(s, a);
  }

  /** A whole call of lock by a thread that has to take the inner lock. */
  lemma Enters(before: seq<Action>, s: State, t: Tid) returns (actions: seq<Action>, s1: State)
    requires Reaches(TwoThreads(), before, s) && t in s.pc && t in s.depth
    requires s.pc[t] == Idle && s.holder == Nobody == s.tag && s.counter == 0
    ensures Reaches(TwoThreads(), actions, s1)
    ensures s1 == s.(holder := Thread(t), tag := Thread(t), counter := 1, depth := s.depth[t := s.depth[t] + 1])
  {
    hide Reaches;
    actions, s1 := Then(before, s, Lock(t));
    actions, s1 := Then(actions, s1, Go(t));
    actions, s1 := Then(actions, s1, Go(t));
    actions, s1 := Then(actions, s1, Go(t));
    actions, s1 := Then(actions, s1, Go(t));
    actions, s1 := Then(actions, s1, Go(t));
    assert s1.pc == s.pc;
  }

  /** A whole call of lock by the thread that is inside. */
  lemma NestsDeeper(before: seq<Action>, depth: nat) returns (actions: seq<Action>)
    requires depth > 0 && Reaches(TwoThreads(), before, Nested(depth))
    ensures Reaches(TwoThreads(), actions, Nested(depth + 1))
  {
    hide Reaches, Wrapped;
    var s;
    actions, s := Then(before, Nested(depth), Lock(1));
    actions, s := Then(actions, s, Go(1));
    actions, s := Then(actions, s, Go(1));
    actions, s := Then(actions, s, Go(1));
    CounterSteps(depth);
    assert s.pc == Nested(depth).pc && s.depth == Nested(depth + 1).depth;
  }

  lemma {:induction false} NestsTo(depth: nat) returns (actions: seq<Action>)
    requires depth > 0
    ensures Reaches(TwoThreads(), actions, Nested(depth))
  {
    hide Reaches;
    if depth == 1 {
      var s;
      assert Reaches(TwoThreads(), [], TwoThreads()) by { NoSteps(TwoThreads()); }
      actions, s := Enters([], TwoThreads(), 1);
      assert s.depth == Nested(1).depth;
    } else {
      actions := NestsTo(depth - 1);
      actions := NestsDeeper(actions, depth - 1);
    }
  }

  lemma NoSteps(s: State)
    ensures Reaches(s, [], s)
  {
  }

  /** The failing run: 2^32 + 1 calls of lock, and the first unlock gives the inner lock up. */
  lemma EarlyRelease() returns (actions: seq<Action>, s: State)
    ensures Init(TwoThreads()) && Reaches(TwoThreads(), actions, s)
    ensures s == State(Nobody, Nobody, 0, map[1 := Idle, 2 := Idle], map[1 := U32_LIMIT, 2 := 0])
  {
    hide Reaches;
    actions := NestsTo(U32_LIMIT + 1);
    actions, s := Then(actions, Nested(U32_LIMIT + 1), Unlock(1));
    actions, s := Then(actions, s, Go(1));
    actions, s := Then(actions, s, Go(1));
    actions, s := Then(actions, s, Go(1));
    actions, s := Then(actions, s, Go(1));
    assert s.pc == map[1 := Idle, 2 := Idle] && s.depth == map[1 := U32_LIMIT, 2 := 0];
  }

  /** After it another thread gets in, while the first one is still 2^32 deep inside. */
  lemma BothInside() returns (actions: seq<Action>, s: State)
    ensures Init(TwoThreads()) && Reaches(TwoThreads(), actions, s)
    ensures s.pc == map[1 := Idle, 2 := Idle] && s.depth == map[1 := U32_LIMIT, 2 := 1] && s.holder == Thread(2)
  {
    hide Reaches;
    actions, s := EarlyRelease();
    actions, s := Enters(actions, s, 2);
  }
}
