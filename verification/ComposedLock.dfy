/** RecursiveLock over LightLock, both step by step: a call of the inner lock is no longer one step but
    the steps of LightLock, interleaved with everybody else's. */
module ComposedLock {
  import opened Threads
  import L = LightLock
  import R = RecursiveLock

  /** rec.holder is kept by the strex steps below that take and give up the inner lock. */
  datatype State = State(rec: R.State, light: L.State)

  /** A step outside the inner lock, or one inside. */
  datatype Action = Outer(call: R.Action) | Inner(step: L.Action)

  predicate Init(s: State) {
    R.Init(s.rec) && L.Init(s.light) && s.rec.pc.Keys == s.light.pc.Keys
  }

  /** The thread has entered the inner lock's code only where the outer one calls it, and has left it
      before it goes on outside. */
  ghost predicate Enabled(s: State, a: Action) {
    match a
    case Outer(c) =>
      && R.Enabled(s.rec, c) && c.t in s.light.pc
      && (s.light.pc[c.t] == L.Idle || s.light.pc[c.t] == L.Holding)
      && (c.Go? ==> s.rec.pc[c.t] != R.Acquire && s.rec.pc[c.t] != R.ReleaseInner)
    case Inner(i) =>
      && L.Enabled(s.light, i) && i.t in s.rec.pc && i.t in s.rec.depth
      && (i.Lock? ==> s.rec.pc[i.t] == R.Acquire)
      && (i.Unlock? ==> s.rec.pc[i.t] == R.ReleaseInner)
  }

  /** The strex that takes the inner lock, or the one that gives it up. */
  ghost predicate Moves(s: L.State, i: L.Action)
    requires L.Enabled(s, i)
  {
    i.Store? && (s.pc[i.t].UnlockStore? || s.word >= 0)
  }

  ghost function Step(s: State, a: Action): State
    requires Enabled(s, a)
  {
    match a
    case Outer(c) => s.(rec := R.Step(s.rec, c))
    case Inner(i) =>
      State(if Moves(s.light, i) && s.rec.pc[i.t] != R.Idle then R.Next(s.rec, i.t) else s.rec, L.Step(s.light, i))
  }

  /** Where a thread can be in the inner lock's code while it is at p in the outer one's. */
  predicate Fits(p: R.Pc, q: L.Pc) {
    match p
    case Acquire => !L.Holds(q) && q != L.Signal
    case ReleaseInner => L.Holds(q)
    case Idle => q == L.Idle || q == L.Holding || q == L.Signal
    case _ => q == L.Idle || q == L.Holding
  }

  /** Thread t holds the inner lock in the one model exactly if it does in the other. */
  predicate Agrees(s: State, t: Tid)
    requires t in s.rec.pc && t in s.light.pc
  {
    Fits(s.rec.pc[t], s.light.pc[t]) && (s.rec.holder == Thread(t) <==> L.Holds(s.light.pc[t]))
  }

  ghost predicate Coupled(s: State) {
    && L.Inv(s.light) && R.Inv(s.rec)
    && s.rec.pc.Keys == s.light.pc.Keys
    && forall t :: t in s.rec.pc ==> Agrees(s, t)
  }

  ghost predicate ReleasesEarly(s: State, a: Action) {
    a.Outer? && R.ReleasesEarly(s.rec, a.call)
  }

  lemma LightKept(s: L.State, i: L.Action)
    requires L.Inv(s) && L.Enabled(s, i)
    ensures L.Inv(L.Step(s, i)) && L.Step(s, i).pc.Keys == s.pc.Keys
  {
    hide L.Step, L.Enabled, L.MonitorsCurrent, L.WordExact, L.NoLostWakeup;
    L.StepKeepsMonitors(s, i);
    L.StepKeepsWord(s, i);
    L.StepKeepsWakeup(s, i);
    L.Moved(s, i);
  }

  lemma HolderIs(s: L.State, t: Tid)
    requires t in s.pc
    ensures t in L.Holders(s) <==> L.Holds(s.pc[t])
  {
  }

  lemma ThreadsKept(s: R.State, c: R.Action)
    requires R.Enabled(s, c)
    ensures R.Step(s, c).pc.Keys == s.pc.Keys
  {
  }

  /** The inner lock's strex is the atomic acquire or release of the outer lock's own model. */
  lemma MoveIsAtomic(s: State, i: L.Action)
    requires Coupled(s) && Enabled(s, Inner(i)) && Moves(s.light, i)
    ensures s.rec.pc[i.t] == R.Acquire || s.rec.pc[i.t] == R.ReleaseInner
    ensures R.Enabled(s.rec, R.Go(i.t)) && Step(s, Inner(i)).rec == R.Step(s.rec, R.Go(i.t))
    ensures !R.ReleasesEarly(s.rec, R.Go(i.t))
  {
    hide L.Inv, R.Inv, L.Holders, L.Step;
    L.RefinesPlainLock(s.light, i);
    assert Agrees(s, i.t);
    if s.rec.holder.Thread? {
      KnownHolder(s);
      HolderIs(s.light, s.rec.holder.t);
    }
  }

  lemma KnownHolder(s: State)
    requires Coupled(s) && s.rec.holder.Thread?
    ensures s.rec.holder.t in s.rec.pc && s.rec.holder.t in s.light.pc && L.Holds(s.light.pc[s.rec.holder.t])
  {
    assert s.rec.holder.t in s.rec.pc;
    assert Agrees(s, s.rec.holder.t);
  }

  lemma OuterAgrees(s: State, c: R.Action, t: Tid)
    requires Coupled(s) && Enabled(s, Outer(c)) && t in s.rec.pc
    ensures t in R.Step(s.rec, c).pc && Agrees(Step(s, Outer(c)), t)
  {
    hide L.Inv;
    assert Agrees(s, t) && R.ThreadInv(s.rec, t);
    R.TagNamesHolder(s.rec);
  }

  lemma InnerAgrees(s: State, i: L.Action, t: Tid)
    requires Coupled(s) && Enabled(s, Inner(i)) && t in s.rec.pc
    ensures t in Step(s, Inner(i)).rec.pc && t in Step(s, Inner(i)).light.pc && Agrees(Step(s, Inner(i)), t)
  {
    hide L.Inv, R.Inv, L.Holders;
    assert Agrees(s, t) && Agrees(s, i.t);
    L.RefinesPlainLock(s.light, i);
    LightKept(s.light, i);
    HolderIs(s.light, i.t);
    HolderIs(L.Step(s.light, i), i.t);
    if Moves(s.light, i) { MoveIsAtomic(s, i); }
  }

  lemma StepCoupled(s: State, a: Action)
    requires Coupled(s) && Enabled(s, a) && !ReleasesEarly(s, a)
    ensures Coupled(Step(s, a))
  {
    hide L.Inv, R.Inv, Agrees, L.Step, R.Step, R.Next, L.Enabled, R.Enabled;
    var s1 := Step(s, a);
    match a
    case Outer(c) =>
      R.StepKeepsInv(s.rec, c);
      ThreadsKept(s.rec, c);
      forall t | t in s.rec.pc
        ensures t in s1.rec.pc && Agrees(s1, t)
      {
        OuterAgrees(s, c, t);
      }
    case Inner(i) =>
      LightKept(s.light, i);
      if Moves(s.light, i) {
        MoveIsAtomic(s, i);
        R.StepKeepsInv(s.rec, R.Go(i.t));
        ThreadsKept(s.rec, R.Go(i.t));
      }
      forall t | t in s.rec.pc
        ensures t in s1.rec.pc && t in s1.light.pc && Agrees(s1, t)
      {
        InnerAgrees(s, i, t);
      }
  }

  // Whole runs.

  ghost predicate Reaches(s: State, actions: seq<Action>, s1: State)
    decreases |actions|
  {
    if actions == [] then s == s1
    else Enabled(s, actions[0]) && Reaches(Step(s, actions[0]), actions[1..], s1)
  }

  ghost predicate NoEarlyRelease(s: State, actions: seq<Action>)
    decreases |actions|
  {
    actions == []
    || (Enabled(s, actions[0]) && !ReleasesEarly(s, actions[0]) && NoEarlyRelease(Step(s, actions[0]), actions[1..]))
  }

  lemma InitCoupled(s: State)
    requires Init(s)
    ensures Coupled(s)
  {
    L.InitInv(s.light);
    R.InitInv(s.rec);
  }

  lemma OuterFirst(s: R.State, c: R.Action, rest: seq<R.Action>, s1: R.State)
    requires R.Enabled(s, c) && !R.ReleasesEarly(s, c)
    requires R.Reaches(R.Step(s, c), rest, s1) && R.NoEarlyRelease(R.Step(s, c), rest)
    ensures R.Reaches(s, [c] + rest, s1) && R.NoEarlyRelease(s, [c] + rest)
  {
    hide R.Enabled, R.Step, R.ReleasesEarly;
    assert ([c] + rest)[1..] == rest;
  }

  lemma InnerFirst(s: L.State, i: L.Action, rest: seq<L.Action>, s1: L.State)
    requires L.Enabled(s, i) && L.Reaches(L.Step(s, i), rest, s1)
    ensures L.Reaches(s, [i] + rest, s1)
  {
    hide L.Enabled, L.Step;
    assert ([i] + rest)[1..] == rest;
  }

  /** Seen from outside a run of the two locks together is a run of RecursiveLock over a plain lock, and
      seen from inside it is a run of LightLock: what has been proved of either holds of it. */
  lemma {:induction false} RunProjects(s0: State, actions: seq<Action>, s: State)
      returns (outer: seq<R.Action>, inner: seq<L.Action>)
    requires Coupled(s0) && Reaches(s0, actions, s) && NoEarlyRelease(s0, actions)
    ensures R.Reaches(s0.rec, outer, s.rec) && R.NoEarlyRelease(s0.rec, outer)
    ensures L.Reaches(s0.light, inner, s.light) && Coupled(s)
    decreases |actions|
  {
    hide Coupled, R.Enabled, R.Step, L.Enabled, L.Step, R.ReleasesEarly, R.Next, Moves;
    outer, inner := [], [];
    if actions != [] {
      var a := actions[0];
      var next := Step(s0, a);
      StepCoupled(s0, a);
      outer, inner := RunProjects(next, actions[1..], s);
      match a
      case Outer(c) =>
        OuterFirst(s0.rec, c, outer, s.rec);
        outer := [c] + outer;
      case Inner(i) =>
        InnerFirst(s0.light, i, inner, s.light);
        inner := [i] + inner;
        if Moves(s0.light, i) {
          MoveIsAtomic(s0, i);
          OuterFirst(s0.rec, R.Go(i.t), outer, s.rec);
          outer := [R.Go(i.t)] + outer;
        }
    }
  }

  /** A thread inside its critical section is between the strex that took the LightLock and the one that
      will give it up, so only one thread is inside; and while nobody is there, threads that wait are not
      all asleep. */
  lemma ComposedExact(s0: State, actions: seq<Action>, s: State)
    requires Init(s0) && Reaches(s0, actions, s) && NoEarlyRelease(s0, actions)
    ensures forall t :: t in s.rec.depth && s.rec.depth[t] > 0 ==> t in s.light.pc && L.Holds(s.light.pc[t])
    ensures forall t, u :: t in s.rec.depth && u in s.rec.depth && s.rec.depth[t] > 0 && s.rec.depth[u] > 0 ==> t == u
    ensures L.Holders(s.light) == {} && L.Waiters(s.light) != {} ==>
              exists t :: t in s.light.pc &&
                            (s.light.pc[t] == L.Signal || (t in L.Waiters(s.light) && s.light.pc[t] != L.Asleep))
  {
    hide L.Holders, L.Waiters, L.Reaches, R.Reaches, L.Inv, R.Inv;
    InitCoupled(s0);
    var outer, inner := RunProjects(s0, actions, s);
    R.OwnershipExact(s0.rec, outer, s.rec);
    SameThreads(s);
    forall t | t in s.rec.depth && s.rec.depth[t] > 0
      ensures t in s.light.pc && L.Holds(s.light.pc[t])
    {
      assert Agrees(s, t);
    }
    if L.Holders(s.light) == {} && L.Waiters(s.light) != {} {
      L.NeverAllAsleep(s0.light, inner, s.light);
    }
  }

  lemma SameThreads(s: State)
    requires Coupled(s)
    ensures s.rec.depth.Keys == s.rec.pc.Keys == s.light.pc.Keys
  {
  }
}
