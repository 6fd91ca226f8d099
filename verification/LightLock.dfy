/** LightLock of 3ds/synchronization.c as the steps of any number of threads: every ldrex, every
    strex and every call of the address arbiter is one step, and other threads may come in between. */
module LightLock {
  import opened Threads

  /** Where a thread is. The values in LockStore, RetryStore and UnlockStore are the words it loaded. */
  datatype Pc =
    | Idle
    | LockLoad | LockStore(val: int)
    | Wait | Asleep
    | RetryLoad | RetryStore(val: int)
    | Holding
    | UnlockLoad | UnlockStore(val: int)
    | Signal

  /** The lock word, the threads whose exclusive monitor is set, and where each thread is. */
  datatype State = State(word: int, monitors: set<Tid>, pc: map<Tid, Pc>)

  /** Store is a strex that succeeds, StoreFails one that does not (for whatever reason). wake names
      the sleeper that the kernel wakes, if there is one. */
  datatype Action =
    | Lock(t: Tid)
    | Load(t: Tid)
    | Store(t: Tid)
    | StoreFails(t: Tid)
    | WaitCall(t: Tid)
    | Unlock(t: Tid)
    | SignalCall(t: Tid, wake: Tid)

  /** 0 is an invalid state that lock treats as 1. */
  function Normal(word: int): int {
    if word == 0 then 1 else word
  }

  ghost predicate Sleepers(s: State) {
    exists u :: u in s.pc && s.pc[u] == Asleep
  }

  predicate Init(s: State) {
    (s.word == 0 || s.word == 1) && s.monitors == {} && forall t :: t in s.pc ==> s.pc[t] == Idle
  }

  ghost predicate Enabled(s: State, a: Action) {
    && a.t in s.pc
    && match a
       case Lock(t) => s.pc[t] == Idle
       case Load(t) => s.pc[t] == LockLoad || s.pc[t] == RetryLoad || s.pc[t] == UnlockLoad
       case Store(t) => t in s.monitors && (s.pc[t].LockStore? || s.pc[t].RetryStore? || s.pc[t].UnlockStore?)
       case StoreFails(t) => s.pc[t].LockStore? || s.pc[t].RetryStore? || s.pc[t].UnlockStore?
       case WaitCall(t) => s.pc[t] == Wait
       case Unlock(t) => s.pc[t] == Holding
       case SignalCall(t, u) => s.pc[t] == Signal && (Sleepers(s) ==> u in s.pc && s.pc[u] == Asleep)
  }

  ghost function Step(s: State, a: Action): State
    requires Enabled(s, a)
  {
    var t := a.t;
    match a
    case Lock(_) => s.(pc := s.pc[t := LockLoad])
    case Load(_) => Loaded(s, t)
    case Store(_) => Stored(s, t)
    case StoreFails(_) =>
      var again := if s.pc[t].LockStore? then LockLoad else if s.pc[t].RetryStore? then RetryLoad else UnlockLoad;
      s.(monitors := s.monitors - {t}, pc := s.pc[t := again])
    // WAIT_IF_LESS_THAN 0: the kernel compares and enqueues in one step.
    case WaitCall(_) => s.(pc := s.pc[t := if s.word < 0 then Asleep else RetryLoad])
    case Unlock(_) => s.(pc := s.pc[t := UnlockLoad])
    case SignalCall(_, u) =>
      var pc := s.pc[t := Idle];
      s.(pc := if Sleepers(s) then pc[u := RetryLoad] else pc)
  }

  function Loaded(s: State, t: Tid): State
    requires t in s.pc
  {
    if s.pc[t] == RetryLoad && s.word < 0 then
      // clrex, and back to waiting
      s.(monitors := s.monitors - {t}, pc := s.pc[t := Wait])
    else
      var next := if s.pc[t] == LockLoad then LockStore(s.word)
                  else if s.pc[t] == RetryLoad then RetryStore(s.word)
                  else UnlockStore(s.word);
      s.(monitors := s.monitors + {t}, pc := s.pc[t := next])
  }

  /** A strex clears every monitor. */
  function Stored(s: State, t: Tid): State
    requires t in s.pc && (s.pc[t].LockStore? || s.pc[t].RetryStore? || s.pc[t].UnlockStore?)
  {
    match s.pc[t]
    case LockStore(v) =>
      var val := Normal(v);
      if val < 0 then State(val - 1, {}, s.pc[t := Wait]) else State(-val, {}, s.pc[t := Holding])
    case RetryStore(v) =>
      State(-(v - 1), {}, s.pc[t := Holding])
    case UnlockStore(v) =>
      State(-v, {}, s.pc[t := if -v > 1 then Signal else Idle])
  }

  /** Between acquire and release. */
  predicate Holds(p: Pc) {
    p == Holding || p == UnlockLoad || p.UnlockStore?
  }

  /** Counted as waiting. */
  predicate Waits(p: Pc) {
    p == Wait || p == Asleep || p == RetryLoad || p.RetryStore?
  }

  function Holders(s: State): set<Tid> {
    set t | t in s.pc && Holds(s.pc[t])
  }

  function Waiters(s: State): set<Tid> {
    set t | t in s.pc && Waits(s.pc[t])
  }

  /** A monitor is set only while the word is the one loaded. */
  ghost predicate MonitorsCurrent(s: State) {
    && (forall t :: t in s.monitors ==>
          && t in s.pc
          && (s.pc[t] == LockStore(s.word) || s.pc[t] == RetryStore(s.word) || s.pc[t] == UnlockStore(s.word)))
    && forall t :: t in s.pc && s.pc[t].RetryStore? ==> s.pc[t].val >= 0
  }

  /** The word's sign says whether the lock is held and its value how many threads wait. */
  ghost predicate WordExact(s: State) {
    && (s.word < 0 <==> Holders(s) != {})
    && |Holders(s)| <= 1
    && (if s.word < 0 then -s.word else Normal(s.word)) == 1 + |Waiters(s)|
  }

  /** A thread that will look at the word again, or wake one that will. */
  predicate Rouses(p: Pc) {
    p == Signal || (Waits(p) && p != Asleep)
  }

  ghost predicate NoLostWakeup(s: State) {
    s.word > 1 ==> exists t :: t in s.pc && Rouses(s.pc[t])
  }

  ghost predicate Inv(s: State) {
    MonitorsCurrent(s) && WordExact(s) && NoLostWakeup(s)
  }

  lemma InitInv(s: State)
    requires Init(s)
    ensures Inv(s)
  {
    assert Holders(s) == {} && Waiters(s) == {};
  }

  /** How one step changes who holds and who waits. */
  lemma Moved(s: State, a: Action)
    requires Enabled(s, a)
    ensures var s1, t := Step(s, a), a.t;
            && s1.pc.Keys == s.pc.Keys
            && Holders(s1) == (if Holds(s1.pc[t]) then Holders(s) + {t} else Holders(s) - {t})
            && Waiters(s1) == (if Waits(s1.pc[t]) then Waiters(s) + {t} else Waiters(s) - {t})
  {
  }

  lemma StepKeepsMonitors(s: State, a: Action)
    requires MonitorsCurrent(s) && Enabled(s, a)
    ensures MonitorsCurrent(Step(s, a))
  {
  }

  /** Only a strex changes the word, who holds or who waits. */
  lemma Quiet(s: State, a: Action)
    requires Enabled(s, a) && !a.Store?
    ensures var s1 := Step(s, a); s1.word == s.word && Holders(s1) == Holders(s) && Waiters(s1) == Waiters(s)
  {
  }

  /** What a strex does to the word, the holders and the waiting threads. */
  lemma StoreEffect(s: State, t: Tid)
    requires MonitorsCurrent(s) && Enabled(s, Store(t))
    ensures var s1 := Step(s, Store(t));
            match s.pc[t]
            case LockStore(_) =>
              if s.word < 0 then s1.word == s.word - 1 && Holders(s1) == Holders(s) && Waiters(s1) == Waiters(s) + {t}
              else s1.word == -Normal(s.word) && Holders(s1) == Holders(s) + {t} && Waiters(s1) == Waiters(s)
            case RetryStore(_) =>
              s.word >= 0 && s1.word == 1 - s.word && Holders(s1) == Holders(s) + {t} && Waiters(s1) == Waiters(s) - {t}
            case _ =>
              s1.word == -s.word && Holders(s1) == Holders(s) - {t} && Waiters(s1) == Waiters(s)
  {
    Moved(s, Store(t));
    Members(s, t);
  }

  lemma StepKeepsWord(s: State, a: Action)
    requires MonitorsCurrent(s) && WordExact(s) && Enabled(s, a)
    ensures WordExact(Step(s, a))
  {
    if a.Store? {
      StoreEffect(s, a.t);
      Members(s, a.t);
      if Holds(s.pc[a.t]) { Sole(Holders(s), a.t); }
      hide Holders, Waiters, Step, MonitorsCurrent;
    } else {
      Quiet(s, a);
      hide Holders, Waiters, Step, MonitorsCurrent;
    }
  }

  lemma Members(s: State, t: Tid)
    requires t in s.pc
    ensures t in Holders(s) <==> Holds(s.pc[t])
    ensures t in Waiters(s) <==> Waits(s.pc[t])
  {
  }

  lemma Sole(h: set<Tid>, t: Tid)
    requires |h| <= 1 && t in h
    ensures h == {t}
  {
    assert |h - {t}| == 0;
  }

  lemma StepKeepsWakeup(s: State, a: Action)
    requires Inv(s) && Enabled(s, a)
    ensures NoLostWakeup(Step(s, a))
  {
    var s1, t := Step(s, a), a.t;
    if s1.word > 1 {
      if a.SignalCall? && Sleepers(s) {
        assert Rouses(s1.pc[a.wake]);
      } else if a.SignalCall? {
        assert Waiters(s) != {};
        var u :| u in Waiters(s);
        assert Rouses(s1.pc[u]);
      } else if a.Store? {
        Members(s, t);
        assert Rouses(s1.pc[t]);
      } else {
        var u :| u in s.pc && Rouses(s.pc[u]);
        assert Rouses(s1.pc[u]);
      }
    }
  }

  // Whole runs.

  ghost predicate Reaches(s: State, actions: seq<Action>, s1: State)
    decreases |actions|
  {
    if actions == [] then s == s1
    else Enabled(s, actions[0]) && Reaches(Step(s, actions[0]), actions[1..], s1)
  }

  lemma {:induction false} RunKeepsInv(s: State, actions: seq<Action>, s1: State)
    requires Inv(s) && Reaches(s, actions, s1)
    ensures Inv(s1) && s1.pc.Keys == s.pc.Keys
    decreases |actions|
  {
    hide MonitorsCurrent, WordExact, NoLostWakeup, Enabled, Step;
    if actions != [] {
      StepKeepsMonitors(s, actions[0]);
      StepKeepsWord(s, actions[0]);
      StepKeepsWakeup(s, actions[0]);
      Moved(s, actions[0]);
      RunKeepsInv(Step(s, actions[0]), actions[1..], s1);
    }
  }

  /** In every reachable state at most one thread is between acquire and release, the word is negative
      exactly when one is, and its value counts the waiting threads. */
  lemma MutualExclusion(s0: State, actions: seq<Action>, s: State)
    requires Init(s0) && Reaches(s0, actions, s)
    ensures forall t, u :: t in Holders(s) && u in Holders(s) ==> t == u
    ensures s.word < 0 <==> Holders(s) != {}
    ensures (if s.word < 0 then -s.word else Normal(s.word)) == 1 + |Waiters(s)|
  {
    InitInv(s0);
    RunKeepsInv(s0, actions, s);
    forall t, u | t in Holders(s) && u in Holders(s)
      ensures t == u
    {
      Sole(Holders(s), t);
    }
  }

  /** Waiters are never all asleep on a free lock that nobody is about to signal. */
  lemma NeverAllAsleep(s0: State, actions: seq<Action>, s: State)
    requires Init(s0) && Reaches(s0, actions, s)
    requires Holders(s) == {} && Waiters(s) != {}
    ensures exists t :: t in s.pc && (s.pc[t] == Signal || (t in Waiters(s) && s.pc[t] != Asleep))
  {
    InitInv(s0);
    RunKeepsInv(s0, actions, s);
    assert s.word > 1;
    var t :| t in s.pc && Rouses(s.pc[t]);
    assert s.pc[t] == Signal || t in Waiters(s);
  }

  /** The count cannot overflow the s32 while there are fewer than 2^31 - 1 threads. */
  lemma WordFits(s0: State, actions: seq<Action>, s: State)
    requires Init(s0) && Reaches(s0, actions, s) && |s0.pc| < 0x7fff_ffff
    ensures -0x8000_0000 <= s.word <= 0x7fff_ffff
  {
    InitInv(s0);
    RunKeepsInv(s0, actions, s);
    Subset(Waiters(s), s.pc.Keys);
  }

  lemma {:induction false} Subset(a: set<Tid>, b: set<Tid>)
    requires a <= b
    ensures |a| <= |b|
  {
    if a != {} {
      var x :| x in a;
      Subset(a - {x}, b - {x});
    }
  }

  /** Every step is a step of a plain lock: nothing happens to the holder unless a thread takes the
      free lock by the strex of its first or of a later attempt, or the holder gives it up. */
  lemma RefinesPlainLock(s: State, a: Action)
    requires Inv(s) && Enabled(s, a)
    ensures var s1, t := Step(s, a), a.t;
            if a.Store? && s.pc[t].UnlockStore? then Holders(s) == {t} && Holders(s1) == {}
            else if a.Store? && s.word >= 0 then Holders(s) == {} && Holders(s1) == {t}
            else Holders(s1) == Holders(s)
  {
    if a.Store? {
      StoreEffect(s, a.t);
      Members(s, a.t);
      if Holds(s.pc[a.t]) { Sole(Holders(s), a.t); }
    } else {
      Quiet(s, a);
    }
    hide Holders, Waiters, Step, NoLostWakeup;
  }

  /** An unlock calls the arbiter exactly when some thread waits. */
  lemma SignalsIffWaiting(s: State, t: Tid)
    requires Inv(s) && Enabled(s, Store(t)) && s.pc[t].UnlockStore?
    ensures Step(s, Store(t)).pc[t] == Signal <==> Waiters(s) != {}
  {
    Members(s, t);
    Sole(Holders(s), t);
    hide Holders, Waiters;
    assert |Waiters(s)| == 0 <==> Waiters(s) == {};
  }

  lemma RetrySucceeds(s: State, t: Tid) returns (actions: seq<Action>, s1: State)
    requires Inv(s) && s.word > 1 && t in s.pc && s.pc[t] == RetryLoad
    ensures Reaches(s, actions, s1) && |actions| == 2 && Holders(s1) == {t}
  {
    var loaded := Step(s, Load(t));
    s1 := Step(loaded, Store(t));
    actions := [Load(t), Store(t)];
    assert actions[1..] == [Store(t)] && actions[1..][1..] == [];
    Moved(s, Load(t));
    Moved(loaded, Store(t));
  }

  /** No deadlock: from every reachable state with a free lock and waiting threads, one of them can get
      the lock in at most three more steps, none of which depends on a sleeping thread. */
  lemma SomeWaiterCanAcquire(s0: State, before: seq<Action>, s: State)
      returns (actions: seq<Action>, s1: State, t: Tid)
    requires Init(s0) && Reaches(s0, before, s) && Holders(s) == {} && Waiters(s) != {}
    ensures Reaches(s, actions, s1) && |actions| <= 3 && t in Waiters(s) && Holders(s1) == {t}
  {
    InitInv(s0);
    RunKeepsInv(s0, before, s);
    NeverAllAsleep(s0, before, s);
    var u :| u in s.pc && (s.pc[u] == Signal || (u in Waiters(s) && s.pc[u] != Asleep));
    var first: Action;
    if s.pc[u] == Signal {
      if Sleepers(s) {
        t :| t in s.pc && s.pc[t] == Asleep;
        first := SignalCall(u, t);
      } else {
        t :| t in Waiters(s);
        if s.pc[t] == RetryLoad {
          actions, s1 := RetrySucceeds(s, t);
          return;
        }
        first := if s.pc[t] == Wait then WaitCall(t) else StoreFails(t);
      }
    } else {
      t := u;
      if s.pc[t] == RetryLoad {
        actions, s1 := RetrySucceeds(s, t);
        return;
      }
      first := if s.pc[t] == Wait then WaitCall(t) else StoreFails(t);
    }
    var next := Step(s, first);
    StepKeepsMonitors(s, first);
    StepKeepsWord(s, first);
    StepKeepsWakeup(s, first);
    var rest;
    rest, s1 := RetrySucceeds(next, t);
    actions := [first] + rest;
    assert actions[1..] == rest;
  }

  /** Waiting puts a thread to sleep exactly if the lock is held, and being woken sends it back to the word. */
  lemma SleepsIffHeld(s: State, a: Action)
    requires Inv(s) && Enabled(s, a)
    ensures a.WaitCall? ==> (if Holders(s) != {} then Step(s, a).pc[a.t] == Asleep else Step(s, a).pc[a.t] == RetryLoad)
    ensures a.SignalCall? ==>
              && Step(s, a).pc[a.t] == Idle
              && (Sleepers(s) ==> a.wake in s.pc && s.pc[a.wake] == Asleep && Step(s, a).pc[a.wake] == RetryLoad)
  {
    hide Holders, Waiters;
  }

  /** In every reachable state: a free lock is got by a thread that calls lock within three steps of its own,
      and given up by its holder within three, with the arbiter called if a thread waits. */
  lemma LockAndUnlock(s0: State, before: seq<Action>, s: State, t: Tid) returns (actions: seq<Action>, s1: State)
    requires Init(s0) && Reaches(s0, before, s) && t in s.pc
    requires (s.pc[t] == Idle && Holders(s) == {}) || s.pc[t] == Holding
    ensures Reaches(s, actions, s1) && |actions| == 3 && (forall a :: a in actions ==> a.t == t) && t in s1.pc
    ensures s.pc[t] == Idle ==> s1.pc[t] == Holding && Holders(s1) == {t}
    ensures s.pc[t] == Holding ==> Holders(s1) == {} && s1.pc[t] == if Waiters(s) != {} then Signal else Idle
  {
    InitInv(s0);
    RunKeepsInv(s0, before, s);
    var call := if s.pc[t] == Idle then Lock(t) else Unlock(t);
    CallAndLoad(s, t, call);
    var called := Step(s, call);
    var loaded := Step(called, Load(t));
    s1 := Step(loaded, Store(t));
    StoreOutcome(loaded, t);
    hide *;
    actions := [call] + ([Load(t)] + [Store(t)]);
    Single(loaded, Store(t));
    FirstAction(called, Load(t), [Store(t)], s1);
    FirstAction(s, call, [Load(t)] + [Store(t)], s1);
  }

  lemma CallAndLoad(s: State, t: Tid, call: Action)
    requires Inv(s) && t in s.pc && ((s.pc[t] == Idle && call == Lock(t)) || (s.pc[t] == Holding && call == Unlock(t)))
    ensures Enabled(s, call) && Enabled(Step(s, call), Load(t))
    ensures var loaded := Step(Step(s, call), Load(t));
            && Inv(loaded) && Holders(loaded) == Holders(s) && Waiters(loaded) == Waiters(s) && loaded.word == s.word
            && Enabled(loaded, Store(t))
            && loaded.pc[t] == if s.pc[t] == Idle then LockStore(s.word) else UnlockStore(s.word)
  {
    Quiet(s, call);
    StepsKept(s, call);
    var called := Step(s, call);
    Quiet(called, Load(t));
    StepsKept(called, Load(t));
    hide Inv, Holders, Waiters;
  }

  lemma StoreOutcome(s: State, t: Tid)
    requires Inv(s) && Enabled(s, Store(t)) && (s.pc[t].UnlockStore? || (s.pc[t].LockStore? && Holders(s) == {}))
    ensures var s1 := Step(s, Store(t));
            && t in s1.pc
            && (s.pc[t].LockStore? ==> s1.pc[t] == Holding && Holders(s1) == {t})
            && (s.pc[t].UnlockStore? ==> Holders(s1) == {} && s1.pc[t] == if Waiters(s) != {} then Signal else Idle)
  {
    StoreEffect(s, t);
    if s.pc[t].UnlockStore? {
      Members(s, t);
      Sole(Holders(s), t);
      SignalsIffWaiting(s, t);
    }
    hide Holders, Waiters, NoLostWakeup;
  }

  lemma FirstAction(s: State, a: Action, rest: seq<Action>, s1: State)
    requires Enabled(s, a) && Reaches(Step(s, a), rest, s1)
    ensures Reaches(s, [a] + rest, s1)
  {
    hide Enabled, Step;
    assert ([a] + rest)[1..] == rest;
  }

  lemma Single(s: State, a: Action)
    requires Enabled(s, a)
    ensures Reaches(s, [a], Step(s, a))
  {
    hide Enabled, Step;
    assert [a][1..] == [];
  }

  lemma StepsKept(s: State, a: Action)
    requires Inv(s) && Enabled(s, a)
    ensures Inv(Step(s, a))
  {
    StepKeepsMonitors(s, a);
    StepKeepsWord(s, a);
    StepKeepsWakeup(s, a);
  }
}
