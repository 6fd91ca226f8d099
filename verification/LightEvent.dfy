/** LightEvent of 3ds/synchronization.c, one-shot and sticky, as the steps of any number of threads.
    Every read of the state, every ldrex and strex and every call of the arbiter is a step of its own. */
module LightEvent {
  import opened Threads

  const CLEARED_STICKY := -2
  const CLEARED_ONESHOT := -1
  const SIGNALED_ONESHOT := 0
  const SIGNALED_STICKY := 1

  /** Where a thread is: in LightEvent_Wait (with LightEvent_TryReset), in LightEvent_Signal (with
      LightEvent_SetState), or outside. Returned is a wait that has come back. */
  datatype Pc =
    | Idle | Returned
    | IsClearedSticky | StickyWait | StickyAsleep
    | IsClearedOneshot | IsSignaledSticky | IsSignaledOneshot
    | ResetLoad | ResetStore
    | OneshotWait | OneshotAsleep
    | SignalIfOneshot | SignalIfSticky | EnterLock | LeaveLock
    | SetLoad(state: int) | SetStore(state: int) | WakeOne | WakeAll

  /** signals counts the stores that turned a cleared one-shot event into a signaled one, with one more if
      it started signaled, and resets those that turned it back. */
  datatype State = State(state: int, monitors: set<Tid>, lock: Owner, pc: map<Tid, Pc>, signals: nat, resets: nat)

  /** Go is the next step of a thread, a strex that succeeds included; Fail is a strex that does not;
      wake names the sleeper that the kernel wakes, if there is one. */
  datatype Action = Wait(t: Tid) | Signal(t: Tid) | Go(t: Tid, wake: Tid) | Fail(t: Tid)

  predicate Asleep(p: Pc) {
    p == StickyAsleep || p == OneshotAsleep
  }

  ghost predicate Sleepers(s: State) {
    exists u :: u in s.pc && Asleep(s.pc[u])
  }

  predicate StartsOneshot(s: State) {
    s.state == CLEARED_ONESHOT || s.state == SIGNALED_ONESHOT
  }

  predicate StartsSticky(s: State) {
    s.state == CLEARED_STICKY || s.state == SIGNALED_STICKY
  }

  /** An event of either kind, cleared or signaled: one that is never set up is zero, which is a signaled
      one-shot event. */
  predicate Init(s: State) {
    && (StartsOneshot(s) || StartsSticky(s))
    && s.monitors == {} && s.lock == Nobody && s.resets == 0
    && s.signals == (if s.state == SIGNALED_ONESHOT then 1 else 0)
    && forall t :: t in s.pc ==> s.pc[t] == Idle
  }

  ghost predicate Enabled(s: State, a: Action) {
    && a.t in s.pc
    && match a
       case Wait(t) => s.pc[t] == Idle || s.pc[t] == Returned
       case Signal(t) => s.pc[t] == Idle || s.pc[t] == Returned
       case Fail(t) => s.pc[t] == ResetStore || s.pc[t].SetStore?
       case Go(t, u) =>
         match s.pc[t]
         case Idle | Returned | StickyAsleep | OneshotAsleep => false
         case ResetStore | SetStore(_) => t in s.monitors
         case EnterLock => s.lock == Nobody
         case WakeOne => Sleepers(s) ==> u in s.pc && Asleep(s.pc[u])
         case _ => true
  }

  /** Where a sleeper goes on. A sticky wait returns without another look. */
  function Woken(p: Pc): Pc {
    if p == StickyAsleep then Returned else if p == OneshotAsleep then IsClearedSticky else p
  }

  ghost function Step(s: State, a: Action): State
    requires Enabled(s, a)
  {
    match a
    case Wait(t) => s.(pc := s.pc[t := IsClearedSticky])
    case Signal(t) => s.(pc := s.pc[t := SignalIfOneshot])
    case Fail(t) =>
      var again := if s.pc[t] == ResetStore then ResetLoad else SetLoad(s.pc[t].state);
      s.(monitors := s.monitors - {t}, pc := s.pc[t := again])
    case Go(t, u) =>
      match s.pc[t]
      case WakeOne => s.(pc := if Sleepers(s) then s.pc[t := Idle][u := Woken(s.pc[u])] else s.pc[t := Idle])
      case WakeAll => s.(pc := map v | v in s.pc :: if v == t then LeaveLock else Woken(s.pc[v]))
      case ResetStore => State(CLEARED_ONESHOT, {}, s.lock, s.pc[t := Returned], s.signals, s.resets + 1)
      case SetStore(v) =>
        State(v, {}, s.lock, s.pc[t := if v == SIGNALED_ONESHOT then WakeOne else WakeAll],
              if v == SIGNALED_ONESHOT && s.state == CLEARED_ONESHOT then s.signals + 1 else s.signals, s.resets)
      case ResetLoad =>
        if s.state != 0 then s.(monitors := s.monitors - {t}, pc := s.pc[t := OneshotWait])
        else s.(monitors := s.monitors + {t}, pc := s.pc[t := ResetStore])
      case SetLoad(v) => s.(monitors := s.monitors + {t}, pc := s.pc[t := SetStore(v)])
      case EnterLock => s.(lock := Thread(t), pc := s.pc[t := SetLoad(SIGNALED_STICKY)])
      case LeaveLock => s.(lock := Nobody, pc := s.pc[t := Idle])
      case _ => s.(pc := s.pc[t := Looked(s.pc[t], s.state)])
  }

  /** The steps that only look at the state; the arbiter compares and enqueues in one. */
  function Looked(p: Pc, state: int): Pc {
    match p
    case IsClearedSticky => if state == CLEARED_STICKY then StickyWait else IsClearedOneshot
    case StickyWait => if state < SIGNALED_ONESHOT then StickyAsleep else Returned
    case IsClearedOneshot => if state != CLEARED_ONESHOT then IsSignaledSticky else OneshotWait
    case IsSignaledSticky => if state == SIGNALED_STICKY then Returned else IsSignaledOneshot
    case IsSignaledOneshot => if state == SIGNALED_ONESHOT then ResetLoad else OneshotWait
    case OneshotWait => if state < SIGNALED_ONESHOT then OneshotAsleep else IsClearedSticky
    case SignalIfOneshot => if state == CLEARED_ONESHOT then SetLoad(SIGNALED_ONESHOT) else SignalIfSticky
    case SignalIfSticky => if state == CLEARED_STICKY then EnterLock else Idle
    case _ => p
  }

  /** A step moves its own thread; only the arbiter calls of a signal move sleepers as well. */
  lemma OthersStay(s: State, a: Action, u: Tid)
    requires Enabled(s, a) && u in s.pc && u != a.t
    ensures var s1 := Step(s, a);
            && u in s1.pc
            && (s1.pc[u] == s.pc[u] || (Asleep(s.pc[u]) && s1.pc[u] == Woken(s.pc[u])))
            && (!(a.Go? && (s.pc[a.t] == WakeOne || s.pc[a.t] == WakeAll)) ==> s1.pc[u] == s.pc[u])
  {
  }

  // One-shot events.

  /** In a wait on a one-shot event, and awake. */
  predicate Awake(p: Pc) {
    || p == IsClearedSticky || p == IsClearedOneshot || p == IsSignaledSticky || p == IsSignaledOneshot
    || p == ResetLoad || p == ResetStore || p == OneshotWait
  }

  predicate OneshotPc(p: Pc) {
    || Awake(p) || p == OneshotAsleep || p == Idle || p == Returned
    || p == SignalIfOneshot || p == SignalIfSticky || p == WakeOne
    || p == SetLoad(SIGNALED_ONESHOT) || p == SetStore(SIGNALED_ONESHOT)
  }

  predicate Oneshot(s: State) {
    && (s.state == CLEARED_ONESHOT || s.state == SIGNALED_ONESHOT)
    && (forall t :: t in s.pc ==> OneshotPc(s.pc[t]))
    && (forall t :: t in s.monitors ==>
          t in s.pc && (s.pc[t].SetStore? || (s.pc[t] == ResetStore && s.state == SIGNALED_ONESHOT)))
  }

  /** Every signal has been consumed by one reset, but for the one that is still set. */
  predicate Conserved(s: State) {
    s.signals == s.resets + if s.state == SIGNALED_ONESHOT then 1 else 0
  }

  /** While the event is signaled, somebody is about to wake a sleeper, or a waiting thread is awake. */
  ghost predicate OneshotWakeup(s: State) {
    s.state == SIGNALED_ONESHOT && Sleepers(s) ==> exists u :: u in s.pc && (s.pc[u] == WakeOne || Awake(s.pc[u]))
  }

  /** What a step makes of its own thread, of the state and of the monitors. */
  lemma OneshotMover(s: State, a: Action)
    requires Enabled(s, a) && (s.state == CLEARED_ONESHOT || s.state == SIGNALED_ONESHOT) && OneshotPc(s.pc[a.t])
    requires a.t in s.monitors ==> s.pc[a.t].SetStore? || (s.pc[a.t] == ResetStore && s.state == SIGNALED_ONESHOT)
    ensures var s1, t := Step(s, a), a.t;
            && t in s1.pc && OneshotPc(s1.pc[t]) && (s1.state == CLEARED_ONESHOT || s1.state == SIGNALED_ONESHOT)
            && (Conserved(s) ==> Conserved(s1))
            && s1.monitors <= s.monitors + {t} && (s1.state != s.state ==> s1.monitors == {})
            && (t in s1.monitors ==> s1.pc[t].SetStore? || (s1.pc[t] == ResetStore && s1.state == SIGNALED_ONESHOT))
  {
    hide Sleepers;
  }

  lemma ThreadsStay(s: State, a: Action)
    requires Enabled(s, a)
    ensures Step(s, a).pc.Keys == s.pc.Keys
  {
  }

  lemma OneshotStep(s: State, a: Action)
    requires Oneshot(s) && Enabled(s, a)
    ensures Oneshot(Step(s, a)) && Step(s, a).pc.Keys == s.pc.Keys
    ensures Conserved(s) ==> Conserved(Step(s, a))
  {
    hide Step, Enabled, Conserved;
    var s1 := Step(s, a);
    assert a.t in s.pc by { ActorIsThread(s, a); }
    OneshotMover(s, a);
    ThreadsStay(s, a);
    forall u | u in s1.pc && u != a.t
      ensures OneshotPc(s1.pc[u])
      ensures u in s1.monitors ==> s1.pc[u].SetStore? || (s1.pc[u] == ResetStore && s1.state == SIGNALED_ONESHOT)
    {
      OthersStay(s, a, u);
    }
  }

  lemma ActorIsThread(s: State, a: Action)
    requires Enabled(s, a)
    ensures a.t in s.pc
  {
  }

  /** A wait returns exactly when it consumes a signal. */
  lemma ReturnConsumes(s: State, a: Action, t: Tid)
    requires Oneshot(s) && Enabled(s, a) && t in s.pc && s.pc[t] != Returned
    ensures Step(s, a).pc[t] == Returned ==> a.t == t && s.state == SIGNALED_ONESHOT
    ensures Step(s, a).pc[t] == Returned ==> Step(s, a).state == CLEARED_ONESHOT && Step(s, a).resets == s.resets + 1
    ensures a.t == t && Step(s, a).resets != s.resets ==> Step(s, a).pc[t] == Returned
  {
    assert OneshotPc(s.pc[a.t]) && OneshotPc(s.pc[t]);
  }

  lemma AwakeStaysAwake(s: State, a: Action)
    requires Oneshot(s) && Enabled(s, a) && Awake(s.pc[a.t])
    ensures var s1 := Step(s, a); s1.state == SIGNALED_ONESHOT ==> a.t in s1.pc && Awake(s1.pc[a.t])
  {
  }

  /** The state becomes signaled, and sleepers are woken, only by these steps. */
  lemma SignalSteps(s: State, a: Action)
    requires Oneshot(s) && Enabled(s, a)
    ensures var s1, t := Step(s, a), a.t;
            && t in s1.pc
            && (s1.state == SIGNALED_ONESHOT && s.state != SIGNALED_ONESHOT ==> s1.pc[t] == WakeOne)
            && (s.pc[t] == WakeOne && Sleepers(s) ==> a.wake in s1.pc && Awake(s1.pc[a.wake]))
            && (s.pc[t] == WakeOne ==> a.Go? && !Asleep(s1.pc[t]))
            && (Asleep(s1.pc[t]) ==> s1.state != SIGNALED_ONESHOT)
  {
    assert OneshotPc(s.pc[a.t]);
    if s.pc[a.t] == WakeOne && Sleepers(s) {
      assert OneshotPc(s.pc[a.wake]);
    }
  }

  lemma OneshotWakeupStep(s: State, a: Action)
    requires Oneshot(s) && OneshotWakeup(s) && Enabled(s, a)
    ensures OneshotWakeup(Step(s, a))
  {
    var s1, t := Step(s, a), a.t;
    OneshotStep(s, a);
    SignalSteps(s, a);
    if s1.state == SIGNALED_ONESHOT && Sleepers(s1) && s1.pc[t] != WakeOne {
      var v :| v in s1.pc && Asleep(s1.pc[v]);
      OthersStay(s, a, v);
      hide Step, Oneshot, OneshotPc, Awake;
      assert Sleepers(s);
      if s.pc[t] == WakeOne {
        assert Awake(s1.pc[a.wake]);
      } else {
        var u :| u in s.pc && (s.pc[u] == WakeOne || Awake(s.pc[u]));
        if u == t { AwakeStaysAwake(s, a); } else { OthersStay(s, a, u); }
        assert !Asleep(s.pc[u]) by { AwakeNotAsleep(s.pc[u]); }
        assert s1.pc[u] == WakeOne || Awake(s1.pc[u]);
      }
    }
  }

  lemma AwakeNotAsleep(p: Pc)
    ensures p == WakeOne || Awake(p) ==> !Asleep(p)
  {
  }

  ghost predicate Reaches(s: State, actions: seq<Action>, s1: State)
    decreases |actions|
  {
    if actions == [] then s == s1
    else Enabled(s, actions[0]) && Reaches(Step(s, actions[0]), actions[1..], s1)
  }

  lemma {:induction false} OneshotRun(s: State, actions: seq<Action>, s1: State)
    requires Oneshot(s) && Conserved(s) && OneshotWakeup(s) && Reaches(s, actions, s1)
    ensures Oneshot(s1) && Conserved(s1) && OneshotWakeup(s1)
    decreases |actions|
  {
    hide Oneshot, Conserved, OneshotWakeup, Enabled, Step;
    if actions != [] {
      OneshotStep(s, actions[0]);
      OneshotWakeupStep(s, actions[0]);
      OneshotRun(Step(s, actions[0]), actions[1..], s1);
    }
  }

  /** In every reachable state of a one-shot event: the waits that have returned and the signals that
      took effect agree but for the signal still set, and a signaled event never has all its waiting
      threads asleep with nobody about to wake one. */
  lemma OneshotExact(s0: State, actions: seq<Action>, s: State)
    requires Init(s0) && StartsOneshot(s0) && Reaches(s0, actions, s)
    ensures s.signals == s.resets + (if s.state == SIGNALED_ONESHOT then 1 else 0)
    ensures s.state == SIGNALED_ONESHOT && Sleepers(s) ==>
              exists u :: u in s.pc && (s.pc[u] == WakeOne || Awake(s.pc[u]))
  {
    OneshotRun(s0, actions, s);
  }

  /** How many steps an awake thread is from returning from its wait, if nobody interferes. */
  function Distance(s: State, t: Tid): nat
    requires t in s.pc
  {
    match s.pc[t]
    case OneshotWait => 7
    case IsClearedSticky => 6
    case IsClearedOneshot => 5
    case IsSignaledSticky => 4
    case IsSignaledOneshot => 3
    case ResetLoad => 2
    case ResetStore => if t in s.monitors then 1 else 3
    case _ => 0
  }

  lemma {:induction false} AwakeCanReturn(s: State, t: Tid) returns (actions: seq<Action>, s1: State)
    requires Oneshot(s) && s.state == SIGNALED_ONESHOT && t in s.pc && Awake(s.pc[t])
    ensures Reaches(s, actions, s1) && |actions| == Distance(s, t)
    ensures t in s1.pc && s1.pc[t] == Returned && s1.resets == s.resets + 1 && s1.signals == s.signals
    decreases Distance(s, t)
  {
    var a := if s.pc[t] == ResetStore && t !in s.monitors then Fail(t) else Go(t, t);
    var next := Step(s, a);
    if next.pc[t] == Returned {
      actions, s1 := [a], next;
      assert actions[1..] == [];
    } else {
      OneshotStep(s, a);
      var rest;
      rest, s1 := AwakeCanReturn(next, t);
      actions := [a] + rest;
      assert actions[1..] == rest;
    }
  }

  lemma DistanceBound(s: State)
    ensures forall t :: t in s.pc ==> Distance(s, t) <= 7
  {
  }

  lemma WakesOne(s: State, u: Tid, t: Tid)
    requires Oneshot(s) && u in s.pc && s.pc[u] == WakeOne && t in s.pc && Asleep(s.pc[t])
    ensures Enabled(s, Go(u, t))
    ensures var s1 := Step(s, Go(u, t));
            Oneshot(s1) && s1.state == s.state && s1.resets == s.resets && t in s1.pc && Awake(s1.pc[t])
  {
    OneshotStep(s, Go(u, t));
    SignalSteps(s, Go(u, t));
  }

  /** No deadlock: whenever the event is signaled and a thread sleeps in a wait, some wait can return
      within eight steps, none of which depends on a thread that sleeps. */
  lemma SomeWaitCanReturn(s0: State, before: seq<Action>, s: State)
      returns (actions: seq<Action>, s1: State, t: Tid)
    requires Init(s0) && StartsOneshot(s0) && Reaches(s0, before, s)
    requires s.state == SIGNALED_ONESHOT && Sleepers(s)
    ensures Reaches(s, actions, s1) && |actions| <= 8 && t in s.pc && (Awake(s.pc[t]) || Asleep(s.pc[t]))
    ensures t in s1.pc && s1.pc[t] == Returned && s1.resets == s.resets + 1
  {
    OneshotRun(s0, before, s);
    var u :| u in s.pc && (s.pc[u] == WakeOne || Awake(s.pc[u]));
    DistanceBound(s);
    hide Distance;
    if Awake(s.pc[u]) {
      t := u;
      actions, s1 := AwakeCanReturn(s, t);
    } else {
      t :| t in s.pc && Asleep(s.pc[t]);
      var a := Go(u, t);
      WakesOne(s, u, t);
      DistanceBound(Step(s, a));
      hide Step, Oneshot;
      var rest;
      rest, s1 := AwakeCanReturn(Step(s, a), t);
      actions := [a] + rest;
      assert actions[1..] == rest;
    }
  }

  // What a signal does to a one-shot event.

  /** In the part of a signal that sets the state: reached by looking at a cleared one-shot event, and left
      for the arbiter call by a successful store alone. */
  predicate Setting(p: Pc) {
    p == SetLoad(SIGNALED_ONESHOT) || p == SetStore(SIGNALED_ONESHOT)
  }

  /** A signal that finds the event cleared goes on to set it, its store signals the event, and only its
      arbiter call brings it back, with a sleeper woken if there is one. */
  lemma SignalSets(s: State, a: Action)
    requires Oneshot(s) && Enabled(s, a)
    ensures var s1, t := Step(s, a), a.t;
            && t in s1.pc
            && (a.Go? && s.pc[t] == SignalIfOneshot && s.state == CLEARED_ONESHOT ==> Setting(s1.pc[t]))
            && (Setting(s.pc[t]) ==>
                  if a.Go? && s.pc[t] == SetStore(SIGNALED_ONESHOT) then
                    && s1.pc[t] == WakeOne && s1.state == SIGNALED_ONESHOT
                    && s1.signals == s.signals + (if s.state == CLEARED_ONESHOT then 1 else 0)
                  else Setting(s1.pc[t]))
            && (s.pc[t] == WakeOne ==>
                  a.Go? && s1.pc[t] == Idle && (Sleepers(s) ==> Asleep(s.pc[a.wake]) && Awake(s1.pc[a.wake])))
  {
    assert OneshotPc(s.pc[a.t]);
    if s.pc[a.t] == WakeOne && Sleepers(s) {
      assert OneshotPc(s.pc[a.wake]);
    }
  }

  /** A run in which thread t takes its successful store, and later its arbiter call. */
  ghost predicate StoresAndWakes(s: State, actions: seq<Action>, t: Tid)
    decreases |actions|
  {
    && actions != [] && Enabled(s, actions[0]) && t in s.pc
    && if actions[0].Go? && actions[0].t == t && s.pc[t] == SetStore(SIGNALED_ONESHOT)
       then Step(s, actions[0]).state == SIGNALED_ONESHOT && Wakes(Step(s, actions[0]), actions[1..], t)
       else StoresAndWakes(Step(s, actions[0]), actions[1..], t)
  }

  ghost predicate Wakes(s: State, actions: seq<Action>, t: Tid)
    decreases |actions|
  {
    && actions != [] && Enabled(s, actions[0]) && t in s.pc
    && ((actions[0].Go? && actions[0].t == t && s.pc[t] == WakeOne) || Wakes(Step(s, actions[0]), actions[1..], t))
  }

  lemma {:induction false} WakesBeforeIdle(s: State, actions: seq<Action>, s1: State, t: Tid)
    requires Oneshot(s) && Reaches(s, actions, s1) && t in s.pc && s.pc[t] == WakeOne
    requires t in s1.pc && s1.pc[t] == Idle
    ensures Wakes(s, actions, t)
    decreases |actions|
  {
    hide Oneshot, Step, Enabled;
    if actions != [] {
      OneshotStep(s, actions[0]);
      SignalSets(s, actions[0]);
      ActorIsThread(s, actions[0]);
      if actions[0].t != t {
        OthersStay(s, actions[0], t);
        WakesBeforeIdle(Step(s, actions[0]), actions[1..], s1, t);
      }
    }
  }

  /** A signaller that is setting a one-shot event is outside again only after its store has signaled the
      event and its arbiter call has been made. */
  lemma {:induction false} SignalTakesEffect(s: State, actions: seq<Action>, s1: State, t: Tid)
    requires Oneshot(s) && Reaches(s, actions, s1) && t in s.pc && Setting(s.pc[t])
    requires t in s1.pc && s1.pc[t] == Idle
    ensures StoresAndWakes(s, actions, t)
    decreases |actions|
  {
    hide Oneshot, Step, Enabled;
    if actions != [] {
      OneshotStep(s, actions[0]);
      SignalSets(s, actions[0]);
      ActorIsThread(s, actions[0]);
      if actions[0].t != t {
        OthersStay(s, actions[0], t);
        SignalTakesEffect(Step(s, actions[0]), actions[1..], s1, t);
      } else if Setting(Step(s, actions[0]).pc[t]) {
        SignalTakesEffect(Step(s, actions[0]), actions[1..], s1, t);
      } else {
        WakesBeforeIdle(Step(s, actions[0]), actions[1..], s1, t);
      }
    }
  }

  /** From every reachable state in which a call of signal is about to look at a cleared one-shot event while
      another thread sleeps in its wait, that wait can return within ten steps, on the signal of that call. */
  lemma SignalReturnsWait(s0: State, before: seq<Action>, s: State, t: Tid, v: Tid)
      returns (actions: seq<Action>, s1: State)
    requires Init(s0) && StartsOneshot(s0) && Reaches(s0, before, s)
    requires s.state == CLEARED_ONESHOT && t in s.pc && s.pc[t] == SignalIfOneshot
    requires v in s.pc && Asleep(s.pc[v])
    ensures Reaches(s, actions, s1) && |actions| <= 10 && v in s1.pc && s1.pc[v] == Returned
    ensures s1.signals == s.signals + 1 && s1.resets == s.resets + 1
  {
    OneshotRun(s0, before, s);
    assert OneshotPc(s.pc[v]) && t != v;
    var rest;
    rest, s1 := StoredReturnsWait(s.(pc := s.pc[t := SetLoad(SIGNALED_ONESHOT)]), t, v);
    actions := [Go(t, t)] + rest;
    LookStep(s, t);
    FirstAction(s, Go(t, t), rest, s1);
  }

  lemma StoredReturnsWait(s: State, t: Tid, v: Tid) returns (actions: seq<Action>, s1: State)
    requires Oneshot(s) && s.state == CLEARED_ONESHOT && t in s.pc && s.pc[t] == SetLoad(SIGNALED_ONESHOT)
    requires v in s.pc && s.pc[v] == OneshotAsleep && t != v
    ensures Reaches(s, actions, s1) && |actions| <= 9 && v in s1.pc && s1.pc[v] == Returned
    ensures s1.signals == s.signals + 1 && s1.resets == s.resets + 1
  {
    var loaded := s.(monitors := s.monitors + {t}, pc := s.pc[t := SetStore(SIGNALED_ONESHOT)]);
    var stored := State(SIGNALED_ONESHOT, {}, s.lock, s.pc[t := WakeOne], s.signals + 1, s.resets);
    LoadAndStore(s, t, loaded, stored);
    OneshotStep(s, Go(t, t));
    OneshotStep(loaded, Go(t, t));
    hide *;
    var rest;
    rest, s1 := WakerReturnsWait(stored, t, v);
    FirstAction(loaded, Go(t, t), rest, s1);
    FirstAction(s, Go(t, t), [Go(t, t)] + rest, s1);
    actions := [Go(t, t)] + ([Go(t, t)] + rest);
  }

  lemma WakerReturnsWait(s: State, t: Tid, v: Tid) returns (actions: seq<Action>, s1: State)
    requires Oneshot(s) && s.state == SIGNALED_ONESHOT && t in s.pc && s.pc[t] == WakeOne
    requires v in s.pc && s.pc[v] == OneshotAsleep
    ensures Reaches(s, actions, s1) && |actions| <= 7 && v in s1.pc && s1.pc[v] == Returned
    ensures s1.signals == s.signals && s1.resets == s.resets + 1
  {
    WakesOne(s, t, v);
    WokenFrom(s, t, v);
    hide Step, Enabled, Oneshot, Awake, Distance;
    var rest;
    rest, s1 := AwakeCanReturn(Step(s, Go(t, v)), v);
    FirstAction(s, Go(t, v), rest, s1);
    actions := [Go(t, v)] + rest;
  }

  lemma WokenFrom(s: State, t: Tid, v: Tid)
    requires t in s.pc && s.pc[t] == WakeOne && v in s.pc && s.pc[v] == OneshotAsleep
    ensures Enabled(s, Go(t, v)) && v in Step(s, Go(t, v)).pc && Distance(Step(s, Go(t, v)), v) == 6
    ensures Step(s, Go(t, v)).signals == s.signals
  {
    assert Sleepers(s);
  }

  /** A thread that only looks at the state. */
  lemma LookStep(s: State, t: Tid)
    requires t in s.pc
    requires || s.pc[t] == SignalIfOneshot || s.pc[t] == SignalIfSticky || s.pc[t] == StickyWait
             || s.pc[t] == IsClearedSticky || s.pc[t] == IsClearedOneshot || s.pc[t] == IsSignaledSticky
    ensures Enabled(s, Go(t, t)) && Step(s, Go(t, t)) == s.(pc := s.pc[t := Looked(s.pc[t], s.state)])
  {
  }

  lemma LoadAndStore(s: State, t: Tid, loaded: State, stored: State)
    requires t in s.pc && s.pc[t] == SetLoad(SIGNALED_ONESHOT) && s.state == CLEARED_ONESHOT
    requires loaded == s.(monitors := s.monitors + {t}, pc := s.pc[t := SetStore(SIGNALED_ONESHOT)])
    requires stored == State(SIGNALED_ONESHOT, {}, s.lock, s.pc[t := WakeOne], s.signals + 1, s.resets)
    ensures Enabled(s, Go(t, t)) && Step(s, Go(t, t)) == loaded
    ensures Enabled(loaded, Go(t, t)) && Step(loaded, Go(t, t)) == stored
  {
    assert loaded.pc[t := WakeOne] == s.pc[t := WakeOne];
  }

  lemma FirstAction(s: State, a: Action, rest: seq<Action>, s1: State)
    requires Enabled(s, a) && Reaches(Step(s, a), rest, s1)
    ensures Reaches(s, [a] + rest, s1)
  {
    hide Enabled, Step;
    assert ([a] + rest)[1..] == rest;
  }

  /** The arbiter puts a waiting thread to sleep exactly if the event is cleared. */
  lemma SleepsIffCleared(s: State, t: Tid, u: Tid)
    requires (Oneshot(s) || Sticky(s)) && Enabled(s, Go(t, u)) && (s.pc[t] == OneshotWait || s.pc[t] == StickyWait)
    ensures Asleep(Step(s, Go(t, u)).pc[t]) <==> s.state == CLEARED_ONESHOT || s.state == CLEARED_STICKY
  {
  }

  // Sticky events.

  /** Inside the lock of a signal. */
  predicate Signaling(p: Pc) {
    p == SetLoad(SIGNALED_STICKY) || p == SetStore(SIGNALED_STICKY) || p == WakeAll || p == LeaveLock
  }

  /** What each thread may be doing, given the state. */
  predicate StickyPc(p: Pc, state: int) {
    || p == IsClearedSticky || p == StickyWait || p == StickyAsleep || p == Idle
    || p == SignalIfOneshot || p == SignalIfSticky || p == EnterLock
    || p == SetLoad(SIGNALED_STICKY) || p == SetStore(SIGNALED_STICKY)
    || (state == SIGNALED_STICKY &&
        (p == IsClearedOneshot || p == IsSignaledSticky || p == Returned || p == WakeAll || p == LeaveLock))
  }

  ghost predicate Sticky(s: State) {
    && (s.state == CLEARED_STICKY || s.state == SIGNALED_STICKY)
    && (forall t :: t in s.pc ==> StickyPc(s.pc[t], s.state) && (Signaling(s.pc[t]) <==> s.lock == Thread(t)))
    && (s.lock.Thread? ==> s.lock.t in s.pc)
    && (forall t :: t in s.monitors ==> t in s.pc && s.pc[t].SetStore?)
    && (s.state == SIGNALED_STICKY && Sleepers(s) ==> exists u :: u in s.pc && s.pc[u] == WakeAll)
  }

  /** What a step makes of its own thread, of the state and of the lock. */
  lemma StickyMover(s: State, a: Action)
    requires Enabled(s, a) && (s.state == CLEARED_STICKY || s.state == SIGNALED_STICKY)
    requires StickyPc(s.pc[a.t], s.state) && (Signaling(s.pc[a.t]) <==> s.lock == Thread(a.t))
    ensures var s1, t := Step(s, a), a.t;
            && t in s1.pc && StickyPc(s1.pc[t], s1.state) && (Signaling(s1.pc[t]) <==> s1.lock == Thread(t))
            && (s1.state == s.state || (s1.state == SIGNALED_STICKY && s1.pc[t] == WakeAll))
            && (|| s1.lock == s.lock || (s1.lock == Thread(t) && s.lock == Nobody)
                || (s1.lock == Nobody && s.lock == Thread(t)))
            && (Asleep(s1.pc[t]) ==> s1.state == CLEARED_STICKY)
  {
    hide Sleepers;
  }

  lemma StickyMonitors(s: State, a: Action)
    requires Sticky(s) && Enabled(s, a)
    ensures var s1 := Step(s, a);
            s1.pc.Keys == s.pc.Keys && forall u :: u in s1.monitors ==> u in s1.pc && s1.pc[u].SetStore?
  {
    assert StickyPc(s.pc[a.t], s.state);
  }

  lemma WokenAll(s: State, a: Action)
    requires Enabled(s, a) && s.pc[a.t] == WakeAll
    ensures !Sleepers(Step(s, a))
  {
  }

  lemma StickyOther(s: State, a: Action, u: Tid)
    requires Sticky(s) && Enabled(s, a) && u in s.pc && u != a.t
    ensures var s1 := Step(s, a);
            u in s1.pc && StickyPc(s1.pc[u], s1.state) && (Signaling(s1.pc[u]) <==> s1.lock == Thread(u))
  {
    assert StickyPc(s.pc[a.t], s.state) && StickyPc(s.pc[u], s.state);
    StickyMover(s, a);
    OthersStay(s, a, u);
    hide Step, Sticky;
  }

  lemma StickyStep(s: State, a: Action)
    requires Sticky(s) && Enabled(s, a)
    ensures Sticky(Step(s, a)) && (s.state == SIGNALED_STICKY ==> Step(s, a).state == SIGNALED_STICKY)
  {
    hide Step, StickyPc, Signaling, Enabled;
    var s1, t := Step(s, a), a.t;
    StickyOwn(s, a);
    StickyMonitors(s, a);
    forall u | u in s1.pc && u != t
      ensures StickyPc(s1.pc[u], s1.state) && (Signaling(s1.pc[u]) <==> s1.lock == Thread(u))
    {
      StickyOther(s, a, u);
    }
    if s1.state == SIGNALED_STICKY && Sleepers(s1) && s1.pc[t] != WakeAll {
      StickyWakeup(s, a);
    }
  }

  lemma StickyOwn(s: State, a: Action)
    requires Sticky(s) && Enabled(s, a)
    ensures var s1, t := Step(s, a), a.t;
            && t in s1.pc && StickyPc(s1.pc[t], s1.state) && (Signaling(s1.pc[t]) <==> s1.lock == Thread(t))
            && (s1.state == s.state || s1.state == SIGNALED_STICKY)
            && (s1.lock.Thread? ==> s1.lock.t in s1.pc)
  {
    hide Step;
    assert StickyPc(s.pc[a.t], s.state);
    StickyMover(s, a);
    StickyMonitors(s, a);
  }

  lemma StickyWakeup(s: State, a: Action)
    requires Sticky(s) && Enabled(s, a)
    requires var s1 := Step(s, a); s1.state == SIGNALED_STICKY && Sleepers(s1) && a.t in s1.pc && s1.pc[a.t] != WakeAll
    ensures var s1 := Step(s, a); exists u :: u in s1.pc && s1.pc[u] == WakeAll
  {
    var s1 := Step(s, a);
    assert StickyPc(s.pc[a.t], s.state);
    StickyMover(s, a);
    hide Step, StickyPc;
    var v :| v in s1.pc && Asleep(s1.pc[v]);
    OthersStay(s, a, v);
    assert Sleepers(s);
    var u :| u in s.pc && s.pc[u] == WakeAll;
    if u == a.t {
      WokenAll(s, a);
      assert false;
    } else {
      OthersStay(s, a, u);
      assert s1.pc[u] == WakeAll;
    }
  }

  lemma {:induction false} StickyRun(s: State, actions: seq<Action>, s1: State)
    requires Sticky(s) && Reaches(s, actions, s1)
    ensures Sticky(s1)
    decreases |actions|
  {
    hide Sticky, Enabled, Step;
    if actions != [] {
      StickyStep(s, actions[0]);
      StickyRun(Step(s, actions[0]), actions[1..], s1);
    }
  }

  /** In every reachable state of a sticky event: a wait has returned only if the event is signaled, no
      two threads are in the locked part of signal, and while threads still sleep on the signaled event
      the thread that will wake them all is at its arbiter call. */
  lemma StickyExact(s0: State, actions: seq<Action>, s: State)
    requires Init(s0) && StartsSticky(s0) && Reaches(s0, actions, s)
    ensures forall t :: t in s.pc && s.pc[t] == Returned ==> s.state == SIGNALED_STICKY
    ensures forall t, u :: t in s.pc && u in s.pc && Signaling(s.pc[t]) && Signaling(s.pc[u]) ==> t == u
    ensures s.state == SIGNALED_STICKY && Sleepers(s) ==> exists u :: u in s.pc && s.pc[u] == WakeAll
  {
    assert Sticky(s0);
    StickyRun(s0, actions, s);
  }

  // What a signal does to a sticky event.

  /** Thread t's next step sets the state, enters the lock or brings it there. */
  predicate StickySetting(p: Pc) {
    p == EnterLock || p == SetLoad(SIGNALED_STICKY) || p == SetStore(SIGNALED_STICKY)
  }

  /** A signal that finds the event cleared goes on to set it; its store signals the event, and its arbiter
      call wakes every sleeper. */
  lemma StickySets(s: State, a: Action)
    requires Sticky(s) && Enabled(s, a)
    ensures var s1, t := Step(s, a), a.t;
            && t in s1.pc
            && (a.Go? && s.pc[t] == SignalIfOneshot ==> s1.pc[t] == SignalIfSticky)
            && (a.Go? && s.pc[t] == SignalIfSticky && s.state == CLEARED_STICKY ==> StickySetting(s1.pc[t]))
            && (StickySetting(s.pc[t]) ==>
                  || StickySetting(s1.pc[t])
                  || (a.Go? && s.pc[t] == SetStore(SIGNALED_STICKY) && s1.pc[t] == WakeAll
                      && s1.state == SIGNALED_STICKY))
            && (s.pc[t] == WakeAll ==>
                  && a.Go? && s1.pc[t] == LeaveLock && !Sleepers(s1)
                  && forall v :: v in s.pc && Asleep(s.pc[v]) ==> v in s1.pc && s1.pc[v] == Returned)
  {
    assert StickyPc(s.pc[a.t], s.state);
    if s.pc[a.t] == WakeAll {
      WokenAll(s, a);
      forall v | v in s.pc && Asleep(s.pc[v]) ensures v in Step(s, a).pc && Step(s, a).pc[v] == Returned {
        assert StickyPc(s.pc[v], s.state);
      }
    }
  }

  /** A signaller that is setting a sticky event is outside again only with the event signaled and without
      sleepers. */
  lemma {:induction false} StickySignalTakesEffect(s: State, actions: seq<Action>, s1: State, t: Tid)
    requires Sticky(s) && Reaches(s, actions, s1)
    requires t in s.pc && (StickySetting(s.pc[t]) || (s.pc[t] == WakeAll && s.state == SIGNALED_STICKY))
    requires t in s1.pc && s1.pc[t] == Idle
    ensures s1.state == SIGNALED_STICKY && !Sleepers(s1)
    decreases |actions|
  {
    hide Sticky, Step, Enabled, Sleepers;
    if actions != [] {
      StickyStep(s, actions[0]);
      StickySets(s, actions[0]);
      ActorIsThread(s, actions[0]);
      if actions[0].t != t {
        StickyOtherStays(s, actions[0], t);
      }
      if actions[0].t == t && s.pc[t] == WakeAll {
        SignaledForGood(Step(s, actions[0]), actions[1..], s1);
      } else {
        StickySignalTakesEffect(Step(s, actions[0]), actions[1..], s1, t);
      }
    }
  }

  lemma StickyOtherStays(s: State, a: Action, t: Tid)
    requires Enabled(s, a) && t in s.pc && t != a.t && (StickySetting(s.pc[t]) || s.pc[t] == WakeAll)
    ensures t in Step(s, a).pc && Step(s, a).pc[t] == s.pc[t]
  {
    OthersStay(s, a, t);
  }

  /** A signaled sticky event without sleepers stays so. */
  lemma {:induction false} SignaledForGood(s: State, actions: seq<Action>, s1: State)
    requires Sticky(s) && s.state == SIGNALED_STICKY && !Sleepers(s) && Reaches(s, actions, s1)
    ensures s1.state == SIGNALED_STICKY && !Sleepers(s1)
    decreases |actions|
  {
    hide Sticky, Step, Enabled;
    if actions != [] {
      StickyStep(s, actions[0]);
      NobodySleeps(s, actions[0]);
      hide Sleepers;
      SignaledForGood(Step(s, actions[0]), actions[1..], s1);
    }
  }

  lemma NobodySleeps(s: State, a: Action)
    requires Sticky(s) && s.state == SIGNALED_STICKY && !Sleepers(s) && Enabled(s, a)
    ensures !Sleepers(Step(s, a))
  {
    assert StickyPc(s.pc[a.t], s.state);
    StickyMover(s, a);
    StickyStep(s, a);
    hide Step;
    if Sleepers(Step(s, a)) {
      ThreadsStay(s, a);
      var v :| v in Step(s, a).pc && Asleep(Step(s, a).pc[v]);
      if v != a.t { OthersStay(s, a, v); }
    }
  }

  /** How many steps a signaller is from having woken everybody, if it has or gets the lock. */
  function SignalDistance(s: State, t: Tid): nat
    requires t in s.pc
  {
    match s.pc[t]
    case SignalIfOneshot => 6
    case SignalIfSticky => 5
    case EnterLock => 4
    case SetLoad(_) => 3
    case SetStore(_) => if t in s.monitors then 2 else 4
    case _ => 1
  }

  /** On the way to waking everybody. */
  predicate OnTheWay(s: State, t: Tid)
    requires t in s.pc
  {
    || (s.state == CLEARED_STICKY && s.lock == Nobody &&
        (s.pc[t] == SignalIfOneshot || s.pc[t] == SignalIfSticky || s.pc[t] == EnterLock))
    || s.pc[t] == SetLoad(SIGNALED_STICKY) || s.pc[t] == SetStore(SIGNALED_STICKY)
    || (s.pc[t] == WakeAll && s.state == SIGNALED_STICKY)
  }

  lemma SignallerNext(s: State, t: Tid, a: Action)
    requires Sticky(s) && t in s.pc && OnTheWay(s, t) && s.pc[t] != WakeAll
    requires a == if s.pc[t].SetStore? && t !in s.monitors then Fail(t) else Go(t, t)
    ensures Enabled(s, a) && var s1 := Step(s, a);
            t in s1.pc && OnTheWay(s1, t) && SignalDistance(s1, t) == SignalDistance(s, t) - 1
  {
  }

  lemma {:induction false} SignallerWakes(s: State, t: Tid) returns (actions: seq<Action>, s1: State)
    requires Sticky(s) && t in s.pc && OnTheWay(s, t)
    ensures Reaches(s, actions, s1) && |actions| == SignalDistance(s, t)
    ensures s1.state == SIGNALED_STICKY && !Sleepers(s1)
    ensures forall v :: v in s.pc && Asleep(s.pc[v]) ==> v in s1.pc && s1.pc[v] == Returned
    decreases SignalDistance(s, t)
  {
    var a := if s.pc[t].SetStore? && t !in s.monitors then Fail(t) else Go(t, t);
    if s.pc[t] == WakeAll {
      StickyStep(s, a);
      StickySets(s, a);
      actions, s1 := [a], Step(s, a);
      assert actions[1..] == [];
    } else {
      SignallerNext(s, t, a);
      hide Step, Enabled, OnTheWay, Sticky, SignalDistance;
      StickyStep(s, a);
      var next := Step(s, a);
      forall v | v in s.pc && Asleep(s.pc[v]) ensures v in next.pc && next.pc[v] == s.pc[v] {
        SleepsOn(s, a, v);
      }
      var rest;
      rest, s1 := SignallerWakes(next, t);
      FirstAction(s, a, rest, s1);
      actions := [a] + rest;
    }
  }

  /** Nobody is woken by a step other than an arbiter call of a signal. */
  lemma SleepsOn(s: State, a: Action, v: Tid)
    requires Sticky(s) && Enabled(s, a) && s.pc[a.t] != WakeAll && v in s.pc && Asleep(s.pc[v])
    ensures v in Step(s, a).pc && Step(s, a).pc[v] == s.pc[v]
  {
    assert StickyPc(s.pc[a.t], s.state);
    hide Step;
    if v != a.t { OthersStay(s, a, v); }
  }

  /** From every reachable state in which a call of signal is about to look at a cleared sticky event, the
      event can be signaled and every sleeper have returned within six steps; if another signal is in the
      lock, by that one's steps. */
  lemma StickySignalWakesAll(s0: State, before: seq<Action>, s: State, t: Tid)
      returns (actions: seq<Action>, s1: State)
    requires Init(s0) && StartsSticky(s0) && Reaches(s0, before, s)
    requires s.state == CLEARED_STICKY && t in s.pc && s.pc[t] == SignalIfOneshot
    ensures Reaches(s, actions, s1) && |actions| <= 6 && s1.state == SIGNALED_STICKY && !Sleepers(s1)
    ensures forall v :: v in s.pc && Asleep(s.pc[v]) ==> v in s1.pc && s1.pc[v] == Returned
  {
    assert Sticky(s0);
    StickyRun(s0, before, s);
    if s.lock == Nobody {
      actions, s1 := SignallerWakes(s, t);
    } else {
      var u := s.lock.t;
      assert Signaling(s.pc[u]) && StickyPc(s.pc[u], s.state);
      actions, s1 := SignallerWakes(s, u);
    }
  }

  /** A wait on a signaled sticky event returns by at most three steps of its own. */
  lemma StickyWaitReturns(s0: State, before: seq<Action>, s: State, t: Tid) returns (actions: seq<Action>, s1: State)
    requires Init(s0) && StartsSticky(s0) && Reaches(s0, before, s)
    requires s.state == SIGNALED_STICKY && t in s.pc && (Awake(s.pc[t]) || s.pc[t] == StickyWait)
    ensures Reaches(s, actions, s1) && |actions| <= 3 && t in s1.pc && s1.pc[t] == Returned
    ensures forall a :: a in actions ==> a == Go(t, t)
  {
    assert Sticky(s0);
    StickyRun(s0, before, s);
    assert StickyPc(s.pc[t], s.state);
    actions, s1 := LooksAndReturns(s, t);
  }

  lemma {:induction false} LooksAndReturns(s: State, t: Tid) returns (actions: seq<Action>, s1: State)
    requires s.state == SIGNALED_STICKY && t in s.pc
    requires || s.pc[t] == IsClearedSticky || s.pc[t] == IsClearedOneshot || s.pc[t] == IsSignaledSticky
             || s.pc[t] == StickyWait
    ensures Reaches(s, actions, s1) && t in s1.pc && s1.pc[t] == Returned
    ensures |actions| == (if s.pc[t] == IsClearedSticky then 3 else if s.pc[t] == IsClearedOneshot then 2 else 1)
    ensures forall a :: a in actions ==> a == Go(t, t)
    decreases if s.pc[t] == IsClearedSticky then 3 else if s.pc[t] == IsClearedOneshot then 2 else 1
  {
    LookStep(s, t);
    hide Step, Enabled;
    var next := Step(s, Go(t, t));
    if next.pc[t] == Returned {
      actions, s1 := [Go(t, t)], next;
      assert actions[1..] == [];
    } else {
      var rest;
      rest, s1 := LooksAndReturns(next, t);
      FirstAction(s, Go(t, t), rest, s1);
      actions := [Go(t, t)] + rest;
    }
  }
}
