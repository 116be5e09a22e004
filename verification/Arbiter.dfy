/** The two-priority lock in front of one modem module, as the interleaving of its
    critical sections.

    A caller of `acquire` registers, then either takes the module in the same critical
    section or sleeps on the condition variable.  A sleeper is woken by `notify_all` or
    spuriously, and then re-tests its loop condition under the mutex.  Releasing is two
    separate moments: `held` is cleared under the mutex, the mutex is dropped, and only
    then is `notify_all` called.  Any number of callers may be anywhere in this. */
module Arbiter {
  type Caller = nat

  datatype Priority = Normal | Aka

  /** Where a caller stands.  Callers absent from the map are not using the arbiter. */
  datatype Place =
    | Asleep(priority: Priority)   // inside `Condvar::wait`
    | Awake(priority: Priority)    // returned from `wait`, about to re-test the loop condition
    | Holding                      // owns the `ModemLease`
    | Notifying                    // has cleared `held`, has not yet called `notify_all`

  datatype State = State(held: bool, waitingNormal: int, waitingAka: int, callers: map<Caller, Place>)

  const Initial := State(false, 0, 0, map[])

  predicate IsWaiting(p: Place) {
    p.Asleep? || p.Awake?
  }

  /** The classes callers are counted in. */
  datatype Class = Waits(priority: Priority) | Holds | Notifies | IsAwake

  predicate Is(p: Place, c: Class) {
    match c
    case Waits(priority) => IsWaiting(p) && p.priority == priority
    case Holds => p.Holding?
    case Notifies => p.Notifying?
    case IsAwake => p.Awake?
  }

  function Members(callers: map<Caller, Place>, c: Class): set<Caller> {
    set t | t in callers && Is(callers[t], c)
  }

  function Count(callers: map<Caller, Place>, c: Class): nat {
    |Members(callers, c)|
  }

  /** The guard of the wait loop: an AKA caller waits only for the holder, a normal caller
      also for every registered AKA caller. */
  predicate Blocked(s: State, priority: Priority) {
    s.held || (priority.Normal? && s.waitingAka > 0)
  }

  function Register(s: State, t: Caller, priority: Priority): State {
    match priority
    case Aka => s.(waitingAka := s.waitingAka + 1, callers := s.callers[t := Awake(priority)])
    case Normal => s.(waitingNormal := s.waitingNormal + 1, callers := s.callers[t := Awake(priority)])
  }

  /** Leaving the wait loop: unregister and take the module. */
  function Grant(s: State, t: Caller, priority: Priority): State {
    var freed := match priority
                 case Aka => s.(waitingAka := s.waitingAka - 1)
                 case Normal => s.(waitingNormal := s.waitingNormal - 1);
    freed.(held := true, callers := s.callers[t := Holding])
  }

  /** One evaluation of the wait loop's guard under the mutex. */
  function Test(s: State, t: Caller, priority: Priority): State {
    if Blocked(s, priority) then s.(callers := s.callers[t := Asleep(priority)])
    else Grant(s, t, priority)
  }

  function WakeAll(callers: map<Caller, Place>): map<Caller, Place> {
    map t | t in callers :: if callers[t].Asleep? then Awake(callers[t].priority) else callers[t]
  }

  datatype Action =
    | Arrive(t: Caller, priority: Priority)  // `acquire`, up to the first guard test
    | Recheck(t: Caller)                     // a woken waiter re-tests the guard
    | Spurious(t: Caller)                    // the condition variable returns for no reason
    | ClearHeld(t: Caller)                   // first half of `release`
    | NotifyAll(t: Caller)                   // second half of `release`

  predicate Enabled(s: State, a: Action) {
    match a
    case Arrive(t, _) => t !in s.callers
    case Recheck(t) => t in s.callers && s.callers[t].Awake?
    case Spurious(t) => t in s.callers && s.callers[t].Asleep?
    case ClearHeld(t) => t in s.callers && s.callers[t].Holding?
    case NotifyAll(t) => t in s.callers && s.callers[t].Notifying?
  }

  function Step(s: State, a: Action): State
    requires Enabled(s, a)
  {
    match a
    case Arrive(t, priority) => Test(Register(s, t, priority), t, priority)
    case Recheck(t) => Test(s, t, s.callers[t].priority)
    case Spurious(t) => s.(callers := s.callers[t := Awake(s.callers[t].priority)])
    case ClearHeld(t) => s.(held := false, callers := s.callers[t := Notifying])
    case NotifyAll(t) => s.(callers := WakeAll(s.callers - {t}))
  }

  // ----- What every interleaving keeps ------------------------------------

  /** The mutex-protected fields describe the callers exactly. */
  predicate Accurate(s: State) {
    && s.waitingNormal == Count(s.callers, Waits(Normal))
    && s.waitingAka == Count(s.callers, Waits(Aka))
    && Count(s.callers, Holds) == if s.held then 1 else 0
  }

  /** With the module free and no notification outstanding, nobody who could go is asleep. */
  ghost predicate NobodyForgotten(s: State) {
    !s.held && Count(s.callers, Notifies) == 0 ==>
      forall t :: t in s.callers && s.callers[t].Asleep? ==> Blocked(s, s.callers[t].priority)
  }

  ghost predicate Invariant(s: State) {
    Accurate(s) && NobodyForgotten(s)
  }

  /** How a count changes when `t` moves to `p`. */
  lemma CountMoved(callers: map<Caller, Place>, t: Caller, p: Place, c: Class)
    ensures Count(callers[t := p], c) ==
            Count(callers, c) - (if t in callers && Is(callers[t], c) then 1 else 0) + (if Is(p, c) then 1 else 0)
  {
    var rest := Members(callers, c) - {t};
    assert Members(callers[t := p], c) == if Is(p, c) then rest + {t} else rest;
  }

  lemma CountWoken(callers: map<Caller, Place>, t: Caller, c: Class)
    requires t in callers && callers[t].Notifying? && !c.IsAwake?
    ensures Count(WakeAll(callers - {t}), c) == Count(callers, c) - if c.Notifies? then 1 else 0
  {
    assert Members(WakeAll(callers - {t}), c) == Members(callers, c) - if c.Notifies? then {t} else {};
    assert c.Notifies? <==> t in Members(callers, c);
  }

  lemma CountAll(callers: map<Caller, Place>, t: Caller, p: Place)
    ensures forall c :: Count(callers[t := p], c) ==
                        Count(callers, c) - (if t in callers && Is(callers[t], c) then 1 else 0) + (if Is(p, c) then 1 else 0)
  {
    forall c {
      CountMoved(callers, t, p, c);
    }
  }

  lemma StepKeepsAccurate(s: State, a: Action)
    requires Enabled(s, a) && Accurate(s)
    ensures Accurate(Step(s, a))
  {
    match a
    case Arrive(t, priority) =>
      var r := Register(s, t, priority);
      CountAll(s.callers, t, Awake(priority));
      CountAll(r.callers, t, Step(s, a).callers[t]);
    case NotifyAll(t) =>
      CountWoken(s.callers, t, Waits(Normal));
      CountWoken(s.callers, t, Waits(Aka));
      CountWoken(s.callers, t, Holds);
    case _ => CountAll(s.callers, a.t, Step(s, a).callers[a.t]);
  }

  lemma StepKeepsNobodyForgotten(s: State, a: Action)
    requires Enabled(s, a) && Invariant(s)
    ensures NobodyForgotten(Step(s, a))
  {
    StepKeepsAccurate(s, a);
    if !a.NotifyAll? {
      var t := a.t;
      var r := Step(s, a);
      assert r.callers == s.callers[t := r.callers[t]];
      CountMoved(s.callers, t, r.callers[t], Notifies);
      CountMoved(s.callers, t, r.callers[t], Waits(Aka));
    }
  }

  // ----- Runs --------------------------------------------------------------

  predicate IsRun(s: State, actions: seq<Action>)
    decreases |actions|
  {
    actions == [] || (Enabled(s, actions[0]) && IsRun(Step(s, actions[0]), actions[1..]))
  }

  function After(s: State, actions: seq<Action>): State
    requires IsRun(s, actions)
    decreases |actions|
  {
    if actions == [] then s else After(Step(s, actions[0]), actions[1..])
  }

  lemma {:induction false} RunKeepsInvariant(s: State, actions: seq<Action>)
    requires Invariant(s) && IsRun(s, actions)
    ensures Invariant(After(s, actions))
    decreases |actions|
  {
    if actions != [] {
      StepKeepsAccurate(s, actions[0]);
      StepKeepsNobodyForgotten(s, actions[0]);
      RunKeepsInvariant(Step(s, actions[0]), actions[1..]);
    }
  }

  /** At most one member when the count is at most one. */
  lemma CountOne(callers: map<Caller, Place>, c: Class, t: Caller, u: Caller)
    requires t in Members(callers, c) && u in Members(callers, c) && Count(callers, c) <= 1
    ensures t == u
  {
    if t != u {
      assert {t, u} <= Members(callers, c);
      SubsetCardinality({t, u}, Members(callers, c));
    }
  }

  lemma CountZero(callers: map<Caller, Place>, c: Class)
    ensures Count(callers, c) == 0 <==> forall t :: t in callers ==> !Is(callers[t], c)
  {
    if t :| t in callers && Is(callers[t], c) {
      assert t in Members(callers, c);
    } else {
      assert Members(callers, c) == {};
    }
  }

  /** Mutual exclusion and exact bookkeeping, in every interleaving. */
  lemma MutualExclusion(actions: seq<Action>)
    requires IsRun(Initial, actions)
    ensures var s := After(Initial, actions);
            && (forall t, u :: t in s.callers && u in s.callers && s.callers[t].Holding? && s.callers[u].Holding? ==> t == u)
            && (s.held <==> exists t :: t in s.callers && s.callers[t].Holding?)
            && s.waitingNormal == Count(s.callers, Waits(Normal))
            && s.waitingAka == Count(s.callers, Waits(Aka))
  {
    RunKeepsInvariant(Initial, actions);
    var s := After(Initial, actions);
    forall t, u | t in s.callers && u in s.callers && s.callers[t].Holding? && s.callers[u].Holding?
      ensures t == u
    {
      CountOne(s.callers, Holds, t, u);
    }
    CountZero(s.callers, Holds);
  }

  /** Re-testing now would hand `t` the module. */
  predicate CanTake(s: State, t: Caller) {
    && Enabled(s, Recheck(t))
    && Step(s, Recheck(t)).callers[t].Holding?
  }

  /** No lost wakeup.  Whenever the module is free and somebody waits, either a
      `notify_all` is still to come or a waiter is awake and its next test succeeds:
      every AKA waiter if there is one, otherwise every normal waiter. */
  lemma NoLostWakeup(actions: seq<Action>, t: Caller)
    requires IsRun(Initial, actions)
    requires var s := After(Initial, actions); !s.held && t in s.callers && IsWaiting(s.callers[t])
    ensures var s := After(Initial, actions);
            var akaWaits := exists u :: u in s.callers && Is(s.callers[u], Waits(Aka));
            || (exists u :: u in s.callers && s.callers[u].Notifying?)
            || (&& (forall u :: u in s.callers && Is(s.callers[u], Waits(if akaWaits then Aka else Normal)) ==> CanTake(s, u))
                && (exists u :: CanTake(s, u)))
  {
    RunKeepsInvariant(Initial, actions);
    var s := After(Initial, actions);
    CountZero(s.callers, Notifies);
    CountZero(s.callers, Waits(Aka));
    if Count(s.callers, Notifies) == 0 {
      if u :| u in s.callers && Is(s.callers[u], Waits(Aka)) {
        assert CanTake(s, u);
      } else {
        assert CanTake(s, t);
      }
    }
  }

  /** Step `i` of a run hands the module to a caller of this priority. */
  ghost predicate GrantsAt(actions: seq<Action>, i: nat, t: Caller, priority: Priority)
    requires i < |actions| && IsRun(Initial, actions)
  {
    RunPrefix(Initial, actions, i);
    RunPrefix(Initial, actions, i + 1);
    var s := After(Initial, actions[..i]);
    var r := After(Initial, actions[..i + 1]);
    && t in r.callers && r.callers[t].Holding?
    && (match actions[i]
        case Arrive(u, p) => u == t && p == priority
        case Recheck(u) => u == t && t in s.callers && s.callers[t] == Awake(priority)
        case _ => false)
  }

  ghost predicate WaitsAt(actions: seq<Action>, i: nat, t: Caller, priority: Priority)
    requires i <= |actions| && IsRun(Initial, actions)
  {
    RunPrefix(Initial, actions, i);
    var s := After(Initial, actions[..i]);
    t in s.callers && Is(s.callers[t], Waits(priority))
  }

  lemma {:induction false} RunPrefix(s: State, actions: seq<Action>, i: nat)
    requires i <= |actions| && IsRun(s, actions)
    ensures IsRun(s, actions[..i])
    ensures i < |actions| ==>
      Enabled(After(s, actions[..i]), actions[i]) &&
      IsRun(s, actions[..i + 1]) && After(s, actions[..i + 1]) == Step(After(s, actions[..i]), actions[i])
    decreases |actions|
  {
    if i == 0 {
      if actions != [] {
        assert actions[..1][1..] == [];
      }
    } else {
      assert actions[..i][1..] == actions[1..][..i - 1];
      RunPrefix(Step(s, actions[0]), actions[1..], i - 1);
      if i < |actions| {
        assert actions[..i + 1][1..] == actions[1..][..i];
      }
    }
  }

  /** Priority: from the moment an AKA caller is registered until it is granted the module,
      no normal caller is granted it. */
  lemma AkaIsNeverOvertaken(actions: seq<Action>, i: nat, waiting: Caller, granted: Caller)
    requires i < |actions| && IsRun(Initial, actions)
    requires WaitsAt(actions, i, waiting, Aka)
    ensures !GrantsAt(actions, i, granted, Normal)
  {
    RunPrefix(Initial, actions, i);
    RunKeepsInvariant(Initial, actions[..i]);
    CountZero(After(Initial, actions[..i]).callers, Waits(Aka));
  }

  // ----- Progress ----------------------------------------------------------

  /** Everything except a new arrival or a spurious wakeup. */
  predicate Closing(a: Action) {
    a.Recheck? || a.ClearHeld? || a.NotifyAll?
  }

  function Work(s: State): nat {
    3 * (Count(s.callers, Waits(Normal)) + Count(s.callers, Waits(Aka)))
    + 2 * Count(s.callers, Holds) + Count(s.callers, Notifies)
  }

  /** Bounds how many closing steps are left. */
  function Remaining(s: State): nat {
    Work(s) * (|s.callers.Keys| + 1) + Count(s.callers, IsAwake)
  }

  lemma SubsetCardinality(a: set<Caller>, b: set<Caller>)
    requires a <= b
    ensures |a| <= |b|
  {
    if a != {} {
      var x :| x in a;
      SubsetCardinality(a - {x}, b - {x});
    }
  }

  lemma BackToSleepShrinks(s: State, t: Caller)
    requires Enabled(s, Recheck(t)) && Blocked(s, s.callers[t].priority)
    ensures Remaining(Step(s, Recheck(t))) < Remaining(s)
  {
    CountAll(s.callers, t, Asleep(s.callers[t].priority));
    assert Step(s, Recheck(t)).callers.Keys == s.callers.Keys;
  }

  lemma ClosingStepShrinksWork(s: State, a: Action)
    requires Enabled(s, a) && Closing(a)
    requires a.Recheck? ==> !Blocked(s, s.callers[a.t].priority)
    ensures Work(Step(s, a)) < Work(s)
  {
    if a.NotifyAll? {
      forall c: Class | !c.IsAwake? {
        CountWoken(s.callers, a.t, c);
      }
    } else {
      CountAll(s.callers, a.t, Step(s, a).callers[a.t]);
    }
  }

  lemma ProductShrinks(w: nat, w': nat, n: nat, n': nat, a: nat, a': nat)
    requires w' < w && n' <= n && a' <= n'
    ensures w' * (n' + 1) + a' < w * (n + 1) + a
  {
    ProductGrows(w', n' + 1, n + 1);
    ProductGrows(n + 1, w' + 1, w);
    calc {
      w' * (n' + 1) + a';
    <=
      (n + 1) * w' + a';
    <
      (n + 1) * w' + (n + 1);
    ==
      (n + 1) * (w' + 1);
    <=
      (n + 1) * w;
    }
  }

  lemma ProductGrows(k: nat, a: nat, b: nat)
    requires a <= b
    ensures k * a <= k * b
  {
  }

  lemma ClosingStepShrinks(s: State, a: Action)
    requires Enabled(s, a) && Closing(a)
    ensures Remaining(Step(s, a)) < Remaining(s)
  {
    if a.Recheck? && Blocked(s, s.callers[a.t].priority) {
      BackToSleepShrinks(s, a.t);
    } else {
      var r := Step(s, a);
      ClosingStepShrinksWork(s, a);
      SubsetCardinality(r.callers.Keys, s.callers.Keys);
      SubsetCardinality(Members(r.callers, IsAwake), r.callers.Keys);
      ProductShrinks(Work(s), Work(r), |s.callers.Keys|, |r.callers.Keys|, Count(s.callers, IsAwake), Count(r.callers, IsAwake));
    }
  }

  /** Once arrivals and spurious wakeups stop, the arbiter drains: whatever the schedule,
      the number of steps is bounded, and the only states in which nothing is left to do are
      those in which every caller, normal ones included, has had the module and given it back. */
  lemma {:induction false} Drains(s: State, actions: seq<Action>)
    requires Invariant(s) && IsRun(s, actions)
    requires forall a :: a in actions ==> Closing(a)
    ensures |actions| <= Remaining(s)
    ensures var r := After(s, actions);
            (forall a :: Closing(a) ==> !Enabled(r, a)) <==> r.callers == map[]
    decreases |actions|
  {
    if actions == [] {
      StuckMeansEmpty(s);
    } else {
      ClosingStepShrinks(s, actions[0]);
      StepKeepsAccurate(s, actions[0]);
      StepKeepsNobodyForgotten(s, actions[0]);
      Drains(Step(s, actions[0]), actions[1..]);
    }
  }

  /** A waiter leaves the arbiter only after holding the module. */
  lemma {:induction false} ServedBeforeLeaving(s: State, actions: seq<Action>, t: Caller) returns (i: nat)
    requires IsRun(s, actions)
    requires t in s.callers && IsWaiting(s.callers[t])
    requires t !in After(s, actions).callers
    ensures i <= |actions| && IsRun(s, actions[..i])
    ensures t in After(s, actions[..i]).callers && After(s, actions[..i]).callers[t].Holding?
    decreases |actions|
  {
    var r := Step(s, actions[0]);
    assert actions[..1][1..] == [];
    if r.callers[t].Holding? {
      i := 1;
    } else {
      var k := ServedBeforeLeaving(r, actions[1..], t);
      i := k + 1;
      assert actions[..i][1..] == actions[1..][..k];
    }
  }

  lemma StuckMeansEmpty(s: State)
    requires Invariant(s)
    ensures (forall a :: Closing(a) ==> !Enabled(s, a)) <==> s.callers == map[]
  {
    if forall a :: Closing(a) ==> !Enabled(s, a) {
      forall t | t in s.callers
        ensures s.callers[t].Asleep?
      {
        assert !Enabled(s, Recheck(t)) && !Enabled(s, ClearHeld(t)) && !Enabled(s, NotifyAll(t));
      }
      CountZero(s.callers, Holds);
      CountZero(s.callers, Notifies);
      CountZero(s.callers, Waits(Aka));
      assert s.callers.Keys == {};
    } else {
      var a :| Closing(a) && Enabled(s, a);
      assert a.t in s.callers;
    }
  }

  // ----- The arbiter object ------------------------------------------------

  /** The mutex-protected fields.  `callers` records, for the proofs only, where each thread
      is; every method below is one critical section and is tied to its action. */
  class ModemArbiter {
    var held: bool
    var waitingNormal: int
    var waitingAka: int
    ghost var callers: map<Caller, Place>

    ghost function Abstract(): State
      reads this
    {
      State(held, waitingNormal, waitingAka, callers)
    }

    constructor ()
      ensures Abstract() == Initial
    {
      held, waitingNormal, waitingAka := false, 0, 0;
      callers := map[];
    }

    /** `acquire` up to the first return from the wait loop's guard: the caller either owns
        the module or has gone to sleep. */
    method Arrive(ghost t: Caller, priority: Priority) returns (granted: bool)
      requires Enabled(Abstract(), Action.Arrive(t, priority))
      modifies this
      ensures Abstract() == Step(old(Abstract()), Action.Arrive(t, priority))
      ensures granted == callers[t].Holding?
      ensures granted <==> !old(held) && (priority == Aka || old(waitingAka) <= 0)
      ensures granted ==> held && waitingNormal == old(waitingNormal) && waitingAka == old(waitingAka)
      ensures !granted ==> held == old(held) && callers[t] == Asleep(priority)
                           && waitingNormal == old(waitingNormal) + (if priority == Normal then 1 else 0)
                           && waitingAka == old(waitingAka) + (if priority == Aka then 1 else 0)
    {
      match priority {
        case Aka => waitingAka := waitingAka + 1;
        case Normal => waitingNormal := waitingNormal + 1;
      }
      callers := callers[t := Awake(priority)];
      granted := TestGuard(t, priority);
      assert old(callers)[t := Awake(priority)][t := callers[t]] == callers;
    }

    /** One pass of `while` in `acquire`, entered holding the mutex. */
    method TestGuard(ghost t: Caller, priority: Priority) returns (granted: bool)
      requires t in callers && callers[t] == Awake(priority)
      modifies this
      ensures Abstract() == Test(old(Abstract()), t, priority)
      ensures granted == callers[t].Holding?
      ensures granted <==> !old(held) && (priority == Aka || old(waitingAka) <= 0)
      ensures granted ==> held
                          && waitingNormal == old(waitingNormal) - (if priority == Normal then 1 else 0)
                          && waitingAka == old(waitingAka) - (if priority == Aka then 1 else 0)
      ensures !granted ==> held == old(held) && waitingNormal == old(waitingNormal) && waitingAka == old(waitingAka)
    {
      var blocked := match priority
        case Aka => held
        case Normal => held || waitingAka > 0;
      if blocked {
        callers := callers[t := Asleep(priority)];
        return false;
      }
      match priority {
        case Aka => waitingAka := waitingAka - 1;
        case Normal => waitingNormal := waitingNormal - 1;
      }
      held := true;
      callers := callers[t := Holding];
      return true;
    }

    /** `release` up to dropping the mutex. */
    method ClearHeld(ghost t: Caller)
      requires Enabled(Abstract(), Action.ClearHeld(t))
      modifies this
      ensures Abstract() == Step(old(Abstract()), Action.ClearHeld(t))
      ensures !held && waitingNormal == old(waitingNormal) && waitingAka == old(waitingAka)
      ensures callers == old(callers)[t := Notifying]
    {
      held := false;
      callers := callers[t := Notifying];
    }

    /** The `notify_all` after the mutex is dropped: no protected field changes, every sleeper
        becomes a contender. */
    method NotifyAll(ghost t: Caller)
      requires Enabled(Abstract(), Action.NotifyAll(t))
      modifies this`callers
      ensures Abstract() == Step(old(Abstract()), Action.NotifyAll(t))
      ensures callers.Keys == old(callers).Keys - {t}
      ensures forall u :: u in callers ==>
                if old(callers)[u].Asleep? then callers[u] == Awake(old(callers)[u].priority) else callers[u] == old(callers)[u]
    {
      callers := WakeAll(callers - {t});
    }

    /** What `waiting` reports is what the callers are doing, in every reachable state. */
    method Waiting() returns (normal: int, aka: int, isHeld: bool)
      requires Invariant(Abstract())
      ensures normal == Count(callers, Waits(Normal))
      ensures aka == Count(callers, Waits(Aka))
      ensures isHeld <==> exists t :: t in callers && callers[t].Holding?
    {
      normal, aka, isHeld := waitingNormal, waitingAka, held;
      CountZero(callers, Holds);
    }
  }
}
