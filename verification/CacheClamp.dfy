/**
 * The two timeouts of the passphrase cache (`rust/src/cache.rs`), which `set_ttl`
 * stores one after the other: exactly when the absolute cap stays at or above the
 * idle window.
 */
module CacheClamp {
  import opened Common
  import opened CacheThreads

  /** No reconfiguration is half done. */
  predicate Settled(w: World) {
    forall t :: t in w.threads ==> !w.threads[t].HalfSet?
  }

  /**
   * Two overlapping reconfigurations can leave the cap below the idle window for
   * good: the first to store its idle window is the last to store its cap.
   */
  lemma OverlappingSetsLoseTheClamp()
    ensures var actions := [StoreTtl(0, 1, 1), StoreTtl(1, 9, 9), StoreMax(1), StoreMax(0)];
            && IsRun(NewWorld(5, 5), actions)
            && Settled(After(NewWorld(5, 5), actions))
            && After(NewWorld(5, 5), actions).maxTtl < After(NewWorld(5, 5), actions).ttl
  {
    var w := NewWorld(5, 5);
    var actions := [StoreTtl(0, 1, 1), StoreTtl(1, 9, 9), StoreMax(1), StoreMax(0)];
    assert actions[..3][..2] == actions[..2] && actions[..2][..1] == actions[..1] && actions[..1][..0] == [];
    assert IsRun(w, []) && After(w, []) == w;
    var w1 := Do(w, actions[0]);
    assert IsRun(w, actions[..1]) && After(w, actions[..1]) == w1;
    var w2 := Do(w1, actions[1]);
    assert IsRun(w, actions[..2]) && After(w, actions[..2]) == w2;
    var w3 := Do(w2, actions[2]);
    assert IsRun(w, actions[..3]) && After(w, actions[..3]) == w3;
  }

  // ----- exactly when the cap stays at or above the idle window

  /** The call, named by the step of its first store, that stored the idle window last. */
  function IdleCall(actions: seq<Action>): (r: Option<nat>)
    ensures r.Some? ==> r.value < |actions| && actions[r.value].StoreTtl?
  {
    if actions == [] then None
    else if actions[|actions| - 1].StoreTtl? then Some(|actions| - 1)
    else IdleCall(actions[..|actions| - 1])
  }

  /** The last call that thread `t` began. */
  function CallOf(actions: seq<Action>, t: nat): (r: Option<nat>)
    ensures r.Some? ==> r.value < |actions| && actions[r.value].StoreTtl?
  {
    if actions == [] then None
    else if actions[|actions| - 1].StoreTtl? && actions[|actions| - 1].t == t then Some(|actions| - 1)
    else CallOf(actions[..|actions| - 1], t)
  }

  /** The call that stored the cap last. */
  function CapCall(actions: seq<Action>): (r: Option<nat>)
    ensures r.Some? ==> r.value < |actions| && actions[r.value].StoreTtl?
  {
    if actions == [] then None
    else if actions[|actions| - 1].StoreMax? then CallOf(actions[..|actions| - 1], actions[|actions| - 1].t)
    else CapCall(actions[..|actions| - 1])
  }

  function IdleStored(ttl: nat, actions: seq<Action>): nat {
    if IdleCall(actions).None? then ttl else actions[IdleCall(actions).value].ttl
  }

  function CapOf(a: Action): nat
    requires a.StoreTtl?
  {
    Max(a.maxTtl, a.ttl)
  }

  function CapStored(ttl: nat, maxTtl: nat, actions: seq<Action>): nat {
    if CapCall(actions).None? then Max(maxTtl, ttl) else CapOf(actions[CapCall(actions).value])
  }

  /** A thread between its two stores is about to store the cap of the call it began. */
  predicate Pending(w: World, actions: seq<Action>) {
    forall t :: t in w.threads && w.threads[t].HalfSet? ==>
      CallOf(actions, t).Some? && w.threads[t].maxTtl == CapOf(actions[CallOf(actions, t).value])
  }

  /** After any run the two timeouts are those of the calls that stored them last. */
  lemma {:induction false} TimeoutsAfter(ttl: nat, maxTtl: nat, actions: seq<Action>)
    requires IsRun(NewWorld(ttl, maxTtl), actions)
    ensures var w := After(NewWorld(ttl, maxTtl), actions);
            && w.ttl == IdleStored(ttl, actions)
            && w.maxTtl == CapStored(ttl, maxTtl, actions)
            && Pending(w, actions)
  {
    if actions != [] {
      var front, last := actions[..|actions| - 1], actions[|actions| - 1];
      TimeoutsAfter(ttl, maxTtl, front);
      TimeoutsStep(After(NewWorld(ttl, maxTtl), front), ttl, maxTtl, actions);
    }
  }

  lemma TimeoutsStep(w: World, ttl: nat, maxTtl: nat, actions: seq<Action>)
    requires actions != []
    requires var front := actions[..|actions| - 1];
             && w.ttl == IdleStored(ttl, front) && w.maxTtl == CapStored(ttl, maxTtl, front)
             && Pending(w, front) && Enabled(w, actions[|actions| - 1])
    ensures var w' := Do(w, actions[|actions| - 1]);
            && w'.ttl == IdleStored(ttl, actions) && w'.maxTtl == CapStored(ttl, maxTtl, actions)
            && Pending(w', actions)
  {
    var front, last := actions[..|actions| - 1], actions[|actions| - 1];
    assert forall k :: 0 <= k < |front| ==> actions[k] == front[k];
    if !last.StoreMax? && !last.StoreTtl? {
      HalfSetStays(w, last);
    }
  }

  /** Only its own second store ends a half-done reconfiguration. */
  lemma HalfSetStays(w: World, a: Action)
    requires Enabled(w, a) && !a.StoreMax? && !a.StoreTtl?
    ensures Do(w, a).ttl == w.ttl && Do(w, a).maxTtl == w.maxTtl
    ensures forall t :: t in w.threads && w.threads[t].HalfSet? ==>
              t in Do(w, a).threads && Do(w, a).threads[t] == w.threads[t]
    ensures forall t :: t in Do(w, a).threads && Do(w, a).threads[t].HalfSet? ==>
              t in w.threads && w.threads[t] == Do(w, a).threads[t]
  {
  }

  /** The same steps by the same threads in the same order, with other timeouts. */
  predicate SameSchedule(a: seq<Action>, b: seq<Action>) {
    |a| == |b| && forall i :: 0 <= i < |a| ==> SameStep(a[i], b[i])
  }

  predicate SameStep(a: Action, b: Action) {
    if a.StoreTtl? then b.StoreTtl? && a.t == b.t else a == b
  }

  /** How far a thread has come, whatever the values it holds. */
  function Stage(p: Thread): nat {
    match p
    case Idle => 0
    case PutTimed(_, _, _) => 1
    case PutCapped(_, _, _, _) => 2
    case PutReady(_, _, _, _, _) => 3
    case GetTimed(_, _) => 4
    case GetReady(_, _, _) => 5
    case HalfSet(_) => 6
  }

  ghost predicate SameStages(v: World, w: World) {
    forall t: nat :: Stage(At(v, t)) == Stage(At(w, t))
  }

  predicate Drops(a: Action) {
    a.CommitRemove? || a.CommitRemoveByFpr? || a.CommitClear?
  }

  /** The stage a thread must be at to take the step, and the stage the step takes it to. */
  function Stages(a: Action): (nat, nat)
    requires !Drops(a)
  {
    match a
    case StartPut(_, _, _, _) => (0, 1)
    case ReadMaxForPut(_) => (1, 2)
    case ReadTtlForPut(_) => (2, 3)
    case CommitPut(_) => (3, 0)
    case StartGet(_, _, _) => (0, 4)
    case ReadTtlForGet(_) => (4, 5)
    case CommitGet(_) => (5, 0)
    case StoreTtl(_, _, _) => (0, 6)
    case StoreMax(_) => (6, 0)
  }

  lemma EnabledByStage(w: World, a: Action)
    ensures Enabled(w, a) <==> Drops(a) || Stage(At(w, a.t)) == Stages(a).0
  {
  }

  lemma StageAfter(w: World, a: Action, t: nat)
    requires Enabled(w, a)
    ensures Stage(At(Do(w, a), t)) == if Drops(a) || t != a.t then Stage(At(w, t)) else Stages(a).1
  {
  }

  lemma SameStagesStep(v: World, w: World, a: Action, b: Action)
    requires SameStages(v, w) && SameStep(a, b) && Enabled(v, a)
    ensures Enabled(w, b) && SameStages(Do(v, a), Do(w, b))
  {
    EnabledByStage(v, a);
    EnabledByStage(w, b);
    forall t: nat
      ensures Stage(At(Do(v, a), t)) == Stage(At(Do(w, b), t))
    {
      StageAfter(v, a, t);
      StageAfter(w, b, t);
    }
  }

  /** Timeouts never decide whether a schedule can run. */
  lemma {:induction false} ScheduleRuns(v: World, w: World, a: seq<Action>, b: seq<Action>)
    requires SameStages(v, w) && SameSchedule(a, b) && IsRun(v, a)
    ensures IsRun(w, b) && SameStages(After(v, a), After(w, b))
  {
    if a != [] {
      var frontA, frontB := a[..|a| - 1], b[..|b| - 1];
      ScheduleRuns(v, w, frontA, frontB);
      SameStagesStep(After(v, frontA), After(w, frontB), a[|a| - 1], b[|b| - 1]);
    }
  }

  lemma {:induction false} SameCalls(a: seq<Action>, b: seq<Action>, t: nat)
    requires SameSchedule(a, b)
    ensures IdleCall(a) == IdleCall(b) && CallOf(a, t) == CallOf(b, t) && CapCall(a) == CapCall(b)
  {
    if a != [] {
      var frontA, frontB := a[..|a| - 1], b[..|b| - 1];
      assert SameStep(a[|a| - 1], b[|b| - 1]);
      SameCalls(frontA, frontB, t);
      if a[|a| - 1].StoreMax? {
        SameCalls(frontA, frontB, a[|a| - 1].t);
      }
    }
  }

  predicate ClampedAfter(ttl: nat, maxTtl: nat, actions: seq<Action>) {
    && IsRun(NewWorld(ttl, maxTtl), actions)
    && After(NewWorld(ttl, maxTtl), actions).ttl <= After(NewWorld(ttl, maxTtl), actions).maxTtl
  }

  /** Whatever timeouts are configured along this schedule, the cap ends at or above the idle window. */
  ghost predicate AlwaysClamped(actions: seq<Action>) {
    forall ttl: nat, maxTtl: nat, others :: SameSchedule(actions, others) ==> ClampedAfter(ttl, maxTtl, others)
  }

  /** One call sets the idle window to 1 and every other call sets both timeouts to 0. */
  function Raised(actions: seq<Action>, i: nat): (others: seq<Action>)
    ensures SameSchedule(actions, others)
  {
    seq(|actions|, k requires 0 <= k < |actions| =>
      if actions[k].StoreTtl? then
        var n := if k == i then 1 else 0;
        StoreTtl(actions[k].t, n, n)
      else actions[k])
  }

  lemma {:induction false} SomeCallStoredIdle(actions: seq<Action>, t: nat)
    ensures CallOf(actions, t).Some? ==> IdleCall(actions).Some?
    ensures CapCall(actions).Some? ==> IdleCall(actions).Some?
  {
    if actions != [] {
      SomeCallStoredIdle(actions[..|actions| - 1], t);
      if actions[|actions| - 1].StoreMax? {
        SomeCallStoredIdle(actions[..|actions| - 1], actions[|actions| - 1].t);
      }
    }
  }

  /** When different calls stored the two timeouts last, some timeouts leave the cap too short. */
  lemma CrossedStoresBreakTheClamp(actions: seq<Action>)
    requires IdleCall(actions) != CapCall(actions)
    ensures IdleCall(actions).Some?
    ensures !ClampedAfter(0, 0, Raised(actions, IdleCall(actions).value))
  {
    SomeCallStoredIdle(actions, 0);
    var i := IdleCall(actions).value;
    var others := Raised(actions, i);
    SameCalls(actions, others, 0);
    if IsRun(NewWorld(0, 0), others) {
      TimeoutsAfter(0, 0, others);
    }
  }

  /**
   * A schedule keeps the cap at or above the idle window, whatever the timeouts,
   * exactly when the call that stored the idle window last also stored the cap
   * last.
   */
  lemma ClampHeldExactly(ttl: nat, maxTtl: nat, actions: seq<Action>)
    requires IsRun(NewWorld(ttl, maxTtl), actions)
    ensures AlwaysClamped(actions) <==> IdleCall(actions) == CapCall(actions)
  {
    if IdleCall(actions) == CapCall(actions) {
      forall x: nat, y: nat, others | SameSchedule(actions, others)
        ensures ClampedAfter(x, y, others)
      {
        ScheduleRuns(NewWorld(ttl, maxTtl), NewWorld(x, y), actions, others);
        SameCalls(actions, others, 0);
        TimeoutsAfter(x, y, others);
      }
    } else {
      CrossedStoresBreakTheClamp(actions);
    }
  }

  // ----- calls that do not overlap

  /** No reconfiguration starts while another is half done. */
  predicate Serialised(w: World, actions: seq<Action>)
    requires IsRun(w, actions)
  {
    actions != [] ==>
      && Serialised(w, actions[..|actions| - 1])
      && (actions[|actions| - 1].StoreTtl? ==> Settled(After(w, actions[..|actions| - 1])))
  }

  /** The only call under way is the last one begun; if none is, it stored both timeouts. */
  predicate InTurn(w: World, actions: seq<Action>) {
    && (forall t :: t in w.threads && w.threads[t].HalfSet? ==> CallOf(actions, t) == IdleCall(actions))
    && (forall t, u :: t in w.threads && u in w.threads && w.threads[t].HalfSet? && w.threads[u].HalfSet? ==> t == u)
    && (Settled(w) ==> IdleCall(actions) == CapCall(actions))
  }

  lemma InTurnStep(w: World, actions: seq<Action>)
    requires actions != [] && InTurn(w, actions[..|actions| - 1]) && Enabled(w, actions[|actions| - 1])
    requires actions[|actions| - 1].StoreTtl? ==> Settled(w)
    ensures InTurn(Do(w, actions[|actions| - 1]), actions)
  {
    var last := actions[|actions| - 1];
    var w' := Do(w, last);
    if last.StoreMax? {
      assert last.t in w.threads && w.threads[last.t].HalfSet?;
    } else if last.StoreTtl? {
      assert w'.threads[last.t].HalfSet?;
    } else {
      HalfSetStays(w, last);
    }
  }

  lemma {:induction false} SerialisedIsInTurn(ttl: nat, maxTtl: nat, actions: seq<Action>)
    requires IsRun(NewWorld(ttl, maxTtl), actions) && Serialised(NewWorld(ttl, maxTtl), actions)
    ensures InTurn(After(NewWorld(ttl, maxTtl), actions), actions)
  {
    if actions != [] {
      SerialisedIsInTurn(ttl, maxTtl, actions[..|actions| - 1]);
      InTurnStep(After(NewWorld(ttl, maxTtl), actions[..|actions| - 1]), actions);
    }
  }

  /** Calls that do not overlap keep the clamp, whatever the timeouts, once none is half done. */
  lemma SerialisedSetsKeepTheClamp(ttl: nat, maxTtl: nat, actions: seq<Action>)
    requires IsRun(NewWorld(ttl, maxTtl), actions) && Serialised(NewWorld(ttl, maxTtl), actions)
    requires Settled(After(NewWorld(ttl, maxTtl), actions))
    ensures AlwaysClamped(actions)
  {
    SerialisedIsInTurn(ttl, maxTtl, actions);
    ClampHeldExactly(ttl, maxTtl, actions);
  }
}
