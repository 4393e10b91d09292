/**
 * The passphrase cache under threads behaves as a sequential one: every run has
 * the outcome of the operations one after the other, in the order in which they
 * took the lock, each with the clock and the timeouts it had read before.
 */
module CacheOrder {
  import opened Common
  import opened CacheHistory
  import opened CacheThreads

  // ----- the sequential history of a log

  /** One logged operation, as events of the sequential cache: its timeouts, then the operation. */
  function EventsOf(h: Happened): seq<Event> {
    match h
    case Stored(key, secret, now, maxTtl, ttl) => [SetTtl(Duration(ttl, 0), Duration(maxTtl, 0)), Put(key, secret, now)]
    case Served(key, _, now, ttl) => [SetTtl(Duration(ttl, 0), Duration(ttl, 0)), Get(key, now)]
    case Missed(key, now, ttl) => [SetTtl(Duration(ttl, 0), Duration(ttl, 0)), Get(key, now)]
    case Dropped(key) => [Remove(key)]
    case DroppedFpr(fpr) => [RemoveByFpr(fpr)]
    case Cleared => [Clear]
  }

  function Sequential(log: seq<Happened>): seq<Event> {
    if log == [] then [] else Sequential(log[..|log| - 1]) + EventsOf(log[|log| - 1])
  }

  const EMPTY: State := State(map[], 0, 0)

  /** What the sequential cache would have answered to logged operation `n`. */
  function AnswerAt(log: seq<Happened>, n: nat): Option<Secret>
    requires n < |log| && (log[n].Served? || log[n].Missed?)
  {
    Lookup(Run(EMPTY, Sequential(log[..n])), log[n].key, log[n].now)
  }

  function AnswerOf(h: Happened): Option<Secret> {
    if h.Served? then Some(h.secret) else None
  }

  // ----- keys

  lemma {:induction false} UpperTwice(s: string)
    ensures Upper(Upper(s)) == Upper(s)
  {
    if s != [] {
      UpperTwice(s[1..]);
    }
  }

  predicate IsNormal(key: CacheKey) {
    Normal(key) == key
  }

  lemma NormalIsNormal(key: CacheKey)
    ensures IsNormal(Normal(key))
  {
    UpperTwice(key.fpr);
  }

  /** Keys are normalised and the idle window is clamped before the lock is taken. */
  predicate Clean(h: Happened) {
    match h
    case Stored(key, _, _, maxTtl, ttl) => IsNormal(key) && ttl <= maxTtl
    case Served(key, _, _, _) => IsNormal(key)
    case Missed(key, _, _) => IsNormal(key)
    case Dropped(key) => IsNormal(key)
    case DroppedFpr(fpr) => Upper(fpr) == fpr
    case Cleared => true
  }

  predicate ThreadNormal(p: Thread) {
    match p
    case PutTimed(key, _, _) => IsNormal(key)
    case PutCapped(key, _, _, _) => IsNormal(key)
    case PutReady(key, _, _, _, _) => IsNormal(key)
    case GetTimed(key, _) => IsNormal(key)
    case GetReady(key, _, _) => IsNormal(key)
    case _ => true
  }

  // ----- the entries alone

  type Entries = map<CacheKey, Entry>

  /** What a lookup that read the idle window `ttl` makes of the entries. */
  function Looked(entries: Entries, key: CacheKey, now: nat, ttl: nat): Entries {
    if key !in entries then entries
    else if Expired(entries[key], now) then entries - {key}
    else entries[key := entries[key].(expiresAt := Min(now + Secs(ttl), entries[key].hardExpiresAt))]
  }

  function Found(entries: Entries, key: CacheKey, now: nat): Option<Secret> {
    if key in entries && !Expired(entries[key], now) then Some(entries[key].secret) else None
  }

  /** One logged operation on the entries. */
  function Apply(entries: Entries, h: Happened): Entries {
    match h
    case Stored(key, secret, now, maxTtl, ttl) => entries[key := Entry(secret, now + Secs(ttl), now + Secs(maxTtl))]
    case Served(key, _, now, ttl) => Looked(entries, key, now, ttl)
    case Missed(key, now, ttl) => Looked(entries, key, now, ttl)
    case Dropped(key) => entries - {key}
    case DroppedFpr(fpr) => Without(entries, fpr)
    case Cleared => map[]
  }

  function Replay(log: seq<Happened>): Entries {
    if log == [] then map[] else Apply(Replay(log[..|log| - 1]), log[|log| - 1])
  }

  lemma ReplayOneMore(log: seq<Happened>, h: Happened)
    ensures Replay(log + [h]) == Apply(Replay(log), h)
  {
    assert (log + [h])[..|log + [h]| - 1] == log;
  }

  // ----- replaying a log is running its sequential history

  lemma TwoMore(history: seq<Event>, a: Event, b: Event)
    ensures history + [a, b] == (history + [a]) + [b]
  {
  }

  lemma RunStored(history: seq<Event>, h: Happened)
    requires h.Stored? && Clean(h)
    ensures Run(EMPTY, history + EventsOf(h)).entries == Apply(Run(EMPTY, history).entries, h)
  {
    var a := SetTtl(Duration(h.ttl, 0), Duration(h.maxTtl, 0));
    var b := Put(h.key, h.secret, h.now);
    TwoMore(history, a, b);
    RunOneMore(EMPTY, history, a);
    RunOneMore(EMPTY, history + [a], b);
  }

  lemma RunLooked(history: seq<Event>, h: Happened)
    requires (h.Served? || h.Missed?) && Clean(h)
    ensures Run(EMPTY, history + EventsOf(h)).entries == Apply(Run(EMPTY, history).entries, h)
  {
    var a := SetTtl(Duration(h.ttl, 0), Duration(h.ttl, 0));
    var b := Get(h.key, h.now);
    TwoMore(history, a, b);
    RunOneMore(EMPTY, history, a);
    RunOneMore(EMPTY, history + [a], b);
  }

  lemma RunDropped(history: seq<Event>, h: Happened)
    requires (h.Dropped? || h.DroppedFpr? || h.Cleared?) && Clean(h)
    ensures Run(EMPTY, history + EventsOf(h)).entries == Apply(Run(EMPTY, history).entries, h)
  {
    match h {
      case Dropped(key) => RunOneMore(EMPTY, history, Remove(key));
      case DroppedFpr(fpr) => RunOneMore(EMPTY, history, RemoveByFpr(fpr));
      case Cleared => RunOneMore(EMPTY, history, Clear);
    }
  }

  lemma RunOneOperation(history: seq<Event>, h: Happened)
    requires Clean(h)
    ensures Run(EMPTY, history + EventsOf(h)).entries == Apply(Run(EMPTY, history).entries, h)
  {
    if h.Stored? {
      RunStored(history, h);
    } else if h.Served? || h.Missed? {
      RunLooked(history, h);
    } else {
      RunDropped(history, h);
    }
  }

  lemma {:induction false} ReplayIsRun(log: seq<Happened>)
    requires forall n :: 0 <= n < |log| ==> Clean(log[n])
    ensures Run(EMPTY, Sequential(log)).entries == Replay(log)
  {
    if log != [] {
      ReplayIsRun(log[..|log| - 1]);
      RunOneOperation(Sequential(log[..|log| - 1]), log[|log| - 1]);
    }
  }

  // ----- every run

  /** The entries are the replayed log, and every answer is what the log before it leaves. */
  predicate InOrder(w: World) {
    && w.entries == Replay(w.log)
    && Answered(w.log)
    && (forall n :: 0 <= n < |w.log| ==> Clean(w.log[n]))
    && Ready(w.threads)
  }

  predicate Answered(log: seq<Happened>) {
    forall n :: 0 <= n < |log| && (log[n].Served? || log[n].Missed?) ==>
      AnswerOf(log[n]) == Found(Replay(log[..n]), log[n].key, log[n].now)
  }

  predicate Ready(threads: map<nat, Thread>) {
    forall t :: t in threads ==> ThreadSound(threads[t]) && ThreadNormal(threads[t])
  }

  lemma AnsweredOneMore(log: seq<Happened>, h: Happened)
    requires Answered(log)
    requires h.Served? || h.Missed? ==> AnswerOf(h) == Found(Replay(log), h.key, h.now)
    ensures Answered(log + [h])
  {
    var all := log + [h];
    forall n | 0 <= n < |all| && (all[n].Served? || all[n].Missed?)
      ensures AnswerOf(all[n]) == Found(Replay(all[..n]), all[n].key, all[n].now)
    {
      assert all[..n] == if n < |log| then log[..n] else log;
    }
  }

  lemma InOrderLogged(w: World, w': World, h: Happened)
    requires InOrder(w) && w'.log == w.log + [h] && Clean(h) && Ready(w'.threads)
    requires w'.entries == Apply(w.entries, h)
    requires h.Served? || h.Missed? ==> AnswerOf(h) == Found(w.entries, h.key, h.now)
    ensures InOrder(w')
  {
    ReplayOneMore(w.log, h);
    AnsweredOneMore(w.log, h);
  }

  lemma PutInOrder(w: World, t: nat)
    requires InOrder(w) && At(w, t).PutReady?
    ensures InOrder(Do(w, CommitPut(t)))
  {
    var p := At(w, t);
    assert ThreadSound(p) && ThreadNormal(p);
    InOrderLogged(w, Do(w, CommitPut(t)), Stored(p.key, p.secret, p.now, p.maxTtl, p.ttl));
  }

  lemma GetInOrder(w: World, t: nat)
    requires InOrder(w) && At(w, t).GetReady?
    ensures InOrder(Do(w, CommitGet(t)))
  {
    var g, w' := At(w, t), Do(w, CommitGet(t));
    assert ThreadNormal(g);
    InOrderLogged(w, w', w'.log[|w.log|]);
  }

  lemma DropInOrder(w: World, a: Action)
    requires InOrder(w) && (a.CommitRemove? || a.CommitRemoveByFpr? || a.CommitClear?)
    ensures InOrder(Do(w, a))
  {
    var w' := Do(w, a);
    if a.CommitRemove? {
      NormalIsNormal(a.key);
    } else if a.CommitRemoveByFpr? {
      UpperTwice(a.fpr);
    }
    InOrderLogged(w, w', w'.log[|w.log|]);
  }

  lemma InOrderStep(w: World, a: Action)
    requires InOrder(w) && Enabled(w, a)
    ensures InOrder(Do(w, a))
  {
    match a {
      case CommitPut(t) => PutInOrder(w, t);
      case CommitGet(t) => GetInOrder(w, t);
      case CommitRemove(_) => DropInOrder(w, a);
      case CommitRemoveByFpr(_) => DropInOrder(w, a);
      case CommitClear => DropInOrder(w, a);
      case StartPut(_, key, _, _) => NormalIsNormal(key);
      case StartGet(_, key, _) => NormalIsNormal(key);
      case _ =>
    }
  }

  lemma {:induction false} EveryRunReplays(ttl: nat, maxTtl: nat, actions: seq<Action>)
    requires IsRun(NewWorld(ttl, maxTtl), actions)
    ensures InOrder(After(NewWorld(ttl, maxTtl), actions))
  {
    if actions != [] {
      EveryRunReplays(ttl, maxTtl, actions[..|actions| - 1]);
      InOrderStep(After(NewWorld(ttl, maxTtl), actions[..|actions| - 1]), actions[|actions| - 1]);
    }
  }

  lemma AnswersInOrder(w: World, n: nat)
    requires InOrder(w) && n < |w.log| && (w.log[n].Served? || w.log[n].Missed?)
    ensures AnswerOf(w.log[n]) == AnswerAt(w.log, n) && IsNormal(w.log[n].key)
  {
    assert Clean(w.log[n]);
    ReplayIsRun(w.log[..n]);
  }

  /**
   * Every run, whatever the interleaving, has the outcome of its operations in lock
   * order: the sequential cache ends with the same entries and gives the same
   * answers.
   */
  lemma EveryRunIsInOrder(ttl: nat, maxTtl: nat, actions: seq<Action>)
    requires IsRun(NewWorld(ttl, maxTtl), actions)
    ensures var w := After(NewWorld(ttl, maxTtl), actions);
            && w.entries == Run(EMPTY, Sequential(w.log)).entries
            && forall n :: 0 <= n < |w.log| && (w.log[n].Served? || w.log[n].Missed?) ==>
                 AnswerOf(w.log[n]) == AnswerAt(w.log, n)
  {
    var w := After(NewWorld(ttl, maxTtl), actions);
    EveryRunReplays(ttl, maxTtl, actions);
    ReplayIsRun(w.log);
    forall n | 0 <= n < |w.log| && (w.log[n].Served? || w.log[n].Missed?)
      ensures AnswerOf(w.log[n]) == AnswerAt(w.log, n)
    {
      AnswersInOrder(w, n);
    }
  }

  /** A put in the history serves this secret at `now`. */
  predicate SomePutServes(history: seq<Event>, key: CacheKey, now: nat, secret: Secret) {
    exists p: nat :: p < |history| && history[p].Put? && history[p].secret == secret
      && Serves(EMPTY, history, key, p, now)
  }

  lemma FoundExactly(history: seq<Event>, key: CacheKey, now: nat, secret: Secret)
    requires IsNormal(key)
    ensures Lookup(Run(EMPTY, history), key, now) == Some(secret) <==> SomePutServes(history, key, now, secret)
  {
    assert Normal(key) == key;
    LookupFollowsHistory(EMPTY, history, key, now, secret);
  }

  /**
   * So under threads too a lookup is served exactly when the latest put of its key
   * in lock order was not removed or cleared, every lookup since came within the
   * idle window that the access before it had read, and the cap that put had read
   * has not passed; the value is that put's.
   */
  lemma ServedExactly(ttl: nat, maxTtl: nat, actions: seq<Action>, n: nat, secret: Secret)
    requires IsRun(NewWorld(ttl, maxTtl), actions)
    requires var log := After(NewWorld(ttl, maxTtl), actions).log;
             n < |log| && (log[n].Served? || log[n].Missed?)
    ensures var log := After(NewWorld(ttl, maxTtl), actions).log;
            var before := Sequential(log[..n]);
            AnswerOf(log[n]) == Some(secret) <==> SomePutServes(before, log[n].key, log[n].now, secret)
  {
    var w := After(NewWorld(ttl, maxTtl), actions);
    EveryRunReplays(ttl, maxTtl, actions);
    AnswersInOrder(w, n);
    FoundExactly(Sequential(w.log[..n]), w.log[n].key, w.log[n].now, secret);
  }
}
