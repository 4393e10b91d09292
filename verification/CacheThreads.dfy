/**
 * The passphrase cache under threads (`rust/src/cache.rs`): the clock and the two
 * timeouts are read before the lock is taken, and `set_ttl` stores its two
 * atomics one after the other. Every atomic access is a step of its own, and
 * steps of different threads interleave at will.
 */
module CacheThreads {
  import opened Common
  import opened CacheHistory

  /** Where a thread stands between two of its steps. */
  datatype Thread =
    | Idle
    | PutTimed(key: CacheKey, secret: Secret, now: nat)
    | PutCapped(key: CacheKey, secret: Secret, now: nat, maxTtl: nat)
    | PutReady(key: CacheKey, secret: Secret, now: nat, maxTtl: nat, ttl: nat)
    | GetTimed(key: CacheKey, now: nat)
    | GetReady(key: CacheKey, now: nat, ttl: nat)
    | HalfSet(maxTtl: nat)

  /** What happened under the lock, in order, with the clock and the timeouts each operation had read. */
  datatype Happened =
    | Stored(key: CacheKey, secret: Secret, now: nat, maxTtl: nat, ttl: nat)
    | Served(key: CacheKey, secret: Secret, now: nat, ttl: nat)
    | Missed(key: CacheKey, now: nat, ttl: nat)
    | Dropped(key: CacheKey)
    | DroppedFpr(fpr: string)
    | Cleared

  datatype World = World(
    entries: map<CacheKey, Entry>,
    ttl: nat,
    maxTtl: nat,
    threads: map<nat, Thread>,
    log: seq<Happened>)

  datatype Action =
    | StartPut(t: nat, key: CacheKey, secret: Secret, now: nat)
    | ReadMaxForPut(t: nat)
    | ReadTtlForPut(t: nat)
    | CommitPut(t: nat)
    | StartGet(t: nat, key: CacheKey, now: nat)
    | ReadTtlForGet(t: nat)
    | CommitGet(t: nat)
    | StoreTtl(t: nat, ttl: nat, maxTtl: nat)
    | StoreMax(t: nat)
    | CommitRemove(key: CacheKey)
    | CommitRemoveByFpr(fpr: string)
    | CommitClear

  function At(w: World, t: nat): Thread {
    if t in w.threads then w.threads[t] else Idle
  }

  predicate Enabled(w: World, a: Action) {
    match a
    case StartPut(t, _, _, _) => At(w, t).Idle?
    case ReadMaxForPut(t) => At(w, t).PutTimed?
    case ReadTtlForPut(t) => At(w, t).PutCapped?
    case CommitPut(t) => At(w, t).PutReady?
    case StartGet(t, _, _) => At(w, t).Idle?
    case ReadTtlForGet(t) => At(w, t).GetTimed?
    case CommitGet(t) => At(w, t).GetReady?
    case StoreTtl(t, _, _) => At(w, t).Idle?
    case StoreMax(t) => At(w, t).HalfSet?
    case CommitRemove(_) => true
    case CommitRemoveByFpr(_) => true
    case CommitClear => true
  }

  function Move(w: World, t: nat, to: Thread): World {
    w.(threads := w.threads[t := to])
  }

  function Log(w: World, h: Happened): World {
    w.(log := w.log + [h])
  }

  function Do(w: World, a: Action): World
    requires Enabled(w, a)
  {
    match a
    case StartPut(t, key, secret, now) => Move(w, t, PutTimed(Normal(key), secret, now))
    case ReadMaxForPut(t) =>
      var p := At(w, t);
      Move(w, t, PutCapped(p.key, p.secret, p.now, w.maxTtl))
    case ReadTtlForPut(t) =>
      var p := At(w, t);
      Move(w, t, PutReady(p.key, p.secret, p.now, p.maxTtl, Min(w.ttl, p.maxTtl)))
    case CommitPut(t) =>
      var p := At(w, t);
      var entry := Entry(p.secret, p.now + Secs(p.ttl), p.now + Secs(p.maxTtl));
      Log(Move(w, t, Idle), Stored(p.key, p.secret, p.now, p.maxTtl, p.ttl))
        .(entries := w.entries[p.key := entry])
    case StartGet(t, key, now) => Move(w, t, GetTimed(Normal(key), now))
    case ReadTtlForGet(t) =>
      var g := At(w, t);
      Move(w, t, GetReady(g.key, g.now, w.ttl))
    case CommitGet(t) =>
      var g := At(w, t);
      var done := Move(w, t, Idle);
      if g.key !in w.entries then Log(done, Missed(g.key, g.now, g.ttl))
      else if Expired(w.entries[g.key], g.now) then
        Log(done, Missed(g.key, g.now, g.ttl)).(entries := w.entries - {g.key})
      else
        var entry := w.entries[g.key];
        Log(done, Served(g.key, entry.secret, g.now, g.ttl))
          .(entries := w.entries[g.key :=
              entry.(expiresAt := Min(g.now + Secs(g.ttl), entry.hardExpiresAt))])
    case StoreTtl(t, ttl, maxTtl) => Move(w, t, HalfSet(Max(maxTtl, ttl))).(ttl := ttl)
    case StoreMax(t) => Move(w, t, Idle).(maxTtl := At(w, t).maxTtl)
    case CommitRemove(key) =>
      Log(w, Dropped(Normal(key))).(entries := w.entries - {Normal(key)})
    case CommitRemoveByFpr(fpr) =>
      Log(w, DroppedFpr(Upper(fpr))).(entries := Without(w.entries, Upper(fpr)))
    case CommitClear => Log(w, Cleared).(entries := map[])
  }

  function NewWorld(ttl: nat, maxTtl: nat): World {
    World(map[], ttl, Max(maxTtl, ttl), map[], [])
  }

  /** A run: every action is enabled when its turn comes. */
  predicate IsRun(w: World, actions: seq<Action>)
    decreases |actions|, 0
  {
    if actions == [] then true
    else
      && IsRun(w, actions[..|actions| - 1])
      && Enabled(After(w, actions[..|actions| - 1]), actions[|actions| - 1])
  }

  function After(w: World, actions: seq<Action>): World
    requires IsRun(w, actions)
    decreases |actions|, 1
  {
    if actions == [] then w
    else Do(After(w, actions[..|actions| - 1]), actions[|actions| - 1])
  }

  // ----- what every reachable state satisfies

  /** The event ends what was stored for `k` before it. */
  predicate Ends(h: Happened, k: CacheKey) {
    || (h.Stored? && h.key == k)
    || (h.Dropped? && h.key == k)
    || (h.DroppedFpr? && h.fpr == k.fpr)
    || h.Cleared?
  }

  /** Log entry `i` stored `secret` for `k` with the hard deadline `hard`, and it still stands at `end`. */
  predicate Stands(log: seq<Happened>, i: nat, end: nat, k: CacheKey, secret: Secret, hard: nat) {
    && i < end <= |log|
    && log[i].Stored? && log[i].key == k && log[i].secret == secret
    && hard == log[i].now + Secs(log[i].maxTtl)
    && forall j :: i < j < end ==> !Ends(log[j], k)
  }

  /** The entry was stored by a put that still stands, and its idle deadline respects the hard one. */
  ghost predicate EntrySound(log: seq<Happened>, k: CacheKey, e: Entry) {
    && e.expiresAt <= e.hardExpiresAt
    && exists i: nat :: Stands(log, i, |log|, k, e.secret, e.hardExpiresAt)
  }

  /** What was served had been stored by a put that still stood, before the cap that put read. */
  ghost predicate ServiceSound(log: seq<Happened>, n: nat)
    requires n < |log|
  {
    log[n].Served? ==>
      exists i: nat, hard: nat :: Stands(log, i, n, log[n].key, log[n].secret, hard) && log[n].now < hard
  }

  /** A put in flight never has an idle window longer than the cap it read. */
  predicate ThreadSound(p: Thread) {
    p.PutReady? ==> p.ttl <= p.maxTtl
  }

  ghost predicate Sound(w: World) {
    && (forall k :: k in w.entries ==> EntrySound(w.log, k, w.entries[k]))
    && (forall n :: 0 <= n < |w.log| ==> ServiceSound(w.log, n))
    && (forall t :: t in w.threads ==> ThreadSound(w.threads[t]))
  }

  lemma StandsLonger(log: seq<Happened>, h: Happened, i: nat, end: nat, k: CacheKey, secret: Secret, hard: nat)
    requires Stands(log, i, end, k, secret, hard)
    ensures Stands(log + [h], i, end, k, secret, hard)
    ensures end == |log| && !Ends(h, k) ==> Stands(log + [h], i, end + 1, k, secret, hard)
  {
    assert forall j :: 0 <= j < |log| ==> (log + [h])[j] == log[j];
  }

  lemma EntryKept(log: seq<Happened>, h: Happened, k: CacheKey, e: Entry)
    requires EntrySound(log, k, e) && !Ends(h, k)
    ensures EntrySound(log + [h], k, e)
  {
    var i: nat :| Stands(log, i, |log|, k, e.secret, e.hardExpiresAt);
    StandsLonger(log, h, i, |log|, k, e.secret, e.hardExpiresAt);
  }

  lemma ServicesKept(log: seq<Happened>, h: Happened)
    requires forall n :: 0 <= n < |log| ==> ServiceSound(log, n)
    ensures forall n :: 0 <= n < |log| ==> ServiceSound(log + [h], n)
  {
    forall n | 0 <= n < |log|
      ensures ServiceSound(log + [h], n)
    {
      assert ServiceSound(log, n);
      if log[n].Served? {
        var i: nat, hard: nat :| Stands(log, i, n, log[n].key, log[n].secret, hard) && log[n].now < hard;
        StandsLonger(log, h, i, n, log[n].key, log[n].secret, hard);
      }
    }
  }

  lemma SoundAfterPut(w: World, t: nat)
    requires Sound(w) && At(w, t).PutReady?
    ensures Sound(Do(w, CommitPut(t)))
  {
    var p, w' := At(w, t), Do(w, CommitPut(t));
    var h := Stored(p.key, p.secret, p.now, p.maxTtl, p.ttl);
    ServicesKept(w.log, h);
    assert ThreadSound(p);
    assert Stands(w'.log, |w.log|, |w'.log|, p.key, p.secret, p.now + Secs(p.maxTtl));
    forall k | k in w'.entries && k != p.key
      ensures EntrySound(w'.log, k, w'.entries[k])
    {
      EntryKept(w.log, h, k, w.entries[k]);
    }
  }

  lemma SoundAfterGet(w: World, t: nat)
    requires Sound(w) && At(w, t).GetReady?
    ensures Sound(Do(w, CommitGet(t)))
  {
    var g, w' := At(w, t), Do(w, CommitGet(t));
    var h := w'.log[|w.log|];
    ServicesKept(w.log, h);
    if h.Served? {
      var e := w.entries[g.key];
      var i: nat :| Stands(w.log, i, |w.log|, g.key, e.secret, e.hardExpiresAt);
      StandsLonger(w.log, h, i, |w.log|, g.key, e.secret, e.hardExpiresAt);
      assert ServiceSound(w'.log, |w.log|);
    }
    forall k | k in w'.entries
      ensures EntrySound(w'.log, k, w'.entries[k])
    {
      EntryKept(w.log, h, k, w.entries[k]);
    }
  }

  lemma SoundAfterDrop(w: World, a: Action)
    requires Sound(w) && (a.CommitRemove? || a.CommitRemoveByFpr? || a.CommitClear?)
    ensures Sound(Do(w, a))
  {
    var w' := Do(w, a);
    var h := w'.log[|w.log|];
    ServicesKept(w.log, h);
    forall k | k in w'.entries
      ensures EntrySound(w'.log, k, w'.entries[k])
    {
      EntryKept(w.log, h, k, w.entries[k]);
    }
  }

  lemma SoundStep(w: World, a: Action)
    requires Sound(w) && Enabled(w, a)
    ensures Sound(Do(w, a))
  {
    match a {
      case CommitPut(t) => SoundAfterPut(w, t);
      case CommitGet(t) => SoundAfterGet(w, t);
      case CommitRemove(_) => SoundAfterDrop(w, a);
      case CommitRemoveByFpr(_) => SoundAfterDrop(w, a);
      case CommitClear => SoundAfterDrop(w, a);
      case _ =>
    }
  }

  /** Every reachable state is sound, whatever the interleaving. */
  lemma {:induction false} EveryRunIsSound(ttl: nat, maxTtl: nat, actions: seq<Action>)
    requires IsRun(NewWorld(ttl, maxTtl), actions)
    ensures Sound(After(NewWorld(ttl, maxTtl), actions))
  {
    if actions != [] {
      EveryRunIsSound(ttl, maxTtl, actions[..|actions| - 1]);
      SoundStep(After(NewWorld(ttl, maxTtl), actions[..|actions| - 1]), actions[|actions| - 1]);
    }
  }

  /**
   * Whatever a run serves was stored earlier for the same key by a put that was
   * not overwritten or removed since, and the clock reading of the get lies
   * before that put's clock reading plus the cap that put read.
   */
  lemma NothingServedPastTheCap(ttl: nat, maxTtl: nat, actions: seq<Action>, n: nat) returns (i: nat)
    requires IsRun(NewWorld(ttl, maxTtl), actions)
    requires var log := After(NewWorld(ttl, maxTtl), actions).log; n < |log| && log[n].Served?
    ensures var log := After(NewWorld(ttl, maxTtl), actions).log;
            && i < n && log[i].Stored?
            && log[i].key == log[n].key && log[i].secret == log[n].secret
            && log[n].now < log[i].now + Secs(log[i].maxTtl)
            && forall j :: i < j < n ==> !Ends(log[j], log[n].key)
  {
    EveryRunIsSound(ttl, maxTtl, actions);
    var log := After(NewWorld(ttl, maxTtl), actions).log;
    assert ServiceSound(log, n);
    var hard: nat;
    i, hard :| Stands(log, i, n, log[n].key, log[n].secret, hard) && log[n].now < hard;
  }

  /** No lookup moves a hard deadline, and none stores anything. */
  lemma GetKeepsHardDeadlines(w: World, t: nat, k: CacheKey)
    requires At(w, t).GetReady?
    requires k in Do(w, CommitGet(t)).entries
    ensures k in w.entries
    ensures Do(w, CommitGet(t)).entries[k].hardExpiresAt == w.entries[k].hardExpiresAt
  {
  }
}
