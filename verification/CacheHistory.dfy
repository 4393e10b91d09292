/**
 * The passphrase cache of `rust/src/cache.rs`, one operation at a time: a sliding
 * idle window under an absolute cap, and what its operation history says a
 * lookup must return. Clock readings are parameters, in nanoseconds, and need
 * not be monotone.
 */
module CacheHistory {
  import opened Common

  datatype CacheKey = CacheKey(scope: string, fpr: string, info: string)

  function UpperChar(c: char): char {
    if 'a' <= c <= 'z' then (c as int - 'a' as int + 'A' as int) as char else c
  }

  function Upper(s: string): string {
    if s == [] then [] else [UpperChar(s[0])] + Upper(s[1..])
  }

  /** Fingerprints are compared without regard to case. */
  function Normal(key: CacheKey): CacheKey {
    key.(fpr := Upper(key.fpr))
  }

  type Secret = seq<Octet>

  datatype Duration = Duration(secs: nat, nanos: nat)

  const NANOS: nat := 1_000_000_000

  function Secs(n: nat): nat {
    n * NANOS
  }

  datatype Entry = Entry(secret: Secret, expiresAt: nat, hardExpiresAt: nat)

  datatype State = State(entries: map<CacheKey, Entry>, ttl: nat, maxTtl: nat)

  datatype Event =
    | Put(key: CacheKey, secret: Secret, now: nat)
    | Get(key: CacheKey, now: nat)
    | Remove(key: CacheKey)
    | RemoveByFpr(fpr: string)
    | Clear
    | SetTtl(ttl: Duration, maxTtl: Duration)

  function NewState(ttl: Duration, maxTtl: Duration): State {
    State(map[], ttl.secs, Max(maxTtl.secs, ttl.secs))
  }

  predicate Expired(e: Entry, now: nat) {
    e.expiresAt <= now || e.hardExpiresAt <= now
  }

  /** What a lookup returns. */
  function Lookup(s: State, key: CacheKey, now: nat): Option<Secret> {
    var k := Normal(key);
    if k in s.entries && !Expired(s.entries[k], now) then Some(s.entries[k].secret) else None
  }

  /** The entries not filed under a fingerprint. */
  function Without(entries: map<CacheKey, Entry>, fpr: string): map<CacheKey, Entry> {
    map k | k in entries && k.fpr != fpr :: entries[k]
  }

  function Step(s: State, e: Event): State {
    match e
    case Put(key, secret, now) =>
      var entry := Entry(secret, now + Secs(Min(s.ttl, s.maxTtl)), now + Secs(s.maxTtl));
      s.(entries := s.entries[Normal(key) := entry])
    case Get(key, now) =>
      var k := Normal(key);
      if k !in s.entries then s
      else if Expired(s.entries[k], now) then s.(entries := s.entries - {k})
      else
        var hard := s.entries[k].hardExpiresAt;
        s.(entries := s.entries[k := s.entries[k].(expiresAt := Min(now + Secs(s.ttl), hard))])
    case Remove(key) => s.(entries := s.entries - {Normal(key)})
    case RemoveByFpr(fpr) => s.(entries := Without(s.entries, Upper(fpr)))
    case Clear => s.(entries := map[])
    case SetTtl(ttl, maxTtl) => s.(ttl := ttl.secs, maxTtl := Max(maxTtl.secs, ttl.secs))
  }

  function Run(init: State, h: seq<Event>): State {
    if h == [] then init else Step(Run(init, h[..|h| - 1]), h[|h| - 1])
  }

  lemma RunOneMore(init: State, h: seq<Event>, e: Event)
    ensures Run(init, h + [e]) == Step(Run(init, h), e)
  {
    assert (h + [e])[..|h + [e]| - 1] == h;
  }

  // ----- what the history says

  predicate PutsKey(e: Event, k: CacheKey) {
    e.Put? && Normal(e.key) == k
  }

  predicate GetsKey(e: Event, k: CacheKey) {
    e.Get? && Normal(e.key) == k
  }

  /** The event removes what was stored for `k`. */
  predicate DropsKey(e: Event, k: CacheKey) {
    || (e.Remove? && Normal(e.key) == k)
    || (e.RemoveByFpr? && Upper(e.fpr) == k.fpr)
    || e.Clear?
  }

  /** Event `p` stores for `k`, and nothing later stores for it again or removes it. */
  predicate LastPut(h: seq<Event>, k: CacheKey, p: nat) {
    && p < |h| && PutsKey(h[p], k)
    && forall j :: p < j < |h| ==> !PutsKey(h[j], k) && !DropsKey(h[j], k)
  }

  /** A use of an entry, and how long it may then stay idle. */
  datatype Access = Access(time: nat, window: nat)

  /** The put at `p` and the lookups of `k` after it, each with the idle window in force then. */
  function Accesses(init: State, h: seq<Event>, k: CacheKey, p: nat): seq<Access>
    requires p < |h| && h[p].Put?
  {
    var front := h[..|h| - 1];
    var s := Run(init, front);
    if |h| == p + 1 then [Access(h[p].now, Secs(Min(s.ttl, s.maxTtl)))]
    else if GetsKey(h[|h| - 1], k) then Accesses(init, front, k, p) + [Access(h[|h| - 1].now, Secs(s.ttl))]
    else Accesses(init, front, k, p)
  }

  /** The instant past which the put at `p` serves nothing. */
  function Cap(init: State, h: seq<Event>, p: nat): nat
    requires p < |h| && h[p].Put?
  {
    h[p].now + Secs(Run(init, h[..p]).maxTtl)
  }

  /** Used again before each idle window ran out, and never at or past the cap. */
  predicate Unbroken(uses: seq<Access>, cap: nat) {
    forall j :: 0 < j < |uses| ==>
      uses[j].time < uses[j - 1].time + uses[j - 1].window && uses[j].time < cap
  }

  /** A lookup at `now` comes in time. */
  predicate InTime(uses: seq<Access>, cap: nat, now: nat)
    requires uses != []
  {
    var last := uses[|uses| - 1];
    Unbroken(uses, cap) && now < last.time + last.window && now < cap
  }

  lemma {:induction false} AccessesNonEmpty(init: State, h: seq<Event>, k: CacheKey, p: nat)
    requires p < |h| && h[p].Put?
    ensures Accesses(init, h, k, p) != []
    decreases |h|
  {
    if |h| > p + 1 {
      AccessesNonEmpty(init, h[..|h| - 1], k, p);
    }
  }

  /** The history's own account of a lookup of `k` at `now`. */
  predicate Serves(init: State, h: seq<Event>, k: CacheKey, p: nat, now: nat)
    requires p < |h| && h[p].Put?
  {
    AccessesNonEmpty(init, h, k, p);
    LastPut(h, k, p) && InTime(Accesses(init, h, k, p), Cap(init, h, p), now)
  }

  // ----- refinement

  /** The index of the last put, read off the history backwards. */
  function LivePut(h: seq<Event>, k: CacheKey): (r: Option<nat>)
    ensures r.Some? ==> r.value < |h| && h[r.value].Put?
  {
    if h == [] then None
    else if PutsKey(h[|h| - 1], k) then Some(|h| - 1)
    else if DropsKey(h[|h| - 1], k) then None
    else LivePut(h[..|h| - 1], k)
  }

  lemma {:induction false} LivePutMeans(h: seq<Event>, k: CacheKey, p: nat)
    ensures LivePut(h, k) == Some(p) <==> LastPut(h, k, p)
  {
    if h != [] {
      var front, e := h[..|h| - 1], h[|h| - 1];
      LivePutMeans(front, k, p);
      assert forall j :: 0 <= j < |front| ==> front[j] == h[j];
      if LastPut(h, k, p) && p < |h| - 1 {
        assert !PutsKey(h[|h| - 1], k) && !DropsKey(h[|h| - 1], k);
      }
    }
  }

  /** The entry the history entitles `k` to, if any. */
  function Account(init: State, h: seq<Event>, k: CacheKey): Option<Entry> {
    var put := LivePut(h, k);
    if put.None? then None
    else
      var p := put.value;
      AccessesNonEmpty(init, h, k, p);
      AccountOf(h[p].secret, Accesses(init, h, k, p), Cap(init, h, p))
  }

  function AccountOf(secret: Secret, uses: seq<Access>, cap: nat): Option<Entry>
    requires uses != []
  {
    var last := uses[|uses| - 1];
    if Unbroken(uses, cap) then Some(Entry(secret, Min(last.time + last.window, cap), cap)) else None
  }

  function Held(s: State, k: CacheKey): Option<Entry> {
    if k in s.entries then Some(s.entries[k]) else None
  }

  /** What a lookup at `now` makes of an entry. */
  function Renewed(entry: Option<Entry>, now: nat, ttl: nat): Option<Entry> {
    if entry.None? || Expired(entry.value, now) then None
    else Some(entry.value.(expiresAt := Min(now + Secs(ttl), entry.value.hardExpiresAt)))
  }

  lemma HeldAfter(s: State, e: Event, k: CacheKey)
    ensures Held(Step(s, e), k)
            == if PutsKey(e, k) then
                 Some(Entry(e.secret, e.now + Secs(Min(s.ttl, s.maxTtl)), e.now + Secs(s.maxTtl)))
               else if GetsKey(e, k) then Renewed(Held(s, k), e.now, s.ttl)
               else if DropsKey(e, k) then None
               else Held(s, k)
  {
  }

  /** One more use either comes in time and renews the entry, or ends it. */
  lemma AccountAfterUse(secret: Secret, uses: seq<Access>, cap: nat, now: nat, ttl: nat)
    requires uses != []
    ensures AccountOf(secret, uses + [Access(now, Secs(ttl))], cap)
            == Renewed(AccountOf(secret, uses, cap), now, ttl)
  {
    var all := uses + [Access(now, Secs(ttl))];
    assert forall j :: 0 <= j < |uses| ==> all[j] == uses[j];
    if Unbroken(all, cap) {
      assert all[|uses|].time < all[|uses| - 1].time + all[|uses| - 1].window;
    }
  }

  lemma CapFront(init: State, h: seq<Event>, p: nat)
    requires p < |h| - 1 && h[p].Put?
    ensures Cap(init, h, p) == Cap(init, h[..|h| - 1], p)
  {
    assert h[..|h| - 1][..p] == h[..p];
  }

  lemma AccountAfterPut(init: State, h: seq<Event>, k: CacheKey)
    requires h != [] && PutsKey(h[|h| - 1], k)
    ensures var s, e := Run(init, h[..|h| - 1]), h[|h| - 1];
            Account(init, h, k)
            == Some(Entry(e.secret, e.now + Secs(Min(s.ttl, s.maxTtl)), e.now + Secs(s.maxTtl)))
  {
    assert Accesses(init, h, k, |h| - 1)
        == [Access(h[|h| - 1].now, Secs(Min(Run(init, h[..|h| - 1]).ttl, Run(init, h[..|h| - 1]).maxTtl)))];
  }

  lemma AccountAfterOther(init: State, h: seq<Event>, k: CacheKey)
    requires h != [] && !PutsKey(h[|h| - 1], k)
    ensures var s, e, before := Run(init, h[..|h| - 1]), h[|h| - 1], Account(init, h[..|h| - 1], k);
            Account(init, h, k)
            == if DropsKey(e, k) then None
               else if GetsKey(e, k) then Renewed(before, e.now, s.ttl)
               else before
  {
    var front, e := h[..|h| - 1], h[|h| - 1];
    var put := LivePut(front, k);
    if put.Some? && !DropsKey(e, k) {
      var p := put.value;
      CapFront(init, h, p);
      AccessesNonEmpty(init, front, k, p);
      if GetsKey(e, k) {
        AccountAfterUse(h[p].secret, Accesses(init, front, k, p), Cap(init, h, p), e.now, Run(init, front).ttl);
      }
    }
  }

  /** The map holds exactly what the history entitles each key to. */
  lemma {:induction false} HistoryAgrees(init: State, h: seq<Event>, k: CacheKey)
    requires init.entries == map[]
    ensures Held(Run(init, h), k) == Account(init, h, k)
  {
    if h != [] {
      HistoryAgrees(init, h[..|h| - 1], k);
      HeldAfter(Run(init, h[..|h| - 1]), h[|h| - 1], k);
      if PutsKey(h[|h| - 1], k) {
        AccountAfterPut(init, h, k);
      } else {
        AccountAfterOther(init, h, k);
      }
    }
  }

  lemma LookupIsAccount(init: State, h: seq<Event>, key: CacheKey, now: nat)
    requires init.entries == map[]
    ensures var account := Account(init, h, Normal(key));
            Lookup(Run(init, h), key, now)
            == if account.Some? && !Expired(account.value, now) then Some(account.value.secret) else None
  {
    HistoryAgrees(init, h, Normal(key));
  }

  lemma AccountServes(init: State, h: seq<Event>, k: CacheKey, now: nat)
    requires LivePut(h, k).Some?
    ensures var p, account := LivePut(h, k).value, Account(init, h, k);
            && (account.Some? && !Expired(account.value, now) <==> Serves(init, h, k, p, now))
            && (account.Some? ==> account.value.secret == h[p].secret)
  {
    LivePutMeans(h, k, LivePut(h, k).value);
  }

  /**
   * A lookup hits exactly when the latest put for the same scope, upper-cased
   * fingerprint and info was not removed or cleared, every use since came before
   * the idle window then in force ran out, and the cap has not passed; the value
   * is that put's. Timeouts may be reconfigured along the way.
   */
  lemma LookupFollowsHistory(init: State, h: seq<Event>, key: CacheKey, now: nat, secret: Secret)
    requires init.entries == map[]
    ensures Lookup(Run(init, h), key, now) == Some(secret)
            <==> exists p: nat :: p < |h| && h[p].Put? && h[p].secret == secret && Serves(init, h, Normal(key), p, now)
  {
    var k := Normal(key);
    LookupIsAccount(init, h, key, now);
    if p: nat :| p < |h| && h[p].Put? && h[p].secret == secret && Serves(init, h, k, p, now) {
      LivePutMeans(h, k, p);
      AccountServes(init, h, k, now);
    }
    if Lookup(Run(init, h), key, now) == Some(secret) {
      var p := LivePut(h, k).value;
      AccountServes(init, h, k, now);
      assert Serves(init, h, k, p, now);
    }
  }

  /** `answer` is what the history entitles a lookup to: the secret of the put that serves it, if one does. */
  ghost predicate Entitled(init: State, h: seq<Event>, key: CacheKey, now: nat, answer: Option<Secret>) {
    forall secret :: answer == Some(secret) <==>
      exists p: nat :: p < |h| && h[p].Put? && h[p].secret == secret && Serves(init, h, Normal(key), p, now)
  }

  lemma LookupIsEntitled(init: State, h: seq<Event>, key: CacheKey, now: nat)
    requires init.entries == map[]
    ensures Entitled(init, h, key, now, Lookup(Run(init, h), key, now))
  {
    forall secret: Secret {
      LookupFollowsHistory(init, h, key, now, secret);
    }
  }

  class PasswordCache {
    var entries: map<CacheKey, Entry>
    var ttlSecs: nat
    var maxTtlSecs: nat
    ghost var initial: State
    ghost var history: seq<Event>

    ghost predicate Valid()
      reads this
    {
      initial.entries == map[] && View() == Run(initial, history)
    }

    ghost function View(): State
      reads this
    {
      State(entries, ttlSecs, maxTtlSecs)
    }

    constructor (ttl: Duration, maxTtl: Duration)
      ensures Valid() && history == [] && View() == NewState(ttl, maxTtl)
    {
      entries := map[];
      ttlSecs := ttl.secs;
      maxTtlSecs := Max(maxTtl.secs, ttl.secs);
      initial := NewState(ttl, maxTtl);
      history := [];
    }

    ghost method Record(e: Event)
      requires initial.entries == map[] && View() == Step(Run(initial, history), e)
      modifies this`history
      ensures Valid() && history == old(history) + [e]
    {
      RunOneMore(initial, history, e);
      history := history + [e];
    }

    method Configure(ttl: Duration, maxTtl: Duration)
      requires Valid()
      modifies this
      ensures Valid() && initial == old(initial) && history == old(history) + [SetTtl(ttl, maxTtl)]
    {
      ttlSecs := ttl.secs;
      maxTtlSecs := Max(maxTtl.secs, ttlSecs);
      Record(SetTtl(ttl, maxTtl));
    }

    method Fetch(key: CacheKey, now: nat) returns (r: Option<Secret>)
      requires Valid()
      modifies this
      ensures Valid() && initial == old(initial) && history == old(history) + [Get(key, now)]
      ensures r == Lookup(old(View()), key, now)
      ensures Entitled(initial, old(history), key, now, r)
    {
      LookupIsEntitled(initial, history, key, now);
      r := Probe(key, now);
      Record(Get(key, now));
    }

    /** The lookup itself: an entry past a deadline goes, one in time is used and gets a new idle deadline. */
    method Probe(key: CacheKey, now: nat) returns (r: Option<Secret>)
      modifies this`entries
      ensures r == Lookup(old(View()), key, now)
      ensures View() == Step(old(View()), Get(key, now))
    {
      var k := Normal(key);
      if k !in entries {
        return None;
      }
      var entry := entries[k];
      if entry.expiresAt <= now || entry.hardExpiresAt <= now {
        entries := entries - {k};
        return None;
      }
      entries := entries[k := entry.(expiresAt := Min(now + Secs(ttlSecs), entry.hardExpiresAt))];
      return Some(entry.secret);
    }

    method Store(key: CacheKey, secret: Secret, now: nat)
      requires Valid()
      modifies this
      ensures Valid() && initial == old(initial) && history == old(history) + [Put(key, secret, now)]
    {
      var ttl := Min(ttlSecs, maxTtlSecs);
      entries := entries[Normal(key) := Entry(secret, now + Secs(ttl), now + Secs(maxTtlSecs))];
      Record(Put(key, secret, now));
    }

    method Evict(key: CacheKey)
      requires Valid()
      modifies this
      ensures Valid() && initial == old(initial) && history == old(history) + [Remove(key)]
    {
      entries := entries - {Normal(key)};
      Record(Remove(key));
    }

    method EvictByFpr(fpr: string)
      requires Valid()
      modifies this
      ensures Valid() && initial == old(initial) && history == old(history) + [RemoveByFpr(fpr)]
      ensures forall k :: k in entries ==> k.fpr != Upper(fpr)
    {
      entries := Without(entries, Upper(fpr));
      Record(RemoveByFpr(fpr));
    }

    method EvictAll()
      requires Valid()
      modifies this
      ensures Valid() && initial == old(initial) && history == old(history) + [Clear]
    {
      entries := map[];
      Record(Clear);
    }
  }
}
