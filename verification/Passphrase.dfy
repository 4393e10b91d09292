/**
 * Changing the passphrase of a whole secret key (`rust/src/key.rs`): unlock every
 * component, ask once for the new passphrase, re-protect every component with
 * it, and drop what the cache holds for any of them.
 *
 * The user is an arbitrary function from the number of the prompt to an answer.
 */
module Passphrase {
  import opened Common
  import opened CacheHistory
  import opened PassphraseRules

  datatype Kind = AskOld | AskRetry | AskNew

  /** A prompt as it was shown, and whether every component was open at that moment. */
  datatype Prompt = Prompt(kind: Kind, fpr: string, allOpen: bool)

  /** Nobody is asked for a new passphrase while something is still locked. */
  predicate NewOnlyWhenOpen(prompts: seq<Prompt>) {
    forall i :: 0 <= i < |prompts| ==> prompts[i].kind.AskNew? ==> prompts[i].allOpen
  }

  function CountNew(prompts: seq<Prompt>): nat {
    if prompts == [] then 0
    else CountNew(prompts[..|prompts| - 1]) + (if prompts[|prompts| - 1].kind.AskNew? then 1 else 0)
  }

  /** No cached passphrase is filed under the fingerprint. */
  ghost predicate Forgotten(cache: PasswordCache, fpr: string)
    reads cache
  {
    forall k :: k in cache.entries ==> k.fpr != Upper(fpr)
  }

  /** No lookup for the fingerprint hits, in any spelling, under any scope, for any purpose, at any time. */
  ghost predicate NeverHits(cache: PasswordCache, fpr: string)
    reads cache
  {
    forall key: CacheKey, now: nat :: Upper(key.fpr) == Upper(fpr) ==> Lookup(cache.View(), key, now) == None
  }

  lemma ForgottenMeansNoHit(cache: PasswordCache, fpr: string)
    requires Forgotten(cache, fpr)
    ensures NeverHits(cache, fpr)
  {
    forall key: CacheKey, now: nat | Upper(key.fpr) == Upper(fpr)
      ensures Lookup(cache.View(), key, now) == None
    {
      assert Normal(key).fpr == Upper(key.fpr);
    }
  }

  class PassphraseChange {
    const fprs: seq<string>
    const cache: PasswordCache
    const answer: nat -> Answer
    const seals: nat -> bool
    var locks: seq<Lock>
    var prompts: seq<Prompt>

    ghost predicate Valid()
      reads this, cache
    {
      && cache as object != this
      && |locks| == |fprs| > 0
      && cache.Valid()
      && NewOnlyWhenOpen(prompts)
    }

    constructor (
      fprs: seq<string>, locks: seq<Lock>, cache: PasswordCache, answer: nat -> Answer, seals: nat -> bool
    )
      requires |locks| == |fprs| > 0 && cache.Valid()
      ensures Valid() && this.fprs == fprs && this.locks == locks && this.prompts == []
      ensures this.cache == cache && this.answer == answer && this.seals == seals
    {
      this.fprs, this.locks, this.cache := fprs, locks, cache;
      this.answer, this.seals := answer, seals;
      this.prompts := [];
    }

    /** Show a prompt and take the answer; an empty one counts as none. */
    method Ask(kind: Kind, fpr: string) returns (r: Result<Secret, Failure>)
      requires Valid()
      requires kind.AskNew? ==> AllOpen(locks)
      modifies this`prompts
      ensures Valid() && prompts == old(prompts) + [Prompt(kind, fpr, AllOpen(locks))]
      ensures r == Taken(answer(|old(prompts)|))
    {
      var given := answer(|prompts|);
      prompts := prompts + [Prompt(kind, fpr, AllOpen(locks))];
      match given {
        case Provided(passphrase) =>
          r := if passphrase == [] then Err(FetchPasswordFailed) else Ok(passphrase);
        case Cancelled => r := Err(Canceled);
        case NoAnswer => r := Err(FetchPasswordFailed);
      }
    }

    /** What the cache has for the key at hand; a key without a fingerprint is never looked up. */
    ghost function Cached(scope: string, purpose: string, now: nat): Option<Secret>
      requires |fprs| > 0
      reads this, cache
    {
      if fprs[0] == "" then None
      else Lookup(cache.View(), CacheKey(scope, Upper(fprs[0]), Upper(purpose)), now)
    }

    /** The current passphrase, from the cache if it is there, else asked for and cached. */
    method FetchOld(scope: string, purpose: string, now: nat) returns (r: Result<Secret, Failure>)
      requires Valid()
      modifies this`prompts, cache
      ensures Valid() && cache.initial == old(cache.initial)
      ensures var hit := old(Cached(scope, purpose, now));
              if hit.Some? then
                prompts == old(prompts) && r == if hit.value == [] then Err(FetchPasswordFailed) else Ok(hit.value)
              else
                && prompts == old(prompts) + [Prompt(AskOld, fprs[0], AllOpen(locks))]
                && r == Taken(answer(|old(prompts)|))
      ensures var key := CacheKey(scope, Upper(fprs[0]), Upper(purpose));
              cache.history == old(cache.history)
                + (if fprs[0] == "" then [] else [Get(key, now)])
                + (if fprs[0] != "" && old(Cached(scope, purpose, now)).None? && r.Ok? then [Put(key, r.value, now)] else [])
    {
      var key := CacheKey(scope, Upper(fprs[0]), Upper(purpose));
      if fprs[0] == "" {
        r := Ask(AskOld, fprs[0]);
        return;
      }
      var cached := cache.Fetch(key, now);
      if cached.Some? {
        r := if cached.value == [] then Err(FetchPasswordFailed) else Ok(cached.value);
        return;
      }
      r := Ask(AskOld, fprs[0]);
      if r.Ok? {
        cache.Store(key, r.value, now);
      }
    }

    /** Try a passphrase on component `i`. */
    method RemovePassword(i: nat, passphrase: Secret) returns (ok: bool)
      requires i < |locks|
      modifies this`locks
      ensures ok <==> old(locks)[i] == Locked(passphrase) || old(locks)[i].Open?
      ensures locks == if ok then old(locks)[i := Open] else old(locks)
    {
      ok := locks[i].Open? || locks[i].passphrase == passphrase;
      if ok {
        locks := locks[i := Open];
      }
    }

    /** Unlock component `i`, with three more tries if the passphrase at hand is rejected. */
    method RemoveWithRetry(i: nat, initial: Option<Secret>) returns (failure: Option<Failure>)
      requires Valid() && i < |locks| && locks[i].Locked?
      modifies this`locks, this`prompts, cache
      ensures Valid()
      ensures var c := OpenOne(answer, |old(prompts)|, old(locks)[i], initial);
              failure == c.failure && |prompts| == |old(prompts)| + c.prompts
      ensures locks == if failure.None? then old(locks)[i := Open] else old(locks)
      ensures AskedAgain(old(prompts), prompts, fprs[i])
      ensures initial.Some? && initial.value != old(locks)[i].passphrase ==> Forgotten(cache, fprs[i])
    {
      if initial.Some? {
        var ok := RemovePassword(i, initial.value);
        if ok {
          return None;
        }
        cache.EvictByFpr(fprs[i]);
      }
      failure := RetryThrice(i);
    }

    method RetryThrice(i: nat) returns (failure: Option<Failure>)
      requires Valid() && i < |locks| && locks[i].Locked?
      modifies this`locks, this`prompts
      ensures Valid()
      ensures var c := Retries(answer, |old(prompts)|, old(locks)[i].passphrase, |old(prompts)| + PASSPHRASE_RETRY_LIMIT);
              failure == c.failure && |prompts| == |old(prompts)| + c.prompts
      ensures locks == if failure.None? then old(locks)[i := Open] else old(locks)
      ensures AskedAgain(old(prompts), prompts, fprs[i])
    {
      ghost var p, pw := |prompts|, locks[i].passphrase;
      ghost var end := p + PASSPHRASE_RETRY_LIMIT;
      for tries := 0 to PASSPHRASE_RETRY_LIMIT
        invariant Valid() && locks == old(locks)
        invariant |prompts| == p + tries
        invariant AskedAgain(old(prompts), prompts, fprs[i])
        invariant Undecided(answer, p, pw, end, tries)
      {
        ghost var shown := prompts;
        var opens := TryAgain(i);
        UndecidedStep(answer, p, pw, end, tries, opens);
        AskedOnceMore(old(prompts), shown, prompts, fprs[i]);
        if opens.Err? {
          return Some(opens.error);
        }
        if opens.value {
          return None;
        }
      }
      return Some(BadPassphrase);
    }

    /** Ask for component `i`'s passphrase and try the answer. */
    method TryAgain(i: nat) returns (opens: Result<bool, Failure>)
      requires Valid() && i < |locks| && locks[i].Locked?
      modifies this`locks, this`prompts
      ensures Valid() && prompts == old(prompts) + [Prompt(AskRetry, fprs[i], AllOpen(old(locks)))]
      ensures var given := Taken(answer(|old(prompts)|));
              opens == if given.Err? then Err(given.error) else Ok(given.value == old(locks)[i].passphrase)
      ensures locks == if opens == Ok(true) then old(locks)[i := Open] else old(locks)
    {
      var passphrase := Ask(AskRetry, fprs[i]);
      if passphrase.Err? {
        return Err(passphrase.error);
      }
      var ok := RemovePassword(i, passphrase.value);
      return Ok(ok);
    }

    /** Open every component, the old passphrase first. */
    method UnlockAll(oldPassphrase: Option<Secret>) returns (failure: Option<Failure>)
      requires Valid()
      modifies this`locks, this`prompts, cache
      ensures Valid()
      ensures var c := OpenEach(answer, |old(prompts)|, old(locks), oldPassphrase, 0);
              failure == c.failure && |prompts| == |old(prompts)| + c.prompts
      ensures failure.None? ==> AllOpen(locks)
      ensures OnlyRetries(old(prompts), prompts)
    {
      ghost var p, before := |prompts|, locks;
      for i := 0 to |fprs|
        invariant Valid() && p <= |prompts|
        invariant forall j :: 0 <= j < i ==> locks[j].Open?
        invariant forall j :: i <= j < |locks| ==> locks[j] == before[j]
        invariant |before| == |fprs|
        invariant OpenEach(answer, p, before, oldPassphrase, 0)
                  == Then(|prompts| - p, OpenEach(answer, |prompts|, before, oldPassphrase, i))
        invariant OnlyRetries(old(prompts), prompts)
      {
        if locks[i].Locked? {
          ghost var shown := prompts;
          failure := RemoveWithRetry(i, oldPassphrase);
          RetriesAreRetries(old(prompts), shown, prompts, fprs[i]);
          if failure.Some? {
            return;
          }
        }
      }
      failure := None;
    }

    /** The old passphrase if anything is locked, and everything opened with it. */
    method OpenUp(scope: string, purpose: string, now: nat) returns (failure: Option<Failure>)
      requires Valid() && prompts == []
      modifies this`locks, this`prompts, cache
      ensures Valid()
      ensures OpenKey(answer, old(locks), old(Cached(scope, purpose, now))) == Course(failure, |prompts|)
      ensures failure.None? ==> AllOpen(locks)
      ensures CountNew(prompts) == 0
    {
      if AllOpen(locks) {
        return None;
      }
      var fetched := FetchOld(scope, purpose, now);
      assert prompts == [] || prompts[..|prompts| - 1] == [];
      if fetched.Err? {
        return Some(fetched.error);
      }
      ghost var shown := prompts;
      failure := UnlockAll(Some(fetched.value));
      RetriesAreNotNew(shown, prompts);
    }

    /** Protect every component with the new passphrase and forget what was cached for it. */
    method SealAll(passphrase: Secret) returns (failure: Option<Failure>)
      requires Valid()
      modifies this`locks, cache
      ensures Valid()
      ensures failure == if AllSeal(seals, |fprs|) then None else Some(SealFailed)
      ensures failure.None? ==> forall i :: 0 <= i < |locks| ==> locks[i] == Locked(passphrase)
      ensures failure.None? ==> forall i :: 0 <= i < |fprs| ==> Forgotten(cache, fprs[i])
    {
      for i := 0 to |fprs|
        invariant Valid()
        invariant forall j :: 0 <= j < i ==> seals(j)
        invariant forall j :: 0 <= j < i ==> locks[j] == Locked(passphrase)
        invariant forall j :: 0 <= j < i ==> Forgotten(cache, fprs[j])
      {
        if !seals(i) {
          return Some(SealFailed);
        }
        locks := locks[i := Locked(passphrase)];
        Forget(i);
      }
      failure := None;
    }

    /** What is filed under one more component goes, and nothing forgotten before comes back. */
    method Forget(i: nat)
      requires Valid() && i < |fprs|
      modifies cache
      ensures Valid() && Forgotten(cache, fprs[i])
      ensures forall j :: 0 <= j < |fprs| && old(Forgotten(cache, fprs[j])) ==> Forgotten(cache, fprs[j])
    {
      ghost var kept := cache.entries;
      cache.EvictByFpr(fprs[i]);
      assert forall k :: k in cache.entries ==> k in kept;
    }

    /** Ask for the one new passphrase and protect everything with it. */
    method Reseal() returns (failure: Option<Failure>)
      requires Valid() && AllOpen(locks)
      modifies this`locks, this`prompts, cache
      ensures Valid()
      ensures prompts == old(prompts) + [Prompt(AskNew, fprs[0], true)]
      ensures var given := Taken(answer(|old(prompts)|));
              && failure == (if given.Err? then Some(given.error)
                             else if AllSeal(seals, |fprs|) then None else Some(SealFailed))
              && (failure.None? ==> forall i :: 0 <= i < |locks| ==> locks[i] == Locked(given.value))
      ensures failure.None? ==> forall i :: 0 <= i < |fprs| ==> NeverHits(cache, fprs[i])
    {
      var passphrase := Ask(AskNew, fprs[0]);
      if passphrase.Err? {
        return Some(passphrase.error);
      }
      failure := SealAll(passphrase.value);
      if failure.None? {
        forall i | 0 <= i < |fprs|
          ensures NeverHits(cache, fprs[i])
        {
          ForgottenMeansNoHit(cache, fprs[i]);
        }
      }
    }

    /**
     * The whole change comes to what the answers, the cached passphrase and the
     * seals make of it: at most two prompts plus three per component, one of them
     * for the new passphrase and that one only once everything is open; on success
     * every component carries the passphrase given last and no cached one is left
     * for any component.
     */
    method ChangeWholeKey(scope: string, purpose: string, now: nat) returns (failure: Option<Failure>)
      requires Valid() && prompts == []
      modifies this, cache
      ensures Valid()
      ensures Change(answer, old(locks), old(Cached(scope, purpose, now)), seals) == Course(failure, |prompts|)
      ensures |prompts| <= 2 + 3 * |fprs|
      ensures CountNew(prompts) <= 1
      ensures failure.None? ==> |prompts| > 0 && prompts[|prompts| - 1] == Prompt(AskNew, fprs[0], true)
      ensures failure.None? ==>
                && answer(|prompts| - 1).Provided? && answer(|prompts| - 1).passphrase != []
                && forall i :: 0 <= i < |locks| ==> locks[i] == Locked(answer(|prompts| - 1).passphrase)
      ensures failure.None? ==> forall i :: 0 <= i < |fprs| ==> NeverHits(cache, fprs[i])
    {
      ChangeIsBounded(answer, locks, Cached(scope, purpose, now), seals);
      failure := OpenUp(scope, purpose, now);
      if failure.Some? {
        return;
      }
      ghost var before := prompts;
      failure := Reseal();
      assert prompts[..|prompts| - 1] == before;
    }
  }

  /** Prompts that only ask for this component's passphrase again. */
  predicate AskedAgain(before: seq<Prompt>, after: seq<Prompt>, fpr: string) {
    && before <= after
    && forall j :: |before| <= j < |after| ==> after[j].kind.AskRetry? && after[j].fpr == fpr
  }

  lemma AskedOnceMore(before: seq<Prompt>, shown: seq<Prompt>, after: seq<Prompt>, fpr: string)
    requires AskedAgain(before, shown, fpr)
    requires |after| == |shown| + 1 && after[..|shown|] == shown
    requires after[|shown|].kind.AskRetry? && after[|shown|].fpr == fpr
    ensures AskedAgain(before, after, fpr)
  {
  }

  predicate OnlyRetries(before: seq<Prompt>, after: seq<Prompt>) {
    before <= after && forall j :: |before| <= j < |after| ==> after[j].kind.AskRetry?
  }

  lemma RetriesAreRetries(before: seq<Prompt>, shown: seq<Prompt>, after: seq<Prompt>, fpr: string)
    requires OnlyRetries(before, shown) && AskedAgain(shown, after, fpr)
    ensures OnlyRetries(before, after)
  {
    assert forall j :: 0 <= j < |shown| ==> after[j] == shown[j];
  }

  lemma {:induction false} RetriesAreNotNew(before: seq<Prompt>, after: seq<Prompt>)
    requires OnlyRetries(before, after)
    ensures CountNew(after) == CountNew(before)
    decreases |after|
  {
    if |after| > |before| {
      RetriesAreNotNew(before, after[..|after| - 1]);
    } else {
      assert before == after;
    }
  }
}
