/**
 * What a passphrase change must come to, said of the user's answers alone
 * (`rust/src/key.rs`): who is asked how often, what is tried, and how it ends.
 */
module PassphraseRules {
  import opened Common
  import opened CacheHistory

  /** The secret part of one component: the primary key comes first. */
  datatype Lock = Open | Locked(passphrase: Secret)

  datatype Answer = Provided(passphrase: Secret) | Cancelled | NoAnswer

  datatype Failure = Canceled | FetchPasswordFailed | BadPassphrase | SealFailed

  /** The answer to each prompt, by its number. */
  type Answers = nat -> Answer

  const PASSPHRASE_RETRY_LIMIT: nat := 3

  predicate AllOpen(locks: seq<Lock>) {
    forall i :: 0 <= i < |locks| ==> locks[i].Open?
  }

  /** An answer as the program takes it: an empty passphrase counts as none. */
  function Taken(a: Answer): Result<Secret, Failure> {
    match a
    case Provided(passphrase) => if passphrase == [] then Err(FetchPasswordFailed) else Ok(passphrase)
    case Cancelled => Err(Canceled)
    case NoAnswer => Err(FetchPasswordFailed)
  }

  /** How something ends, and how many prompts it takes. */
  datatype Course = Course(failure: Option<Failure>, prompts: nat)

  function Then(prompts: nat, c: Course): Course {
    Course(c.failure, prompts + c.prompts)
  }

  /** Retries on a component locked with `pw`, answered as the prompts from `p` up to `end`. */
  function Retries(answers: Answers, p: nat, pw: Secret, end: nat): Course
    requires p <= end
    decreases end - p
  {
    if p == end then Course(Some(BadPassphrase), 0)
    else
      var given := Taken(answers(p));
      if given.Err? then Course(Some(given.error), 1)
      else if given.value == pw then Course(None, 1)
      else Then(1, Retries(answers, p + 1, pw, end))
  }

  /** The first tries did not decide, so it is up to the others. */
  predicate Undecided(answers: Answers, p: nat, pw: Secret, end: nat, tries: nat) {
    p + tries <= end && Retries(answers, p, pw, end) == Then(tries, Retries(answers, p + tries, pw, end))
  }

  /** One more try, with what came of it. */
  lemma UndecidedStep(answers: Answers, p: nat, pw: Secret, end: nat, tries: nat, opens: Result<bool, Failure>)
    requires p + tries < end && Undecided(answers, p, pw, end, tries)
    requires var given := Taken(answers(p + tries));
             opens == if given.Err? then Err(given.error) else Ok(given.value == pw)
    ensures opens.Err? ==> Retries(answers, p, pw, end) == Course(Some(opens.error), tries + 1)
    ensures opens == Ok(true) ==> Retries(answers, p, pw, end) == Course(None, tries + 1)
    ensures opens == Ok(false) ==> Undecided(answers, p, pw, end, tries + 1)
  {
  }

  /** One component: nothing to do, the passphrase at hand, or retries. */
  function OpenOne(answers: Answers, p: nat, lock: Lock, initial: Option<Secret>): Course {
    if lock.Open? || initial == Some(lock.passphrase) then Course(None, 0)
    else Retries(answers, p, lock.passphrase, p + PASSPHRASE_RETRY_LIMIT)
  }

  /** The components from `i` on, the first prompt being `p`. */
  function OpenEach(answers: Answers, p: nat, locks: seq<Lock>, initial: Option<Secret>, i: nat): Course
    requires i <= |locks|
    decreases |locks| - i
  {
    if i == |locks| then Course(None, 0)
    else
      var one := OpenOne(answers, p, locks[i], initial);
      if one.failure.Some? then one
      else Then(one.prompts, OpenEach(answers, p + one.prompts, locks, initial, i + 1))
  }

  /** The passphrase at hand comes from the cache (`hit`) or from the first prompt. */
  function OpenKey(answers: Answers, locks: seq<Lock>, hit: Option<Secret>): Course {
    if AllOpen(locks) then Course(None, 0)
    else if hit.Some? then
      if hit.value == [] then Course(Some(FetchPasswordFailed), 0) else OpenEach(answers, 0, locks, hit, 0)
    else
      var given := Taken(answers(0));
      if given.Err? then Course(Some(given.error), 1)
      else Then(1, OpenEach(answers, 1, locks, Some(given.value), 0))
  }

  predicate AllSeal(seals: nat -> bool, n: nat) {
    forall i :: 0 <= i < n ==> seals(i)
  }

  /** The whole change. */
  function Change(answers: Answers, locks: seq<Lock>, hit: Option<Secret>, seals: nat -> bool): Course {
    var opening := OpenKey(answers, locks, hit);
    if opening.failure.Some? then opening
    else
      var given := Taken(answers(opening.prompts));
      Then(opening.prompts, Course(
        if given.Err? then Some(given.error) else if AllSeal(seals, |locks|) then None else Some(SealFailed), 1))
  }

  // ----- what that means

  /** A passphrase was given and it is not the right one. */
  predicate Wrong(a: Answer, pw: Secret) {
    a.Provided? && a.passphrase != [] && a.passphrase != pw
  }

  /** Of three answers from prompt `p` on, prompt `q` is the first that is not just a wrong passphrase. */
  predicate Decides(answers: Answers, p: nat, pw: Secret, q: nat) {
    p <= q < p + 3 && !Wrong(answers(q), pw) && forall j :: p <= j < q ==> Wrong(answers(j), pw)
  }

  predicate AllWrong(answers: Answers, p: nat, pw: Secret) {
    forall j :: p <= j < p + 3 ==> Wrong(answers(j), pw)
  }

  lemma {:induction false} RetriesDecided(answers: Answers, p: nat, pw: Secret, end: nat, q: nat)
    requires p <= q < end && !Wrong(answers(q), pw)
    requires forall j :: p <= j < q ==> Wrong(answers(j), pw)
    ensures Retries(answers, p, pw, end) == Course(Verdict(answers(q), pw), q - p + 1)
    decreases end - p
  {
    if p < q {
      assert Wrong(answers(p), pw);
      RetriesDecided(answers, p + 1, pw, end, q);
    }
  }

  /** How a deciding answer ends the retries. */
  function Verdict(a: Answer, pw: Secret): Option<Failure> {
    if a == Provided(pw) && pw != [] then None
    else if a.Cancelled? then Some(Canceled) else Some(FetchPasswordFailed)
  }

  lemma {:induction false} RetriesExhausted(answers: Answers, p: nat, pw: Secret, end: nat)
    requires p <= end && forall j :: p <= j < end ==> Wrong(answers(j), pw)
    ensures Retries(answers, p, pw, end) == Course(Some(BadPassphrase), end - p)
    decreases end - p
  {
    if p < end {
      assert Wrong(answers(p), pw);
      RetriesExhausted(answers, p + 1, pw, end);
    }
  }

  lemma SomeoneDecides(answers: Answers, p: nat, pw: Secret)
    ensures AllWrong(answers, p, pw) || exists q: nat :: Decides(answers, p, pw, q)
  {
    if !Wrong(answers(p), pw) {
      assert Decides(answers, p, pw, p);
    } else if !Wrong(answers(p + 1), pw) {
      assert Decides(answers, p, pw, p + 1);
    } else if !Wrong(answers(p + 2), pw) {
      assert Decides(answers, p, pw, p + 2);
    }
  }

  /**
   * Retries succeed exactly when the right passphrase is given with only wrong ones
   * before it, fail with the reason of the first answer that is none, and give up
   * after three wrong ones; the prompts are those answers.
   */
  lemma RetriesExactly(answers: Answers, p: nat, pw: Secret)
    ensures forall q: nat :: Decides(answers, p, pw, q) ==>
              Retries(answers, p, pw, p + 3) == Course(Verdict(answers(q), pw), q - p + 1)
    ensures AllWrong(answers, p, pw) ==> Retries(answers, p, pw, p + 3) == Course(Some(BadPassphrase), 3)
    ensures AllWrong(answers, p, pw) || exists q: nat :: Decides(answers, p, pw, q)
  {
    forall q: nat | Decides(answers, p, pw, q)
      ensures Retries(answers, p, pw, p + 3) == Course(Verdict(answers(q), pw), q - p + 1)
    {
      RetriesDecided(answers, p, pw, p + 3, q);
    }
    if AllWrong(answers, p, pw) {
      RetriesExhausted(answers, p, pw, p + 3);
    }
    SomeoneDecides(answers, p, pw);
  }

  /** Prompt `q` brings the right passphrase, with only wrong ones since prompt `p`. */
  predicate RightAt(answers: Answers, p: nat, pw: Secret, q: nat) {
    && p <= q < p + 3
    && answers(q) == Provided(pw) && pw != []
    && forall j :: p <= j < q ==> answers(j).Provided? && answers(j).passphrase != [] && answers(j).passphrase != pw
  }

  /** The component opens: it is open, the passphrase at hand fits, or one of three retries is right. */
  predicate Opens(answers: Answers, p: nat, lock: Lock, initial: Option<Secret>) {
    || lock.Open?
    || initial == Some(lock.passphrase)
    || exists q: nat :: p <= q < p + 3 && RightAt(answers, p, lock.passphrase, q)
  }

  lemma RetryOpens(answers: Answers, p: nat, pw: Secret)
    ensures var c := Retries(answers, p, pw, p + 3);
            && (c.failure.None? <==> exists q: nat :: p <= q < p + 3 && RightAt(answers, p, pw, q))
            && c.prompts <= 3
  {
    RetriesExactly(answers, p, pw);
    if q: nat :| p <= q < p + 3 && RightAt(answers, p, pw, q) {
      assert Decides(answers, p, pw, q);
    } else if q: nat :| Decides(answers, p, pw, q) {
      assert answers(q) == Provided(pw) && pw != [] ==> RightAt(answers, p, pw, q);
    }
  }

  lemma OpensExactly(answers: Answers, p: nat, lock: Lock, initial: Option<Secret>)
    ensures OpenOne(answers, p, lock, initial).failure.None? <==> Opens(answers, p, lock, initial)
    ensures OpenOne(answers, p, lock, initial).prompts <= 3
  {
    if lock.Locked? {
      RetryOpens(answers, p, lock.passphrase);
    }
  }

  /** The prompt at which component `i` has its turn, when those before it opened. */
  function Turn(answers: Answers, p: nat, locks: seq<Lock>, initial: Option<Secret>, i: nat): nat
    requires i <= |locks|
  {
    if i == 0 then p
    else
      var q := Turn(answers, p, locks, initial, i - 1);
      q + OpenOne(answers, q, locks[i - 1], initial).prompts
  }

  /** The components from `i` on open in their turns. */
  predicate OpenInTurn(answers: Answers, p: nat, locks: seq<Lock>, initial: Option<Secret>, i: nat) {
    forall k :: i <= k < |locks| ==> Opens(answers, Turn(answers, p, locks, initial, k), locks[k], initial)
  }

  /** The course `c` of the components from `i` on, begun in turn. */
  predicate CourseInTurn(
    answers: Answers, p: nat, locks: seq<Lock>, initial: Option<Secret>, i: nat, q: nat, c: Course
  )
    requires i <= |locks|
  {
    && (c.failure.None? <==> OpenInTurn(answers, p, locks, initial, i))
    && (c.failure.None? ==> q + c.prompts == Turn(answers, p, locks, initial, |locks|))
  }

  lemma CourseStep(
    answers: Answers, p: nat, locks: seq<Lock>, initial: Option<Secret>, i: nat, q: nat, one: Course, rest: Course
  )
    requires i < |locks| && q == Turn(answers, p, locks, initial, i)
    requires one.failure.None? <==> Opens(answers, q, locks[i], initial)
    requires CourseInTurn(answers, p, locks, initial, i + 1, q + one.prompts, rest)
    ensures CourseInTurn(
              answers, p, locks, initial, i, q, if one.failure.Some? then one else Then(one.prompts, rest))
  {
    TurnsFrom(answers, p, locks, initial, i);
  }

  lemma OpenEachNext(answers: Answers, q: nat, locks: seq<Lock>, initial: Option<Secret>, i: nat, one: Course)
    requires i < |locks| && one == OpenOne(answers, q, locks[i], initial)
    ensures OpenEach(answers, q, locks, initial, i)
            == if one.failure.Some? then one
               else Then(one.prompts, OpenEach(answers, q + one.prompts, locks, initial, i + 1))
  {
  }

  lemma TurnNext(answers: Answers, p: nat, locks: seq<Lock>, initial: Option<Secret>, i: nat)
    requires i < |locks|
    ensures var q := Turn(answers, p, locks, initial, i);
            Turn(answers, p, locks, initial, i + 1) == q + OpenOne(answers, q, locks[i], initial).prompts
  {
  }

  lemma {:induction false} OpenEachExactly(
    answers: Answers, p: nat, locks: seq<Lock>, initial: Option<Secret>, i: nat, q: nat
  )
    requires i <= |locks| && q == Turn(answers, p, locks, initial, i)
    ensures CourseInTurn(answers, p, locks, initial, i, q, OpenEach(answers, q, locks, initial, i))
    decreases |locks| - i
  {
    if i < |locks| {
      var one := OpenOne(answers, q, locks[i], initial);
      var next := q + one.prompts;
      TurnNext(answers, p, locks, initial, i);
      OpensExactly(answers, q, locks[i], initial);
      OpenEachExactly(answers, p, locks, initial, i + 1, next);
      OpenEachNext(answers, q, locks, initial, i, one);
      CourseStep(answers, p, locks, initial, i, q, one, OpenEach(answers, next, locks, initial, i + 1));
    }
  }

  lemma TurnsFrom(answers: Answers, p: nat, locks: seq<Lock>, initial: Option<Secret>, i: nat)
    requires i < |locks|
    ensures OpenInTurn(answers, p, locks, initial, i)
            <==> && Opens(answers, Turn(answers, p, locks, initial, i), locks[i], initial)
                 && OpenInTurn(answers, p, locks, initial, i + 1)
  {
  }

  /** The first `asked` prompts and the passphrase at hand, when something is locked. */
  predicate AtHand(answers: Answers, hit: Option<Secret>, asked: nat, initial: Secret) {
    && initial != []
    && if hit.Some? then asked == 0 && hit.value == initial else asked == 1 && answers(0) == Provided(initial)
  }

  /**
   * A change succeeds exactly when every component opens in its turn, the next
   * answer is a new passphrase, and every component can be sealed with it.
   */
  lemma ChangeSucceedsExactly(
    answers: Answers, locks: seq<Lock>, hit: Option<Secret>, seals: nat -> bool, asked: nat, initial: Secret
  )
    requires AllOpen(locks) ==> asked == 0
    requires !AllOpen(locks) ==> AtHand(answers, hit, asked, initial)
    ensures Change(answers, locks, hit, seals).failure.None?
            <==> && OpenInTurn(answers, asked, locks, Some(initial), 0)
                 && NewGiven(answers, asked, locks, initial)
                 && AllSeal(seals, |locks|)
  {
    OpenKeyExactly(answers, locks, hit, asked, initial);
  }

  lemma OpenKeyExactly(answers: Answers, locks: seq<Lock>, hit: Option<Secret>, asked: nat, initial: Secret)
    requires AllOpen(locks) ==> asked == 0
    requires !AllOpen(locks) ==> AtHand(answers, hit, asked, initial)
    ensures var c := OpenKey(answers, locks, hit);
            && (c.failure.None? <==> OpenInTurn(answers, asked, locks, Some(initial), 0))
            && (c.failure.None? ==> c.prompts == Turn(answers, asked, locks, Some(initial), |locks|))
  {
    if AllOpen(locks) {
      NoTurnNeeded(answers, asked, locks, initial, |locks|);
    } else {
      OpenEachExactly(answers, asked, locks, Some(initial), 0, asked);
    }
  }

  predicate NewGiven(answers: Answers, asked: nat, locks: seq<Lock>, initial: Secret) {
    var a := answers(Turn(answers, asked, locks, Some(initial), |locks|));
    a.Provided? && a.passphrase != []
  }

  lemma {:induction false} NoTurnNeeded(answers: Answers, p: nat, locks: seq<Lock>, initial: Secret, i: nat)
    requires AllOpen(locks) && i <= |locks|
    ensures Turn(answers, p, locks, Some(initial), i) == p
  {
    if i > 0 {
      NoTurnNeeded(answers, p, locks, initial, i - 1);
    }
  }

  /** With something locked and neither a cached passphrase nor an answer, it fails at once. */
  lemma NothingAtHand(answers: Answers, locks: seq<Lock>, hit: Option<Secret>, seals: nat -> bool)
    requires !AllOpen(locks) && forall asked: nat, initial :: !AtHand(answers, hit, asked, initial)
    ensures Change(answers, locks, hit, seals)
            == if hit.Some? then Course(Some(FetchPasswordFailed), 0)
               else Course(Some(if answers(0).Cancelled? then Canceled else FetchPasswordFailed), 1)
  {
    if hit.Some? {
      assert !AtHand(answers, hit, 0, hit.value);
    } else if answers(0).Provided? {
      assert !AtHand(answers, hit, 1, answers(0).passphrase);
    }
  }

  lemma {:induction false} PromptsBounded(answers: Answers, p: nat, locks: seq<Lock>, initial: Option<Secret>, i: nat)
    requires i <= |locks|
    ensures OpenEach(answers, p, locks, initial, i).prompts <= 3 * (|locks| - i)
    decreases |locks| - i
  {
    if i < |locks| {
      OpensExactly(answers, p, locks[i], initial);
      PromptsBounded(answers, p + OpenOne(answers, p, locks[i], initial).prompts, locks, initial, i + 1);
    }
  }

  /** However it ends, at most two prompts and three per component. */
  lemma ChangeIsBounded(answers: Answers, locks: seq<Lock>, hit: Option<Secret>, seals: nat -> bool)
    ensures Change(answers, locks, hit, seals).prompts <= 2 + 3 * |locks|
  {
    PromptsBounded(answers, 0, locks, hit, 0);
    if Taken(answers(0)).Ok? {
      PromptsBounded(answers, 1, locks, Some(Taken(answers(0)).value), 0);
    }
  }
}
