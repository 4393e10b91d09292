/**
 * Which stored self-signature speaks for a key, and what the verdicts come to, said
 * in the fields of the signatures and their places in the certificate.
 */
module Governing {
  import opened Common
  import opened Certificates
  import opened Verdicts

  // ----- what counts, field by field

  /** SHA-1 and RIPEMD-160 count before 2023-02-01T00:00Z, and so without a date. */
  predicate GoodHash(hash: HashAlgorithm, created: Option<U32>) {
    || hash.StrongHash?
    || ((hash.Sha1? || hash.Ripemd160?) && (created.Some? ==> created.value < 1_675_209_600))
  }

  /** Made by the primary key over the target with a hash that counts. */
  predicate MadeOver(primary: PublicKey, target: Target, s: Signature) {
    (primary.fingerprint, target) in s.verifiesOver && GoodHash(s.hash, s.created)
  }

  predicate Eligible(primary: PublicKey, sel: Selector, s: Signature) {
    match sel
    case DirectSelfSigs =>
      s.typ == DirectKey && MadeOver(primary, KeyTarget, s) && !s.criticalUnknown
    case Certifications(id) =>
      && s.typ != CertRevocation && MadeOver(primary, ComponentTarget(id), s)
      && (s.criticalUnknown ==> s.typ == KeyRevocation || s.typ == SubkeyRevocation)
    case Templates(id) =>
      && s.typ in {CertGeneric, CertPersona, CertCasual, CertPositive, SubkeyBinding, DirectKey}
      && MadeOver(primary, ComponentTarget(id), s) && !s.criticalUnknown
    case Bindings(subkey) =>
      && s.typ == SubkeyBinding && MadeOver(primary, ComponentTarget(Subkey(subkey)), s) && !s.criticalUnknown
      && (subkey.algorithm.OtherAlgorithm? && subkey.algorithm.postQuantum ==> s.hash.StrongHash?)
    case KeyRevocations =>
      s.typ == KeyRevocation && (primary.fingerprint, KeyTarget) in s.verifiesOver
    case CertRevocations(id) =>
      s.typ == CertRevocation && (primary.fingerprint, ComponentTarget(id)) in s.verifiesOver
    case SubkeyRevocations(subkey) =>
      s.typ == SubkeyRevocation && (primary.fingerprint, ComponentTarget(Subkey(subkey))) in s.verifiesOver
  }

  lemma EligibleMeans(primary: PublicKey, sel: Selector, s: Signature)
    ensures Selected(primary, sel, s) <==> Eligible(primary, sel, s)
  {
  }

  // ----- the one that speaks for a list

  /** Of the signatures that count and were made by `t`, the last of the newest. */
  predicate NewestBy(primary: PublicKey, sel: Selector, sigs: seq<Signature>, t: U32, k: nat) {
    && k < |sigs| && Eligible(primary, sel, sigs[k]) && CreatedSecs(sigs[k]) <= t
    && forall j :: 0 <= j < |sigs| && Eligible(primary, sel, sigs[j]) && CreatedSecs(sigs[j]) <= t ==>
         CreatedSecs(sigs[j]) < CreatedSecs(sigs[k]) || (CreatedSecs(sigs[j]) == CreatedSecs(sigs[k]) && j <= k)
  }

  /** All that count were made after `t`, and this is the first of the oldest. */
  predicate OldestAfter(primary: PublicKey, sel: Selector, sigs: seq<Signature>, t: U32, k: nat) {
    && k < |sigs| && Eligible(primary, sel, sigs[k]) && t < CreatedSecs(sigs[k])
    && forall j :: 0 <= j < |sigs| && Eligible(primary, sel, sigs[j]) ==>
         CreatedSecs(sigs[k]) < CreatedSecs(sigs[j]) || (CreatedSecs(sigs[k]) == CreatedSecs(sigs[j]) && k <= j)
  }

  predicate Answers(primary: PublicKey, sel: Selector, sigs: seq<Signature>, t: U32, k: nat) {
    NewestBy(primary, sel, sigs, t, k) || OldestAfter(primary, sel, sigs, t, k)
  }

  /** Not past its own expiry at `clock`. */
  predicate Lasts(s: Signature, clock: U32) {
    || s.signatureExpiry.None? || s.signatureExpiry.value == 0
    || clock < Min(CreatedSecs(s) + s.signatureExpiry.value, U32_MAX)
  }

  /** `s` answers for the list at `t`, and has not lapsed by `clock`. */
  predicate SpeaksIn(primary: PublicKey, sel: Selector, sigs: seq<Signature>, t: U32, clock: U32, s: Signature) {
    Lasts(s, clock) && exists k :: 0 <= k < |sigs| && sigs[k] == s && Answers(primary, sel, sigs, t, k)
  }

  /** The instant asked about; the present is answered by the newest of all. */
  function Instant(at: Option<U32>): U32 {
    if at.Some? then at.value else U32_MAX
  }

  function Clock(at: Option<U32>, now: U32): U32 {
    if at.Some? then at.value else now
  }

  lemma SelectLast(primary: PublicKey, sel: Selector, sigs: seq<Signature>)
    requires sigs != []
    ensures var front, last := sigs[..|sigs| - 1], sigs[|sigs| - 1];
            Select(primary, sel, sigs)
            == if Eligible(primary, sel, last) then Select(primary, sel, front) + [last] else Select(primary, sel, front)
  {
    var front, last := sigs[..|sigs| - 1], sigs[|sigs| - 1];
    assert sigs == front + [last];
    SelectConcat(primary, sel, front, [last]);
    EligibleMeans(primary, sel, last);
    assert [last][1..] == [];
    assert Select(primary, sel, [last]) == if Eligible(primary, sel, last) then [last] else [];
  }

  lemma MadeByMore(sigs: seq<Signature>, x: Signature, t: U32)
    ensures MadeBy(sigs + [x], t) == if CreatedSecs(x) <= t then MadeBy(sigs, t) + [x] else MadeBy(sigs, t)
  {
    assert (sigs + [x])[..|sigs|] == sigs;
    MadeByLast(sigs + [x], t);
  }

  /** Of a longer list, the same one is the newest, unless the last is as new. */
  lemma StaysNewest(primary: PublicKey, sel: Selector, front: seq<Signature>, last: Signature, t: U32, k: nat)
    requires NewestBy(primary, sel, front, t, k)
    requires Eligible(primary, sel, last) && CreatedSecs(last) <= t ==> CreatedSecs(last) < CreatedSecs(front[k])
    ensures NewestBy(primary, sel, front + [last], t, k)
  {
  }

  lemma LastIsNewest(primary: PublicKey, sel: Selector, front: seq<Signature>, last: Signature, t: U32)
    requires Eligible(primary, sel, last) && CreatedSecs(last) <= t
    requires forall j :: 0 <= j < |front| && Eligible(primary, sel, front[j]) && CreatedSecs(front[j]) <= t ==>
               CreatedSecs(front[j]) <= CreatedSecs(last)
    ensures NewestBy(primary, sel, front + [last], t, |front|)
  {
  }

  /** The place of the newest signature made by `t`, given as what the filters and the maximum find. */
  predicate NewestPlace(primary: PublicKey, sel: Selector, sigs: seq<Signature>, t: U32, made: seq<Signature>, k: nat) {
    if made == [] then forall j :: 0 <= j < |sigs| && Eligible(primary, sel, sigs[j]) ==> t < CreatedSecs(sigs[j])
    else NewestBy(primary, sel, sigs, t, k) && Newest(made) == Some(sigs[k])
  }

  lemma NewestPlaceStep(
    primary: PublicKey, sel: Selector, front: seq<Signature>, last: Signature, t: U32, made: seq<Signature>, k: nat
  ) returns (next: nat)
    requires NewestPlace(primary, sel, front, t, made, k)
    ensures NewestPlace(
              primary, sel, front + [last], t,
              if Eligible(primary, sel, last) && CreatedSecs(last) <= t then made + [last] else made, next)
  {
    next := k;
    if Eligible(primary, sel, last) && CreatedSecs(last) <= t {
      if made == [] || CreatedSecs(front[k]) <= CreatedSecs(last) {
        next := |front|;
        LastIsNewest(primary, sel, front, last, t);
        NewestAppended(made, last);
      } else {
        StaysNewest(primary, sel, front, last, t, k);
        NewestOfMore(made, last);
      }
    } else if made != [] {
      StaysNewest(primary, sel, front, last, t, k);
    }
  }

  lemma {:induction false} NewestMade(primary: PublicKey, sel: Selector, sigs: seq<Signature>, t: U32) returns (k: nat)
    ensures NewestPlace(primary, sel, sigs, t, MadeBy(Select(primary, sel, sigs), t), k)
    decreases |sigs|
  {
    if sigs == [] {
      k := 0;
    } else {
      var front, last := sigs[..|sigs| - 1], sigs[|sigs| - 1];
      k := NewestMade(primary, sel, front, t);
      SelectLast(primary, sel, sigs);
      MadeByMore(Select(primary, sel, front), last, t);
      k := NewestPlaceStep(primary, sel, front, last, t, MadeBy(Select(primary, sel, front), t), k);
      assert front + [last] == sigs;
    }
  }

  predicate OldestPlace(primary: PublicKey, sel: Selector, sigs: seq<Signature>, t: U32, selected: seq<Signature>, k: nat) {
    if selected == [] then forall j :: 0 <= j < |sigs| ==> !Eligible(primary, sel, sigs[j])
    else OldestAfter(primary, sel, sigs, t, k) && Oldest(selected) == Some(sigs[k])
  }

  lemma StaysOldest(primary: PublicKey, sel: Selector, front: seq<Signature>, last: Signature, t: U32, k: nat)
    requires OldestAfter(primary, sel, front, t, k)
    requires Eligible(primary, sel, last) ==> CreatedSecs(front[k]) <= CreatedSecs(last)
    ensures OldestAfter(primary, sel, front + [last], t, k)
  {
  }

  lemma LastIsOldest(primary: PublicKey, sel: Selector, front: seq<Signature>, last: Signature, t: U32)
    requires Eligible(primary, sel, last) && t < CreatedSecs(last)
    requires forall j :: 0 <= j < |front| && Eligible(primary, sel, front[j]) ==> CreatedSecs(last) < CreatedSecs(front[j])
    ensures OldestAfter(primary, sel, front + [last], t, |front|)
  {
  }

  lemma OldestOfMore(sigs: seq<Signature>, x: Signature)
    ensures var best := Oldest(sigs);
            Oldest(sigs + [x]) == if best.Some? && CreatedSecs(best.value) <= CreatedSecs(x) then best else Some(x)
  {
    assert (sigs + [x])[..|sigs|] == sigs;
  }

  lemma OldestPlaceStep(
    primary: PublicKey, sel: Selector, front: seq<Signature>, last: Signature, t: U32, selected: seq<Signature>, k: nat
  ) returns (next: nat)
    requires OldestPlace(primary, sel, front, t, selected, k)
    requires Eligible(primary, sel, last) ==> t < CreatedSecs(last)
    ensures OldestPlace(
              primary, sel, front + [last], t, if Eligible(primary, sel, last) then selected + [last] else selected, next)
  {
    next := k;
    if Eligible(primary, sel, last) {
      OldestOfMore(selected, last);
      if selected == [] || CreatedSecs(last) < CreatedSecs(front[k]) {
        next := |front|;
        LastIsOldest(primary, sel, front, last, t);
      } else {
        StaysOldest(primary, sel, front, last, t, k);
      }
    } else if selected != [] {
      StaysOldest(primary, sel, front, last, t, k);
    }
  }

  lemma {:induction false} OldestSelected(primary: PublicKey, sel: Selector, sigs: seq<Signature>, t: U32) returns (k: nat)
    requires forall j :: 0 <= j < |sigs| && Eligible(primary, sel, sigs[j]) ==> t < CreatedSecs(sigs[j])
    ensures OldestPlace(primary, sel, sigs, t, Select(primary, sel, sigs), k)
    decreases |sigs|
  {
    if sigs == [] {
      k := 0;
    } else {
      var front, last := sigs[..|sigs| - 1], sigs[|sigs| - 1];
      assert forall j :: 0 <= j < |front| ==> front[j] == sigs[j];
      k := OldestSelected(primary, sel, front, t);
      SelectLast(primary, sel, sigs);
      k := OldestPlaceStep(primary, sel, front, last, t, Select(primary, sel, front), k);
      assert front + [last] == sigs;
    }
  }

  /** Which signature a list is left with before its own expiry is looked at. */
  function Chosen(sigs: seq<Signature>, t: U32): Option<Signature> {
    var made := MadeBy(sigs, t);
    if made != [] then Newest(made) else Oldest(sigs)
  }

  lemma ChosenAnswers(primary: PublicKey, sel: Selector, sigs: seq<Signature>, t: U32) returns (k: nat)
    ensures Chosen(Select(primary, sel, sigs), t).None? ==>
              forall j :: 0 <= j < |sigs| ==> !Eligible(primary, sel, sigs[j])
    ensures Chosen(Select(primary, sel, sigs), t).Some? ==>
              k < |sigs| && Answers(primary, sel, sigs, t, k) && Chosen(Select(primary, sel, sigs), t) == Some(sigs[k])
  {
    k := NewestMade(primary, sel, sigs, t);
    if MadeBy(Select(primary, sel, sigs), t) == [] {
      k := OldestSelected(primary, sel, sigs, t);
    }
  }

  lemma OneAnswers(primary: PublicKey, sel: Selector, sigs: seq<Signature>, t: U32, j: nat, k: nat)
    requires Answers(primary, sel, sigs, t, j) && Answers(primary, sel, sigs, t, k)
    ensures j == k
  {
  }

  lemma InForceIsChosen(sigs: seq<Signature>, at: Option<U32>, now: U32)
    ensures var c := Chosen(sigs, Instant(at));
            SigInForce(sigs, at, now) == if c.Some? && AliveAt(c.value, Clock(at, now)) then c else None
  {
    if at.None? {
      MadeByAll(sigs, U32_MAX);
    }
  }

  /** The signature in force is the one that answers and has not lapsed, and there is at most one. */
  lemma InForceExactly(primary: PublicKey, sel: Selector, sigs: seq<Signature>, at: Option<U32>, now: U32, s: Signature)
    ensures SigInForce(Select(primary, sel, sigs), at, now) == Some(s)
            <==> SpeaksIn(primary, sel, sigs, Instant(at), Clock(at, now), s)
  {
    var t := Instant(at);
    InForceIsChosen(Select(primary, sel, sigs), at, now);
    var k := ChosenAnswers(primary, sel, sigs, t);
    if SpeaksIn(primary, sel, sigs, t, Clock(at, now), s) {
      var j :| 0 <= j < |sigs| && sigs[j] == s && Answers(primary, sel, sigs, t, j);
      OneAnswers(primary, sel, sigs, t, j, k);
    }
  }

  // ----- the User ID that speaks for the key

  /** Revoked by `t`. */
  predicate Withdrawn(primary: PublicKey, user: Component, t: U32) {
    exists s :: s in user.signatures && Eligible(primary, CertRevocations(user.id), s) && CreatedSecs(s) <= t
  }

  /** The User ID at `i` is not revoked, and `s` speaks for it. */
  predicate UserSpeaks(primary: PublicKey, users: seq<Component>, t: U32, clock: U32, i: nat, s: Signature) {
    && i < |users| && !Withdrawn(primary, users[i], t)
    && SpeaksIn(primary, Certifications(users[i].id), users[i].signatures, t, clock, s)
  }

  /** A certification that marks its User ID primary goes before one that does not, then the newer, then the later. */
  predicate Outranks(s: Signature, i: nat, other: Signature, j: nat) {
    if s.isPrimary != other.isPrimary then s.isPrimary
    else CreatedSecs(other) < CreatedSecs(s) || (CreatedSecs(other) == CreatedSecs(s) && j <= i)
  }

  ghost predicate UserGoverns(primary: PublicKey, users: seq<Component>, t: U32, clock: U32, i: nat, s: Signature) {
    && UserSpeaks(primary, users, t, clock, i, s)
    && forall j: nat, other :: UserSpeaks(primary, users, t, clock, j, other) ==> Outranks(s, i, other, j)
  }

  /** `s` speaks for the key: from the User ID that governs, else (and always for version 6) directly. */
  ghost predicate KeySpeaks(primary: PublicKey, details: Details, t: U32, clock: U32, s: Signature) {
    if primary.version.V6? || forall i: nat, r :: !UserSpeaks(primary, details.users, t, clock, i, r)
    then SpeaksIn(primary, DirectSelfSigs, details.direct, t, clock, s)
    else exists i: nat :: UserGoverns(primary, details.users, t, clock, i, s)
  }

  /** What a User ID says, if anything. */
  function UserAnswer(primary: PublicKey, user: Component, at: Option<U32>, now: U32): Option<Signature> {
    if UserIdRevokedAt(primary, user, at) then None else CertificationInForce(primary, user, at, now)
  }

  lemma WithdrawnExactly(primary: PublicKey, user: Component, at: Option<U32>)
    ensures UserIdRevokedAt(primary, user, at) <==> Withdrawn(primary, user, Instant(at))
  {
    forall s {
      EligibleMeans(primary, CertRevocations(user.id), s);
    }
  }

  lemma UserSpeaksExactly(primary: PublicKey, users: seq<Component>, at: Option<U32>, now: U32, i: nat, s: Signature)
    requires i < |users|
    ensures UserAnswer(primary, users[i], at, now) == Some(s)
            <==> UserSpeaks(primary, users, Instant(at), Clock(at, now), i, s)
  {
    WithdrawnExactly(primary, users[i], at);
    InForceExactly(primary, Certifications(users[i].id), users[i].signatures, at, now, s);
  }

  function SaidBy(answer: Option<Signature>): seq<Signature> {
    if answer.Some? then [answer.value] else []
  }

  lemma UidSigsFirst(primary: PublicKey, users: seq<Component>, at: Option<U32>, now: U32)
    requires users != []
    ensures UidSigs(primary, users, at, now)
            == SaidBy(UserAnswer(primary, users[0], at, now)) + UidSigs(primary, users[1..], at, now)
  {
  }

  lemma Appended(a: seq<Signature>, b: seq<Signature>, c: seq<Signature>)
    ensures a + (b + c) == (a + b) + c
    ensures a + [] == a
  {
  }

  lemma {:induction false} UidSigsLast(primary: PublicKey, front: seq<Component>, last: Component, at: Option<U32>, now: U32)
    ensures UidSigs(primary, front + [last], at, now)
            == UidSigs(primary, front, at, now) + SaidBy(UserAnswer(primary, last, at, now))
  {
    var users, said := front + [last], SaidBy(UserAnswer(primary, last, at, now));
    UidSigsFirst(primary, users, at, now);
    if front == [] {
      assert users[1..] == [];
      Appended(said, [], []);
    } else {
      assert users[1..] == front[1..] + [last];
      UidSigsLast(primary, front[1..], last, at, now);
      UidSigsFirst(primary, front, at, now);
      Appended(SaidBy(UserAnswer(primary, front[0], at, now)), UidSigs(primary, front[1..], at, now), said);
    }
  }

  lemma {:induction false} MarkedLast(sigs: seq<Signature>, x: Signature)
    ensures MarkedPrimary(sigs + [x]) == MarkedPrimary(sigs) + if x.isPrimary then [x] else []
  {
    if sigs == [] {
      assert sigs + [x] == [x] && [x][1..] == [];
    } else {
      MarkedLast(sigs[1..], x);
      assert (sigs + [x])[1..] == sigs[1..] + [x];
    }
  }

  lemma {:induction false} MarkedMembers(sigs: seq<Signature>)
    ensures forall s :: s in MarkedPrimary(sigs) <==> s in sigs && s.isPrimary
  {
    if sigs != [] {
      MarkedMembers(sigs[1..]);
      assert sigs == [sigs[0]] + sigs[1..];
    }
  }

  /** The newest of those marked primary, else the newest of all. */
  function Foremost(sigs: seq<Signature>): Option<Signature> {
    var marked := Newest(MarkedPrimary(sigs));
    if marked.Some? then marked else Newest(sigs)
  }

  lemma NewestOrLast(sigs: seq<Signature>, x: Signature)
    ensures var best := Newest(sigs);
            Newest(sigs + [x]) == if best.Some? && CreatedSecs(best.value) > CreatedSecs(x) then best else Some(x)
  {
    assert (sigs + [x])[..|sigs|] == sigs;
  }

  /** A later certification takes the place of `best`. */
  predicate Beats(x: Signature, best: Signature) {
    if x.isPrimary != best.isPrimary then x.isPrimary else CreatedSecs(best) <= CreatedSecs(x)
  }

  lemma ForemostOfMore(sigs: seq<Signature>, x: Signature)
    ensures var best := Foremost(sigs);
            Foremost(sigs + [x]) == if best.Some? && !Beats(x, best.value) then best else Some(x)
  {
    MarkedLast(sigs, x);
    MarkedMembers(sigs);
    NewestOrLast(sigs, x);
    if x.isPrimary {
      NewestOrLast(MarkedPrimary(sigs), x);
    } else {
      assert MarkedPrimary(sigs) + [] == MarkedPrimary(sigs);
    }
  }

  /** `best` is what the User ID at `i` says, and outranks what any other says. */
  predicate TopPlace(primary: PublicKey, users: seq<Component>, at: Option<U32>, now: U32, best: Option<Signature>, i: nat) {
    if best.None? then forall j :: 0 <= j < |users| ==> UserAnswer(primary, users[j], at, now).None?
    else
      && i < |users| && UserAnswer(primary, users[i], at, now) == best
      && forall j :: 0 <= j < |users| && UserAnswer(primary, users[j], at, now).Some? ==>
           Outranks(best.value, i, UserAnswer(primary, users[j], at, now).value, j)
  }

  lemma TopPlaceStep(
    primary: PublicKey, front: seq<Component>, last: Component, at: Option<U32>, now: U32,
    best: Option<Signature>, x: Signature, i: nat
  ) returns (next: nat)
    requires TopPlace(primary, front, at, now, best, i) && UserAnswer(primary, last, at, now) == Some(x)
    ensures TopPlace(primary, front + [last], at, now, if best.Some? && !Beats(x, best.value) then best else Some(x), next)
  {
    next := if best.Some? && !Beats(x, best.value) then i else |front|;
  }

  lemma {:induction false} TopUser(primary: PublicKey, users: seq<Component>, at: Option<U32>, now: U32) returns (i: nat)
    ensures TopPlace(primary, users, at, now, Foremost(UidSigs(primary, users, at, now)), i)
    decreases |users|
  {
    if users == [] {
      i := 0;
    } else {
      var front, last := users[..|users| - 1], users[|users| - 1];
      i := TopUser(primary, front, at, now);
      UidSigsLast(primary, front, last, at, now);
      assert front + [last] == users;
      if UserAnswer(primary, last, at, now).Some? {
        var x, before := UserAnswer(primary, last, at, now).value, UidSigs(primary, front, at, now);
        ForemostOfMore(before, x);
        i := TopPlaceStep(primary, front, last, at, now, Foremost(before), x, i);
      } else {
        TopStays(primary, front, last, at, now, Foremost(UidSigs(primary, front, at, now)), i);
        assert UidSigs(primary, front, at, now) + [] == UidSigs(primary, front, at, now);
      }
    }
  }

  lemma TopStays(
    primary: PublicKey, front: seq<Component>, last: Component, at: Option<U32>, now: U32, best: Option<Signature>, i: nat
  )
    requires TopPlace(primary, front, at, now, best, i) && UserAnswer(primary, last, at, now).None?
    ensures TopPlace(primary, front + [last], at, now, best, i)
  {
  }

  lemma SpeaksAt(primary: PublicKey, users: seq<Component>, at: Option<U32>, now: U32)
    ensures forall i: nat, s :: UserSpeaks(primary, users, Instant(at), Clock(at, now), i, s)
              <==> i < |users| && UserAnswer(primary, users[i], at, now) == Some(s)
  {
    forall i: nat, s | i < |users| {
      UserSpeaksExactly(primary, users, at, now, i, s);
    }
  }

  lemma OneGoverns(primary: PublicKey, users: seq<Component>, t: U32, clock: U32, i: nat, s: Signature, j: nat, r: Signature)
    requires UserGoverns(primary, users, t, clock, i, s) && UserGoverns(primary, users, t, clock, j, r)
    ensures i == j
  {
    assert Outranks(s, i, r, j) && Outranks(r, j, s, i);
  }

  /** Which User ID's certification answers for the key: the one that outranks all others, if any speaks. */
  lemma UserGovernsExactly(primary: PublicKey, details: Details, at: Option<U32>, now: U32)
    ensures var t, clock, sig := Instant(at), Clock(at, now), UidCertificationInForce(primary, details, at, now);
            && (sig.None? <==> forall i: nat, s :: !UserSpeaks(primary, details.users, t, clock, i, s))
            && (forall s :: sig == Some(s) <==> exists i: nat :: UserGoverns(primary, details.users, t, clock, i, s))
  {
    var users, t, clock := details.users, Instant(at), Clock(at, now);
    var sig := UidCertificationInForce(primary, details, at, now);
    SpeaksAt(primary, users, at, now);
    var i := TopUser(primary, users, at, now);
    assert sig == Foremost(UidSigs(primary, users, at, now));
    if sig.Some? {
      assert UserGoverns(primary, users, t, clock, i, sig.value);
      forall j: nat, r | UserGoverns(primary, users, t, clock, j, r)
        ensures r == sig.value
      {
        OneGoverns(primary, users, t, clock, i, sig.value, j, r);
      }
    }
  }

  /** The governing self-signature of a key, for any instant or the present, in the fields of what is stored. */
  lemma KeySpeaksExactly(primary: PublicKey, details: Details, at: Option<U32>, now: U32, s: Signature)
    ensures PrimarySigInForce(primary, details, at, now) == Some(s)
            <==> KeySpeaks(primary, details, Instant(at), Clock(at, now), s)
  {
    UserGovernsExactly(primary, details, at, now);
    InForceExactly(primary, DirectSelfSigs, details.direct, at, now, s);
  }
}
