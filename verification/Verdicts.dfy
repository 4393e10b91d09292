/**
 * What the verdicts of `rust/src/key.rs` promise over time, and how the listing
 * shown to the user relates to them.
 */
module Verdicts {
  import opened Common
  import opened Certificates

  // ----- which self-signature is in force

  /** Made by `t`, none made by `t` is newer, and among equals it stands last. */
  predicate LastNewest(sigs: seq<Signature>, t: U32, k: nat) {
    && k < |sigs| && CreatedSecs(sigs[k]) <= t
    && forall j :: 0 <= j < |sigs| && CreatedSecs(sigs[j]) <= t ==>
         CreatedSecs(sigs[j]) < CreatedSecs(sigs[k]) || (CreatedSecs(sigs[j]) == CreatedSecs(sigs[k]) && j <= k)
  }

  /** None is older, and among equals it stands first. */
  predicate FirstOldest(sigs: seq<Signature>, k: nat) {
    && k < |sigs|
    && forall j :: 0 <= j < |sigs| ==>
         CreatedSecs(sigs[k]) < CreatedSecs(sigs[j]) || (CreatedSecs(sigs[k]) == CreatedSecs(sigs[j]) && k <= j)
  }

  /** The self-signature that answers for `t`: the newest made by then, else the oldest. */
  predicate Governs(sigs: seq<Signature>, t: U32, k: nat) {
    || LastNewest(sigs, t, k)
    || (FirstOldest(sigs, k) && t < CreatedSecs(sigs[k]))
  }

  lemma MadeByLast(sigs: seq<Signature>, t: U32)
    requires sigs != []
    ensures var made, last := MadeBy(sigs[..|sigs| - 1], t), sigs[|sigs| - 1];
            MadeBy(sigs, t) == if CreatedSecs(last) <= t then made + [last] else made
  {
    var front, last := sigs[..|sigs| - 1], sigs[|sigs| - 1];
    assert sigs == front + [last];
    MadeByConcat(front, [last], t);
  }

  lemma NewestOfMore(sigs: seq<Signature>, x: Signature)
    requires Newest(sigs).Some? && CreatedSecs(x) < CreatedSecs(Newest(sigs).value)
    ensures Newest(sigs + [x]) == Newest(sigs)
  {
    assert (sigs + [x])[..|sigs|] == sigs;
  }

  lemma LastNewestOfFront(sigs: seq<Signature>, t: U32, k: nat)
    requires LastNewest(sigs, t, k) && k < |sigs| - 1
    ensures LastNewest(sigs[..|sigs| - 1], t, k)
    ensures CreatedSecs(sigs[|sigs| - 1]) <= t ==> CreatedSecs(sigs[|sigs| - 1]) < CreatedSecs(sigs[k])
  {
    assert forall j :: 0 <= j < |sigs| - 1 ==> sigs[..|sigs| - 1][j] == sigs[j];
  }

  lemma {:induction false} LastNewestIsChosen(sigs: seq<Signature>, t: U32, k: nat)
    requires LastNewest(sigs, t, k)
    ensures Newest(MadeBy(sigs, t)) == Some(sigs[k])
    decreases |sigs|
  {
    var front, last := sigs[..|sigs| - 1], sigs[|sigs| - 1];
    MadeByLast(sigs, t);
    if k < |front| {
      LastNewestOfFront(sigs, t, k);
      LastNewestIsChosen(front, t, k);
      if CreatedSecs(last) <= t {
        NewestOfMore(MadeBy(front, t), last);
      }
    } else {
      MadeByMembers(front, t);
      NewestAppended(MadeBy(front, t), last);
    }
  }

  lemma {:induction false} FirstOldestIsChosen(sigs: seq<Signature>, k: nat)
    requires FirstOldest(sigs, k)
    ensures Oldest(sigs) == Some(sigs[k])
    decreases |sigs|
  {
    var front := sigs[..|sigs| - 1];
    if k < |front| {
      assert forall j :: 0 <= j < |front| ==> front[j] == sigs[j];
      FirstOldestIsChosen(front, k);
    }
  }

  /** Whichever signature governs is the one in force, unless it has lapsed itself. */
  lemma InForceMeans(sigs: seq<Signature>, t: U32, k: nat)
    requires Governs(sigs, t, k)
    ensures SigInForce(sigs, Some(t), t) == if AliveAt(sigs[k], t) then Some(sigs[k]) else None
  {
    if LastNewest(sigs, t, k) {
      LastNewestIsChosen(sigs, t, k);
    } else {
      FirstOldestIsChosen(sigs, k);
      MadeByNone(sigs, t);
    }
  }

  /** Some signature always governs, unless there is none. */
  lemma {:induction false} SomeoneGoverns(sigs: seq<Signature>, t: U32) returns (k: nat)
    requires sigs != []
    ensures Governs(sigs, t, k)
  {
    if |sigs| == 1 {
      k := 0;
    } else {
      var front, last := sigs[..|sigs| - 1], |sigs| - 1;
      assert forall j :: 0 <= j < |front| ==> front[j] == sigs[j];
      k := SomeoneGoverns(front, t);
      if CreatedSecs(sigs[last]) <= t {
        if t < CreatedSecs(sigs[k]) || CreatedSecs(sigs[k]) <= CreatedSecs(sigs[last]) {
          k := last;
        }
      } else if t < CreatedSecs(sigs[k]) && CreatedSecs(sigs[last]) < CreatedSecs(sigs[k]) {
        k := last;
      }
    }
  }

  // ----- revocation is permanent

  /** Revoked at `t` is Revoked at every later instant. */
  lemma RevokedPrimaryStaysRevoked(primary: PublicKey, details: Details, t: U32, later: U32)
    requires t <= later
    requires PrimaryVerdict(primary, details, t) == Revoked
    ensures PrimaryVerdict(primary, details, later) == Revoked
  {
    StateRevokes(PrimaryRevocations(primary, details), t);
    StateRevokes(PrimaryRevocations(primary, details), later);
    var s :| s in PrimaryRevocations(primary, details) && RevokesAt(s, t);
    assert RevokesAt(s, later);
  }

  /** A subkey refused as Revoked at `t` never vouches for anything made later. */
  lemma RevokedSubkeyNeverVouchesAgain(
    primary: PublicKey, details: Details, subkey: PublicKey, sigs: seq<Signature>, t: U32, later: U32
  )
    requires t <= later
    requires SubkeySigningVerdict(primary, details, subkey, sigs, t) == Revoked
    ensures SubkeySigningVerdict(primary, details, subkey, sigs, later) != Authorized
  {
    if PrimaryVerdict(primary, details, t) == Revoked {
      RevokedPrimaryStaysRevoked(primary, details, t, later);
    } else {
      var revocations := Select(primary, SubkeyRevocations(subkey), sigs);
      StateRevokes(revocations, t);
      StateRevokes(revocations, later);
      var s :| s in revocations && RevokesAt(s, t);
      assert RevokesAt(s, later);
    }
  }

  // ----- later certifications do not rewrite history

  lemma InForceIgnoresLater(sigs: seq<Signature>, x: Signature, t: U32)
    requires t < CreatedSecs(x)
    requires exists s :: s in sigs && CreatedSecs(s) <= CreatedSecs(x)
    ensures SigInForce(sigs + [x], Some(t), t) == SigInForce(sigs, Some(t), t)
  {
    MadeByConcat(sigs, [x], t);
    assert MadeBy(sigs + [x], t) == MadeBy(sigs, t);
    assert (sigs + [x])[..|sigs|] == sigs;
    assert Oldest(sigs + [x]) == Oldest(sigs);
  }

  lemma {:induction false} UidSigsDependOnAnswers(
    primary: PublicKey, users: seq<Component>, i: nat, user: Component, at: Option<U32>, now: U32
  )
    requires i < |users|
    requires UserIdRevokedAt(primary, users[i], at) == UserIdRevokedAt(primary, user, at)
    requires CertificationInForce(primary, users[i], at, now) == CertificationInForce(primary, user, at, now)
    ensures UidSigs(primary, users[i := user], at, now) == UidSigs(primary, users, at, now)
  {
    if i == 0 {
      assert users[i := user][1..] == users[1..];
    } else {
      UidSigsDependOnAnswers(primary, users[1..], i - 1, user, at, now);
      assert users[i := user][1..] == users[1..][i - 1 := user];
    }
  }

  function Certify(details: Details, i: nat, x: Signature): Details
    requires i < |details.users|
  {
    details.(users := details.users[i := Extended(details.users[i], x)])
  }

  /** A trusted self-certification of the User ID no newer than `x`. */
  predicate HasNoNewer(primary: PublicKey, user: Component, x: Signature) {
    exists s :: s in user.signatures
      && Selected(primary, Certifications(user.id), s)
      && CreatedSecs(s) <= CreatedSecs(x)
  }

  function Extended(user: Component, x: Signature): Component {
    user.(signatures := user.signatures + [x])
  }

  lemma CertificationUnchanged(primary: PublicKey, user: Component, x: Signature, t: U32)
    requires t < CreatedSecs(x)
    requires Selected(primary, Certifications(user.id), x) ==> HasNoNewer(primary, user, x)
    ensures CertificationInForce(primary, Extended(user, x), Some(t), t)
            == CertificationInForce(primary, user, Some(t), t)
  {
    var sel := Certifications(user.id);
    SelectConcat(primary, sel, user.signatures, [x]);
    SelectMembers(primary, sel, user.signatures);
    if Selected(primary, sel, x) {
      assert Select(primary, sel, [x]) == [x];
      InForceIgnoresLater(Select(primary, sel, user.signatures), x, t);
    } else {
      assert Select(primary, sel, [x]) == [];
      assert Select(primary, sel, user.signatures + [x]) == Select(primary, sel, user.signatures);
    }
  }

  lemma RevocationUnchanged(primary: PublicKey, user: Component, x: Signature, t: U32)
    requires t < CreatedSecs(x)
    ensures UserIdRevokedAt(primary, Extended(user, x), Some(t)) == UserIdRevokedAt(primary, user, Some(t))
  {
    var sigs := user.signatures + [x];
    assert forall s :: s in user.signatures ==> s in sigs;
    assert forall s :: s in sigs ==> s in user.signatures || s == x;
  }

  lemma VerdictDependsOnUidSigs(primary: PublicKey, a: Details, b: Details, t: U32)
    requires a.direct == b.direct && a.revocations == b.revocations
    requires UidSigs(primary, a.users, Some(t), t) == UidSigs(primary, b.users, Some(t), t)
    ensures PrimaryVerdict(primary, a, t) == PrimaryVerdict(primary, b, t)
  {
  }

  /**
   * A signature of any type dated after `t` leaves the verdict at `t` alone, unless
   * it is a trusted self-certification older than all the User ID has.
   */
  lemma LaterCertificationKeepsVerdict(primary: PublicKey, details: Details, i: nat, x: Signature, t: U32)
    requires i < |details.users| && t < CreatedSecs(x)
    requires Selected(primary, Certifications(details.users[i].id), x) ==>
               HasNoNewer(primary, details.users[i], x)
    ensures PrimaryVerdict(primary, Certify(details, i, x), t) == PrimaryVerdict(primary, details, t)
  {
    var user := details.users[i];
    CertificationUnchanged(primary, user, x, t);
    RevocationUnchanged(primary, user, x, t);
    UidSigsDependOnAnswers(primary, details.users, i, Extended(user, x), Some(t), t);
    VerdictDependsOnUidSigs(primary, Certify(details, i, x), details, t);
  }

  /** Such an older one becomes the one that governs `t`. */
  lemma BackfilledCertificationGoverns(primary: PublicKey, user: Component, x: Signature, t: U32)
    requires t < CreatedSecs(x)
    requires Selected(primary, Certifications(user.id), x) && !HasNoNewer(primary, user, x)
    ensures CertificationInForce(primary, Extended(user, x), Some(t), t) == Some(x)
  {
    var sel := Certifications(user.id);
    var earlier := Select(primary, sel, user.signatures);
    SelectConcat(primary, sel, user.signatures, [x]);
    SelectMembers(primary, sel, user.signatures);
    assert Select(primary, sel, [x]) == [x];
    MadeByNone(earlier + [x], t);
    assert (earlier + [x])[..|earlier|] == earlier;
  }

  lemma InForceIsSelected(primary: PublicKey, user: Component, t: U32)
    ensures var sig := CertificationInForce(primary, user, Some(t), t);
            sig.Some? ==> sig.value in user.signatures && Selected(primary, Certifications(user.id), sig.value)
  {
    SelectMembers(primary, Certifications(user.id), user.signatures);
    MadeByMembers(Select(primary, Certifications(user.id), user.signatures), t);
  }

  /** So a signature dated after `t` leaves the User ID's answer for `t` alone exactly in the other cases. */
  lemma LaterCertificationExactly(primary: PublicKey, user: Component, x: Signature, t: U32)
    requires t < CreatedSecs(x)
    ensures CertificationInForce(primary, Extended(user, x), Some(t), t)
            == CertificationInForce(primary, user, Some(t), t)
            <==> (Selected(primary, Certifications(user.id), x) ==> HasNoNewer(primary, user, x))
  {
    if Selected(primary, Certifications(user.id), x) && !HasNoNewer(primary, user, x) {
      BackfilledCertificationGoverns(primary, user, x, t);
      InForceIsSelected(primary, user, t);
    } else {
      CertificationUnchanged(primary, user, x, t);
    }
  }

  // ----- the listing and the verdict

  predicate NothingAfter(details: Details, now: U32) {
    && (forall s :: s in details.direct ==> CreatedSecs(s) <= now)
    && (forall s :: s in details.revocations ==> CreatedSecs(s) <= now)
    && (forall u :: u in details.users ==> forall s :: s in u.signatures ==> CreatedSecs(s) <= now)
  }

  lemma InForceNow(primary: PublicKey, sel: Selector, sigs: seq<Signature>, now: U32)
    requires forall s :: s in sigs ==> CreatedSecs(s) <= now
    ensures SigInForce(Select(primary, sel, sigs), None, now)
            == SigInForce(Select(primary, sel, sigs), Some(now), now)
  {
    SelectMembers(primary, sel, sigs);
    MadeByAll(Select(primary, sel, sigs), now);
  }

  lemma {:induction false} UidSigsNow(primary: PublicKey, users: seq<Component>, now: U32)
    requires forall u :: u in users ==> forall s :: s in u.signatures ==> CreatedSecs(s) <= now
    ensures UidSigs(primary, users, None, now) == UidSigs(primary, users, Some(now), now)
  {
    if users != [] {
      assert users[0] in users;
      InForceNow(primary, Certifications(users[0].id), users[0].signatures, now);
      UidSigsNow(primary, users[1..], now);
    }
  }

  lemma GoverningNow(primary: PublicKey, details: Details, now: U32)
    requires NothingAfter(details, now)
    ensures PrimarySigInForce(primary, details, None, now) == PrimarySigInForce(primary, details, Some(now), now)
  {
    InForceNow(primary, DirectSelfSigs, details.direct, now);
    UidSigsNow(primary, details.users, now);
  }

  /** The signing capability shown for a key governed by `sig`. */
  predicate ListedCanSign(sig: Option<Signature>, key: PublicKey, primary: PublicKey) {
    && !Forbidden(primary.algorithm) && !Forbidden(key.algorithm)
    && sig.Some? && sig.value.keyFlags.Some? && sig.value.keyFlags.value.sign
  }

  predicate ListedRevoked(primary: PublicKey, details: Details) {
    || (exists s :: s in details.revocations && Selected(primary, KeyRevocations, s))
    || (exists s :: s in details.direct && Selected(primary, KeyRevocations, s))
  }

  predicate ListedSubkeyRevoked(primary: PublicKey, subkey: PublicKey, sigs: seq<Signature>) {
    exists s :: s in sigs && Selected(primary, SubkeyRevocations(subkey), s)
  }

  predicate NotExpired(expires: U32, now: U32) {
    expires == 0 || now < expires
  }

  /** What the interface offers for signing now: the primary key. */
  predicate OfferedPrimary(primary: PublicKey, details: Details, now: U32) {
    var sig := PrimarySigInForce(primary, details, None, now);
    && ListedCanSign(sig, primary, primary)
    && !ListedRevoked(primary, details)
    && NotExpired(ExpiryOf(sig, primary.created), now)
  }

  predicate OfferedSubkey(primary: PublicKey, subkey: PublicKey, sigs: seq<Signature>, now: U32) {
    var binding := BindingInForce(primary, subkey, sigs, None, now);
    && ListedCanSign(binding, subkey, primary)
    && !ListedSubkeyRevoked(primary, subkey, sigs)
    && NotExpired(ExpiryOf(binding, subkey.created), now)
  }

  lemma ListedRevokedNow(primary: PublicKey, details: Details, now: U32)
    requires NothingAfter(details, now)
    ensures ListedRevoked(primary, details) == RevokedAt(PrimaryRevocationState(primary, details), now)
  {
    var all := details.revocations + details.direct;
    SelectMembers(primary, KeyRevocations, all);
    StateRevokes(PrimaryRevocations(primary, details), now);
    if ListedRevoked(primary, details) {
      var s :| s in all && Selected(primary, KeyRevocations, s);
      assert RevokesAt(s, now);
    }
  }

  /**
   * With no signature from the future, the listing offers the primary key for
   * signing exactly when the verdict authorises it and its governing
   * self-signature states key flags. (Without flags the verdict falls back on
   * the algorithm and the listing does not.)
   */
  lemma ListingAgreesWithVerdict(primary: PublicKey, details: Details, now: U32)
    requires primary.created <= now
    requires NothingAfter(details, now)
    ensures OfferedPrimary(primary, details, now)
            <==> && PrimarySigningVerdict(primary, details, now) == Authorized
                 && PrimarySigInForce(primary, details, None, now).Some?
                 && PrimarySigInForce(primary, details, None, now).value.keyFlags.Some?
  {
    GoverningNow(primary, details, now);
    ListedRevokedNow(primary, details, now);
  }

  /** For a subkey the verdict asks two things more than the listing shows. */
  lemma SubkeyListingAgreesWithVerdict(
    primary: PublicKey, details: Details, subkey: PublicKey, sigs: seq<Signature>, now: U32
  )
    requires subkey.created <= now
    requires forall s :: s in sigs ==> CreatedSecs(s) <= now
    ensures var binding := BindingInForce(primary, subkey, sigs, None, now);
            && binding.Some? && binding.value.keyFlags.Some?
            && SubkeySigningVerdict(primary, details, subkey, sigs, now) == Authorized
            <==> && OfferedSubkey(primary, subkey, sigs, now)
                 && PrimaryVerdict(primary, details, now) == Authorized
                 && BackSignatureOk(binding.value, primary, subkey)
  {
    InForceNow(primary, Bindings(subkey), sigs, now);
    var revocations := Select(primary, SubkeyRevocations(subkey), sigs);
    SelectMembers(primary, SubkeyRevocations(subkey), sigs);
    StateRevokes(revocations, now);
    if ListedSubkeyRevoked(primary, subkey, sigs) {
      var s :| s in sigs && Selected(primary, SubkeyRevocations(subkey), s);
      assert RevokesAt(s, now);
    }
  }
}
