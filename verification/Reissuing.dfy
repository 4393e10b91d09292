/**
 * What a re-issue copies, drops and leaves in place, field by field, and which of the
 * copies speaks for the key afterwards.
 */
module Reissuing {
  import opened Common
  import opened Certificates
  import opened Verdicts
  import opened Governing
  import opened Authority
  import opened Expiry

  /** `sig` is `was` signed again: everything copied but dates, issuer, expiry and a hash that no longer counts. */
  predicate Renews(r: Reissue, was: Signature, target: Target, sig: Signature) {
    && sig.typ == was.typ && sig.keyFlags == was.keyFlags && sig.isPrimary == was.isPrimary
    && sig.backSignature == was.backSignature && sig.revocationReason == was.revocationReason
    && sig.criticalUnknown == was.criticalUnknown
    && sig.hash == (if was.hash in {Md5, Sha1, Ripemd160} then r.defaultHash else was.hash)
    && sig.created == Some(r.now) && sig.keyExpiry == r.duration && sig.signatureExpiry.None?
    && sig.issuerFingerprints == [r.primary.fingerprint]
    && sig.issuerKeyIds == (if r.primary.version == V6 then [] else [r.primary.keyId])
    && sig.verifiesOver == {(r.primary.fingerprint, target)}
  }

  /** The signature at `k` is what a re-issue copies: the last of the newest that count. */
  predicate CopiedFrom(primary: PublicKey, sel: Selector, sigs: seq<Signature>, k: nat) {
    NewestBy(primary, sel, sigs, U32_MAX, k)
  }

  predicate HasEligible(primary: PublicKey, sel: Selector, sigs: seq<Signature>) {
    exists k :: 0 <= k < |sigs| && Eligible(primary, sel, sigs[k])
  }

  lemma CopiedExactly(primary: PublicKey, sel: Selector, sigs: seq<Signature>) returns (k: nat)
    ensures var template := Newest(Select(primary, sel, sigs));
            && (template.Some? <==> HasEligible(primary, sel, sigs))
            && (template.Some? ==> CopiedFrom(primary, sel, sigs, k) && template == Some(sigs[k]))
  {
    k := NewestMade(primary, sel, sigs, U32_MAX);
    MadeByAll(Select(primary, sel, sigs), U32_MAX);
  }

  // ----- one list of signatures

  const PROPERTIES: set<SignatureType> :=
    {CertGeneric, CertPersona, CertCasual, CertPositive, SubkeyBinding, DirectKey}

  /** Names the primary key as its issuer and is of one of these types. */
  predicate Dropped(primary: PublicKey, types: set<SignatureType>, s: Signature) {
    && (primary.fingerprint in s.issuerFingerprints || primary.keyId in s.issuerKeyIds)
    && s.typ in types
  }

  /** `kept` is `before`, in order, without what is dropped. */
  predicate Remains(primary: PublicKey, types: set<SignatureType>, before: seq<Signature>, kept: seq<Signature>) {
    if before == [] then kept == []
    else if Dropped(primary, types, before[0]) then Remains(primary, types, before[1..], kept)
    else kept != [] && kept[0] == before[0] && Remains(primary, types, before[1..], kept[1..])
  }

  /** `after` is what remains of `before`, and a renewal of the signature a re-issue copies. */
  predicate Replaced(
    r: Reissue, sel: Selector, target: Target, types: set<SignatureType>, before: seq<Signature>, after: seq<Signature>
  ) {
    && after != [] && Remains(r.primary, types, before, after[..|after| - 1])
    && exists k :: 0 <= k < |before|
         && CopiedFrom(r.primary, sel, before, k) && Renews(r, before[k], target, after[|after| - 1])
  }

  lemma {:induction false} RetainedRemains(primary: PublicKey, sigs: seq<Signature>)
    ensures Remains(primary, PROPERTIES, sigs, Retained(primary, sigs))
  {
    if sigs != [] {
      RetainedRemains(primary, sigs[1..]);
    }
  }

  lemma {:induction false} RetainedBindingsRemain(primary: PublicKey, sigs: seq<Signature>)
    ensures Remains(primary, {SubkeyBinding}, sigs, RetainedBindings(primary, sigs))
  {
    if sigs != [] {
      RetainedBindingsRemain(primary, sigs[1..]);
    }
  }

  lemma ReplacedBy(
    r: Reissue, sel: Selector, target: Target, types: set<SignatureType>, before: seq<Signature>,
    kept: seq<Signature>, template: Signature
  )
    requires Remains(r.primary, types, before, kept)
    requires Newest(Select(r.primary, sel, before)) == Some(template)
    ensures Replaced(r, sel, target, types, before, kept + [Reissued(r, template, target)])
  {
    var k := CopiedExactly(r.primary, sel, before);
    var after := kept + [Reissued(r, template, target)];
    assert after[..|after| - 1] == kept;
  }

  // ----- what an update changes

  /** Never revoked, and certified so that it can be signed again. */
  predicate Renewable(primary: PublicKey, user: Component) {
    && !HasEligible(primary, CertRevocations(user.id), user.signatures)
    && HasEligible(primary, Templates(user.id), user.signatures)
  }

  lemma RenewableExactly(primary: PublicKey, user: Component)
    ensures Reissuable(primary, user) <==> Renewable(primary, user)
  {
    var k := CopiedExactly(primary, Templates(user.id), user.signatures);
    WithdrawnExactly(primary, user, None);
    assert Withdrawn(primary, user, U32_MAX) <==> HasEligible(primary, CertRevocations(user.id), user.signatures);
  }

  /** A User ID that can be signed again is; any other is left alone. */
  predicate UserUpdated(r: Reissue, before: Component, after: Component) {
    if Renewable(r.primary, before) then
      && after.id == before.id
      && Replaced(
           r, Templates(before.id), ComponentTarget(before.id), PROPERTIES, before.signatures, after.signatures)
    else after == before
  }

  lemma UserUpdatedExactly(r: Reissue, user: Component)
    ensures UserUpdated(r, user, UpdateUser(r, user))
  {
    RenewableExactly(r.primary, user);
    if Reissuable(r.primary, user) {
      RetainedRemains(r.primary, user.signatures);
      ReplacedBy(
        r, Templates(user.id), ComponentTarget(user.id), PROPERTIES, user.signatures,
        Retained(r.primary, user.signatures), UidTemplate(r.primary, user).value);
    }
  }

  /** The key's own lists after an update: only the User IDs change, or for version 6 only the direct signatures. */
  predicate KeyUpdated(r: Reissue, before: Details, after: Details) {
    && after.revocations == before.revocations && after.attributes == before.attributes
    && if r.primary.version == V6 then
         && after.users == before.users
         && Replaced(r, DirectSelfSigs, KeyTarget, PROPERTIES, before.direct, after.direct)
       else
         && after.direct == before.direct && |after.users| == |before.users|
         && forall i :: 0 <= i < |before.users| ==> UserUpdated(r, before.users[i], after.users[i])
  }

  /** There is something to sign again. */
  predicate KeyRenewable(primary: PublicKey, details: Details) {
    if primary.version == V6 then HasEligible(primary, DirectSelfSigs, details.direct)
    else exists u :: u in details.users && Renewable(primary, u)
  }

  /** An update succeeds exactly when there is something to sign again, and then changes just that. */
  lemma KeyUpdatedExactly(r: Reissue, details: Details)
    ensures if KeyRenewable(r.primary, details)
            then UpdateDetails(r, details).Ok? && KeyUpdated(r, details, UpdateDetails(r, details).value)
            else UpdateDetails(r, details) == Err(InvalidData)
  {
    if r.primary.version.V6? {
      var k := CopiedExactly(r.primary, DirectSelfSigs, details.direct);
      if HasEligible(r.primary, DirectSelfSigs, details.direct) {
        RetainedRemains(r.primary, details.direct);
        ReplacedBy(
          r, DirectSelfSigs, KeyTarget, PROPERTIES, details.direct, Retained(r.primary, details.direct),
          details.direct[k]);
      }
    } else {
      forall u {
        RenewableExactly(r.primary, u);
      }
      forall i | 0 <= i < |details.users|
        ensures UserUpdated(r, details.users[i], UpdateUsers(r, details.users)[i])
      {
        UserUpdatedExactly(r, details.users[i]);
      }
    }
  }

  /** A subkey's binding is replaced exactly when one counts. */
  lemma BindingUpdatedExactly(r: Reissue, subkey: PublicKey, sigs: seq<Signature>)
    ensures if HasEligible(r.primary, Bindings(subkey), sigs)
            then && UpdateBinding(r, subkey, sigs).Ok?
                 && Replaced(
                      r, Bindings(subkey), ComponentTarget(Subkey(subkey)), {SubkeyBinding}, sigs,
                      UpdateBinding(r, subkey, sigs).value)
            else UpdateBinding(r, subkey, sigs) == Err(InvalidData)
  {
    var k := CopiedExactly(r.primary, Bindings(subkey), sigs);
    if HasEligible(r.primary, Bindings(subkey), sigs) {
      RetainedBindingsRemain(r.primary, sigs);
      ReplacedBy(
        r, Bindings(subkey), ComponentTarget(Subkey(subkey)), {SubkeyBinding}, sigs,
        RetainedBindings(r.primary, sigs), sigs[k]);
    }
  }

  // ----- which renewal speaks for the key

  lemma UpdatedAnswer(r: Reissue, user: Component, at: Option<U32>, now: U32)
    requires Sound(r) && UserYields(r, user, at)
    requires UserIdRevokedAt(r.primary, user, None) ==> UserIdRevokedAt(r.primary, user, at)
    ensures UserAnswer(r.primary, UpdateUser(r, user), at, now)
            == if Reissuable(r.primary, user) then Some(NewCertification(r, user)) else None
  {
    RevocationSurvives(r, user, at);
    if Reissuable(r.primary, user) {
      ReissuedUserSpeaks(r, user, at, now);
      assert UserIdRevokedAt(r.primary, user, at) ==> UserIdRevokedAt(r.primary, user, None);
    } else if !UserIdRevokedAt(r.primary, user, None) {
      SilentUser(r, user, at, now);
    }
  }

  /** The User ID at `i` can be signed again, from its signature at `k`. */
  predicate RenewedAt(primary: PublicKey, users: seq<Component>, i: nat, k: nat) {
    && i < |users| && Renewable(primary, users[i])
    && CopiedFrom(primary, Templates(users[i].id), users[i].signatures, k)
  }

  /** The last User ID renewed from a marked certification, or the last renewed if none is marked. */
  ghost predicate Leads(primary: PublicKey, users: seq<Component>, i: nat, k: nat) {
    && RenewedAt(primary, users, i, k)
    && forall j: nat, m: nat :: RenewedAt(primary, users, j, m) ==>
         if users[i].signatures[k].isPrimary != users[j].signatures[m].isPrimary
         then users[i].signatures[k].isPrimary
         else j <= i
  }

  lemma RenewalAt(r: Reissue, users: seq<Component>, i: nat) returns (k: nat)
    requires i < |users| && Reissuable(r.primary, users[i])
    ensures RenewedAt(r.primary, users, i, k)
    ensures Renews(r, users[i].signatures[k], ComponentTarget(users[i].id), NewCertification(r, users[i]))
    ensures forall m: nat :: RenewedAt(r.primary, users, i, m) ==> m == k
  {
    RenewableExactly(r.primary, users[i]);
    k := CopiedExactly(r.primary, Templates(users[i].id), users[i].signatures);
  }

  lemma UpdatedAnswers(r: Reissue, users: seq<Component>, at: Option<U32>, now: U32)
    requires Sound(r) && RevokedUsersGone(r.primary, users, at)
    requires forall u :: u in users ==> UserYields(r, u, at)
    ensures forall j :: 0 <= j < |users| ==>
              UserAnswer(r.primary, UpdateUsers(r, users)[j], at, now)
              == if Reissuable(r.primary, users[j]) then Some(NewCertification(r, users[j])) else None
  {
    forall j | 0 <= j < |users|
      ensures UserAnswer(r.primary, UpdateUsers(r, users)[j], at, now)
              == if Reissuable(r.primary, users[j]) then Some(NewCertification(r, users[j])) else None
    {
      UpdatedAnswer(r, users[j], at, now);
    }
  }

  lemma LeaderRanks(r: Reissue, users: seq<Component>, i: nat, k: nat)
    requires i < |users| && Reissuable(r.primary, users[i]) && RenewedAt(r.primary, users, i, k)
    requires Renews(r, users[i].signatures[k], ComponentTarget(users[i].id), NewCertification(r, users[i]))
    requires forall j :: 0 <= j < |users| && Reissuable(r.primary, users[j]) ==>
               Outranks(NewCertification(r, users[i]), i, NewCertification(r, users[j]), j)
    ensures Leads(r.primary, users, i, k)
  {
    forall j: nat, m: nat | RenewedAt(r.primary, users, j, m)
      ensures if users[i].signatures[k].isPrimary != users[j].signatures[m].isPrimary
              then users[i].signatures[k].isPrimary
              else j <= i
    {
      RenewableExactly(r.primary, users[j]);
      var n := RenewalAt(r, users, j);
      assert Outranks(NewCertification(r, users[i]), i, NewCertification(r, users[j]), j);
    }
  }

  /** Some User ID is renewed from a certification that marks it primary. */
  ghost predicate SomeMarked(primary: PublicKey, users: seq<Component>) {
    exists j: nat, m: nat :: RenewedAt(primary, users, j, m) && users[j].signatures[m].isPrimary
  }

  /** The User ID whose renewal is in force, found among the answers. */
  lemma LeadingAnswer(r: Reissue, details: Details, at: Option<U32>, now: U32) returns (i: nat)
    requires Sound(r) && !r.primary.version.V6? && KeyYields(r, details, at)
    requires RevokedUsersGone(r.primary, details.users, at)
    requires UpdateDetails(r, details).Ok?
    ensures i < |details.users| && Reissuable(r.primary, details.users[i])
    ensures PrimarySigInForce(r.primary, UpdateDetails(r, details).value, at, now)
            == Some(NewCertification(r, details.users[i]))
    ensures forall j :: 0 <= j < |details.users| && Reissuable(r.primary, details.users[j]) ==>
              Outranks(NewCertification(r, details.users[i]), i, NewCertification(r, details.users[j]), j)
  {
    var updated := UpdateUsers(r, details.users);
    UpdatedAnswers(r, details.users, at, now);
    i := TopUser(r.primary, updated, at, now);
    UpdatedCertified(r, details, at, now);
    assert UidCertificationInForce(r.primary, UpdateDetails(r, details).value, at, now)
           == Foremost(UidSigs(r.primary, updated, at, now));
  }

  /**
   * After an update the key speaks through the renewal of the leading User ID:
   * marked primary exactly when some renewed certification was, with the flags and
   * type of the one it was copied from.
   */
  lemma RenewalGoverns(r: Reissue, details: Details, at: Option<U32>, now: U32) returns (i: nat, k: nat)
    requires Sound(r) && !r.primary.version.V6? && KeyYields(r, details, at)
    requires RevokedUsersGone(r.primary, details.users, at)
    requires UpdateDetails(r, details).Ok?
    ensures Leads(r.primary, details.users, i, k)
    ensures var sig := PrimarySigInForce(r.primary, UpdateDetails(r, details).value, at, now);
            && sig.Some?
            && Renews(r, details.users[i].signatures[k], ComponentTarget(details.users[i].id), sig.value)
            && (sig.value.isPrimary <==> SomeMarked(r.primary, details.users))
  {
    i := LeadingAnswer(r, details, at, now);
    k := RenewalAt(r, details.users, i);
    LeaderRanks(r, details.users, i, k);
  }

  /** A version 6 key speaks through the renewal of its newest Direct Key signature. */
  lemma DirectRenewalGoverns(r: Reissue, details: Details, at: Option<U32>, now: U32) returns (k: nat)
    requires Sound(r) && r.primary.version.V6? && KeyYields(r, details, at)
    requires UpdateDetails(r, details).Ok?
    ensures CopiedFrom(r.primary, DirectSelfSigs, details.direct, k)
    ensures var sig := PrimarySigInForce(r.primary, UpdateDetails(r, details).value, at, now);
            sig.Some? && Renews(r, details.direct[k], KeyTarget, sig.value)
  {
    k := CopiedExactly(r.primary, DirectSelfSigs, details.direct);
    SelectMembers(r.primary, DirectSelfSigs, details.direct);
    RetainedMembers(r.primary, details.direct);
    ReissuedSpeaks(
      r, DirectSelfSigs, Retained(r.primary, details.direct), Reissued(r, details.direct[k], KeyTarget), at, now);
  }

  /** So a key that is neither revoked nor expired may sign exactly when the copied certification allowed it. */
  lemma RenewalSigns(r: Reissue, details: Details, t: U32, i: nat, k: nat)
    requires Sound(r) && !r.primary.version.V6? && KeyYields(r, details, Some(t))
    requires RevokedUsersGone(r.primary, details.users, Some(t))
    requires UpdateDetails(r, details).Ok?
    requires Leads(r.primary, details.users, i, k)
    ensures var updated := UpdateDetails(r, details).value;
            PrimarySigningVerdict(r.primary, updated, t)
            == if PrimaryVerdict(r.primary, updated, t) != Authorized then PrimaryVerdict(r.primary, updated, t)
               else if MaySign(details.users[i].signatures[k], r.primary.algorithm) then Authorized
               else NotAuthorized
  {
    var j, m := RenewalGoverns(r, details, Some(t), t);
    OneLeads(r.primary, details.users, i, k, j, m);
  }

  lemma OneLeads(primary: PublicKey, users: seq<Component>, i: nat, k: nat, j: nat, m: nat)
    requires Leads(primary, users, i, k) && Leads(primary, users, j, m)
    ensures i == j && k == m
  {
    assert RenewedAt(primary, users, i, k) && RenewedAt(primary, users, j, m);
  }
}
