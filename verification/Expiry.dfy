/** Changing a key's expiry by re-issuing its self-signatures (`rust/src/key.rs`). */
module Expiry {
  import opened Common
  import opened Certificates

  datatype EditError = InvalidInput | InvalidData

  /** A requested absolute time as the duration-from-creation a signature carries. */
  function ExpirationDuration(created: U32, requested: nat): Result<Option<U32>, EditError> {
    if requested == 0 then Ok(None)
    else if requested <= created then Err(InvalidInput)
    else if requested - created > U32_MAX then Err(InvalidInput)
    else Ok(Some(requested - created))
  }

  /** What reading the expiry back must give. */
  function RequestedExpiry(requested: nat): U32 {
    Min(requested, U32_MAX)
  }

  /** Everything a re-issue takes besides its template. */
  datatype Reissue = Reissue(
    primary: PublicKey,
    defaultHash: HashAlgorithm,
    duration: Option<U32>,
    now: U32,
    salt: seq<Octet>)

  function RefreshedHash(hash: HashAlgorithm, default: HashAlgorithm): HashAlgorithm {
    if hash.Md5? || hash.Sha1? || hash.Ripemd160? then default else hash
  }

  /** The template with a new date, issuer, hash and key expiry, and no expiry of its own. */
  function Reissued(r: Reissue, template: Signature, target: Target): Signature {
    template.(
      created := Some(r.now),
      signatureExpiry := None,
      keyExpiry := r.duration,
      hash := RefreshedHash(template.hash, r.defaultHash),
      issuerFingerprints := [r.primary.fingerprint],
      issuerKeyIds := if r.primary.version.V6? then [] else [r.primary.keyId],
      verifiesOver := {(r.primary.fingerprint, target)},
      content := r.salt)
  }

  /** Superseded by a re-issue: a property self-signature naming the primary. */
  predicate Superseded(primary: PublicKey, sig: Signature) {
    NamesAsIssuer(sig, primary) && IsProperty(sig.typ)
  }

  function Retained(primary: PublicKey, sigs: seq<Signature>): seq<Signature> {
    if sigs == [] then []
    else if Superseded(primary, sigs[0]) then Retained(primary, sigs[1..])
    else [sigs[0]] + Retained(primary, sigs[1..])
  }

  lemma {:induction false} RetainedMembers(primary: PublicKey, sigs: seq<Signature>)
    ensures forall s :: s in Retained(primary, sigs) <==> s in sigs && !Superseded(primary, s)
  {
    if sigs != [] {
      RetainedMembers(primary, sigs[1..]);
      assert sigs == [sigs[0]] + sigs[1..];
    }
  }

  function UidTemplate(primary: PublicKey, user: Component): Option<Signature> {
    Newest(Select(primary, Templates(user.id), user.signatures))
  }

  predicate Reissuable(primary: PublicKey, user: Component) {
    !UserIdRevokedAt(primary, user, None) && UidTemplate(primary, user).Some?
  }

  function UpdateUser(r: Reissue, user: Component): Component {
    if Reissuable(r.primary, user) then
      var sig := Reissued(r, UidTemplate(r.primary, user).value, ComponentTarget(user.id));
      user.(signatures := Retained(r.primary, user.signatures) + [sig])
    else user
  }

  function UpdateUsers(r: Reissue, users: seq<Component>): (updated: seq<Component>)
    ensures |updated| == |users|
    ensures forall i :: 0 <= i < |users| ==> updated[i] == UpdateUser(r, users[i])
  {
    if users == [] then [] else [UpdateUser(r, users[0])] + UpdateUsers(r, users[1..])
  }

  function UpdateDetails(r: Reissue, details: Details): Result<Details, EditError> {
    if r.primary.version.V6? then
      var template := Newest(Select(r.primary, DirectSelfSigs, details.direct));
      if template.None? then Err(InvalidData)
      else Ok(details.(direct :=
        Retained(r.primary, details.direct) + [Reissued(r, template.value, KeyTarget)]))
    else if exists u :: u in details.users && Reissuable(r.primary, u) then
      Ok(details.(users := UpdateUsers(r, details.users)))
    else Err(InvalidData)
  }

  /** The new self-signature of one User ID, unless it is revoked or was never certified. */
  method ReissueUser(r: Reissue, user: Component) returns (sig: Option<Signature>)
    ensures sig.Some? <==> Reissuable(r.primary, user)
    ensures UpdateUser(r, user)
            == if sig.None? then user
               else user.(signatures := Retained(r.primary, user.signatures) + [sig.value])
  {
    if UserIdRevokedAt(r.primary, user, None) {
      return None;
    }
    var template := UidTemplate(r.primary, user);
    if template.None? {
      return None;
    }
    return Some(Reissued(r, template.value, ComponentTarget(user.id)));
  }

  method ReissueUsers(r: Reissue, before: seq<Component>) returns (users: seq<Component>, updatedAny: bool)
    ensures users == UpdateUsers(r, before)
    ensures updatedAny <==> exists u :: u in before && Reissuable(r.primary, u)
  {
    users := before;
    updatedAny := false;
    for i := 0 to |before|
      invariant |users| == |before|
      invariant forall j :: 0 <= j < i ==> users[j] == UpdateUser(r, before[j])
      invariant forall j :: i <= j < |before| ==> users[j] == before[j]
      invariant updatedAny <==> exists j :: 0 <= j < i && Reissuable(r.primary, before[j])
    {
      var sig := ReissueUser(r, before[i]);
      if sig.Some? {
        users := users[i := before[i].(signatures := Retained(r.primary, before[i].signatures) + [sig.value])];
        updatedAny := true;
      }
    }
  }

  class SigningKey {
    const primary: PublicKey
    var details: Details

    constructor (primary: PublicKey, details: Details)
      ensures this.primary == primary && this.details == details
    {
      this.primary := primary;
      this.details := details;
    }

    /** Re-sign every certified, unrevoked User ID (v4) or the Direct Key signature (v6). */
    method UpdatePrimaryExpiration(r: Reissue) returns (failure: Option<EditError>)
      requires r.primary == primary
      modifies this`details
      ensures failure == (if UpdateDetails(r, old(details)).Ok? then None else Some(UpdateDetails(r, old(details)).error))
      ensures failure.None? ==> details == UpdateDetails(r, old(details)).value
      ensures failure.Some? ==> details == old(details)
    {
      if primary.version.V6? {
        var template := Newest(Select(primary, DirectSelfSigs, details.direct));
        if template.None? {
          return Some(InvalidData);
        }
        var sig := Reissued(r, template.value, KeyTarget);
        details := details.(direct := Retained(primary, details.direct) + [sig]);
        return None;
      }
      var users, updatedAny := ReissueUsers(r, details.users);
      if !updatedAny {
        return Some(InvalidData);
      }
      details := details.(users := users);
      return None;
    }
  }

  // ----- what the re-issued signatures say

  /** The signer's default hash is one a re-issue may use. */
  predicate Sound(r: Reissue) {
    r.defaultHash.StrongHash?
  }

  /**
   * A re-issue takes the place of `s` at `at`: it removes `s` from the key, or
   * only the present is asked about and `s` is no newer.
   */
  predicate Yields(r: Reissue, s: Signature, at: Option<U32>) {
    IsProperty(s.typ) && (NamesAsIssuer(s, r.primary) || (at.None? && CreatedSecs(s) <= r.now))
  }

  predicate UserYields(r: Reissue, user: Component, at: Option<U32>) {
    forall s :: s in user.signatures && Selected(r.primary, Certifications(user.id), s) ==> Yields(r, s, at)
  }

  predicate KeyYields(r: Reissue, details: Details, at: Option<U32>) {
    if r.primary.version.V6? then
      forall s :: s in details.direct && Selected(r.primary, DirectSelfSigs, s) ==> Yields(r, s, at)
    else
      forall u :: u in details.users ==> UserYields(r, u, at)
  }

  /** Carries the requested expiry, is dated now and never lapses itself. */
  predicate SaysSo(r: Reissue, sig: Signature) {
    sig.keyExpiry == r.duration && sig.signatureExpiry.None? && sig.created == Some(r.now)
  }

  lemma ReissuedSpeaks(r: Reissue, sel: Selector, kept: seq<Signature>, sig: Signature, at: Option<U32>, now: U32)
    requires forall s :: s in kept && Selected(r.primary, sel, s) ==> at.None? && CreatedSecs(s) <= CreatedSecs(sig)
    requires Selected(r.primary, sel, sig) && sig.signatureExpiry.None?
    ensures SigInForce(Select(r.primary, sel, kept + [sig]), at, now) == Some(sig)
  {
    SelectConcat(r.primary, sel, kept, [sig]);
    assert Select(r.primary, sel, [sig]) == [sig];
    if at.None? {
      SelectMembers(r.primary, sel, kept);
      NewestAppended(Select(r.primary, sel, kept), sig);
    } else {
      SelectNothing(r.primary, sel, kept);
      assert Select(r.primary, sel, kept + [sig]) == [sig];
      InForceOfOne(sig, at, now);
    }
  }

  /** The self-certification a re-issue gives this User ID. */
  function NewCertification(r: Reissue, user: Component): Signature
    requires Reissuable(r.primary, user)
  {
    Reissued(r, UidTemplate(r.primary, user).value, ComponentTarget(user.id))
  }

  lemma NewCertificationCounts(r: Reissue, user: Component)
    requires Sound(r) && Reissuable(r.primary, user)
    ensures var sig := NewCertification(r, user);
            && SaysSo(r, sig) && Superseded(r.primary, sig)
            && Selected(r.primary, Certifications(user.id), sig)
  {
    SelectMembers(r.primary, Templates(user.id), user.signatures);
  }

  /** A trusted self-certification the re-issue does not recognise as one to replace. */
  predicate LeftBehind(r: Reissue, user: Component, s: Signature) {
    && s in user.signatures
    && Selected(r.primary, Certifications(user.id), s)
    && !Superseded(r.primary, s)
  }

  /** A re-issued User ID speaks with the new signature. */
  lemma ReissuedUserSpeaks(r: Reissue, user: Component, at: Option<U32>, now: U32)
    requires Sound(r) && Reissuable(r.primary, user)
    requires forall s :: LeftBehind(r, user, s) ==> at.None? && CreatedSecs(s) <= r.now
    ensures CertificationInForce(r.primary, UpdateUser(r, user), at, now) == Some(NewCertification(r, user))
  {
    NewCertificationCounts(r, user);
    RetainedMembers(r.primary, user.signatures);
    assert forall s :: s in Retained(r.primary, user.signatures) && Selected(r.primary, Certifications(user.id), s)
             ==> LeftBehind(r, user, s);
    ReissuedSpeaks(
      r, Certifications(user.id), Retained(r.primary, user.signatures), NewCertification(r, user), at, now);
  }

  // ----- exactly when the new signature takes over

  lemma OtherChosen(sigs: seq<Signature>, sig: Signature, s: Signature, t: U32)
    requires s in sigs && sig !in sigs
    requires CreatedSecs(sig) < CreatedSecs(s) <= t || (t < CreatedSecs(sig) && CreatedSecs(s) <= CreatedSecs(sig))
    ensures SigInForce(sigs + [sig], Some(t), t) != Some(sig)
  {
    MadeByMembers(sigs + [sig], t);
    assert (sigs + [sig])[..|sigs|] == sigs;
    assert s in sigs + [sig];
  }

  lemma NewerChosen(sigs: seq<Signature>, sig: Signature, s: Signature, now: U32)
    requires s in sigs && CreatedSecs(sig) < CreatedSecs(s)
    ensures SigInForce(sigs + [sig], None, now) != Some(sig)
  {
    assert s in sigs + [sig];
  }

  /** Appended to what was kept, a signature speaks for the present exactly when nothing kept is newer. */
  lemma SpeaksNowExactly(primary: PublicKey, sel: Selector, kept: seq<Signature>, sig: Signature, now: U32)
    requires Selected(primary, sel, sig) && sig.signatureExpiry.None?
    ensures SigInForce(Select(primary, sel, kept + [sig]), None, now) == Some(sig)
            <==> forall s :: s in kept && Selected(primary, sel, s) ==> CreatedSecs(s) <= CreatedSecs(sig)
  {
    SelectConcat(primary, sel, kept, [sig]);
    SelectMembers(primary, sel, kept);
    assert Select(primary, sel, [sig]) == [sig];
    if s :| s in kept && Selected(primary, sel, s) && CreatedSecs(sig) < CreatedSecs(s) {
      NewerChosen(Select(primary, sel, kept), sig, s, now);
    } else {
      NewestAppended(Select(primary, sel, kept), sig);
    }
  }

  /** It speaks for every instant exactly when nothing kept is of its kind. */
  lemma SpeaksAlwaysExactly(primary: PublicKey, sel: Selector, kept: seq<Signature>, sig: Signature)
    requires Selected(primary, sel, sig) && sig.signatureExpiry.None? && sig !in kept && 0 < CreatedSecs(sig)
    ensures (forall t: U32 :: SigInForce(Select(primary, sel, kept + [sig]), Some(t), t) == Some(sig))
            <==> forall s :: s in kept ==> !Selected(primary, sel, s)
  {
    SelectConcat(primary, sel, kept, [sig]);
    SelectMembers(primary, sel, kept);
    assert Select(primary, sel, [sig]) == [sig];
    if s :| s in kept && Selected(primary, sel, s) {
      var t: U32 := if CreatedSecs(sig) < CreatedSecs(s) then CreatedSecs(s) else CreatedSecs(sig) - 1;
      OtherChosen(Select(primary, sel, kept), sig, s, t);
    } else {
      SelectNothing(primary, sel, kept);
      assert Select(primary, sel, kept + [sig]) == [sig];
      forall t: U32
        ensures SigInForce(Select(primary, sel, kept + [sig]), Some(t), t) == Some(sig)
      {
        InForceOfOne(sig, Some(t), t);
      }
    }
  }

  lemma LeftBehindIsKept(r: Reissue, user: Component, s: Signature)
    ensures LeftBehind(r, user, s)
            <==> s in Retained(r.primary, user.signatures) && Selected(r.primary, Certifications(user.id), s)
  {
    RetainedMembers(r.primary, user.signatures);
  }

  /** The new signature speaks for the present exactly when nothing left behind is newer. */
  lemma TakesOverNowExactly(r: Reissue, user: Component, now: U32)
    requires Sound(r) && Reissuable(r.primary, user)
    ensures CertificationInForce(r.primary, UpdateUser(r, user), None, now) == Some(NewCertification(r, user))
            <==> forall s :: LeftBehind(r, user, s) ==> CreatedSecs(s) <= r.now
  {
    NewCertificationCounts(r, user);
    RetainedMembers(r.primary, user.signatures);
    SpeaksNowExactly(
      r.primary, Certifications(user.id), Retained(r.primary, user.signatures), NewCertification(r, user), now);
    forall s {
      LeftBehindIsKept(r, user, s);
    }
  }

  /** It speaks for every instant, past ones too, exactly when nothing is left behind. */
  lemma TakesOverAlwaysExactly(r: Reissue, user: Component)
    requires Sound(r) && Reissuable(r.primary, user) && 0 < r.now
    ensures (forall t: U32 ::
               CertificationInForce(r.primary, UpdateUser(r, user), Some(t), t) == Some(NewCertification(r, user)))
            <==> forall s :: !LeftBehind(r, user, s)
  {
    NewCertificationCounts(r, user);
    RetainedMembers(r.primary, user.signatures);
    SpeaksAlwaysExactly(
      r.primary, Certifications(user.id), Retained(r.primary, user.signatures), NewCertification(r, user));
    forall s {
      LeftBehindIsKept(r, user, s);
    }
  }

  /** The Direct Key signature a re-issue gives a version 6 key. */
  function NewDirect(r: Reissue, details: Details): Signature
    requires r.primary.version.V6? && UpdateDetails(r, details).Ok?
  {
    Reissued(r, Newest(Select(r.primary, DirectSelfSigs, details.direct)).value, KeyTarget)
  }

  predicate DirectLeftBehind(r: Reissue, details: Details, s: Signature) {
    s in details.direct && Selected(r.primary, DirectSelfSigs, s) && !Superseded(r.primary, s)
  }

  /** The same for a version 6 key: the governing signature is the new one exactly when nothing outranks it. */
  lemma DirectTakesOverExactly(r: Reissue, details: Details, now: U32)
    requires Sound(r) && r.primary.version.V6? && UpdateDetails(r, details).Ok? && 0 < r.now
    ensures var updated := UpdateDetails(r, details).value;
            && (PrimarySigInForce(r.primary, updated, None, now) == Some(NewDirect(r, details))
                <==> forall s :: DirectLeftBehind(r, details, s) ==> CreatedSecs(s) <= r.now)
            && ((forall t: U32 :: PrimarySigInForce(r.primary, updated, Some(t), t) == Some(NewDirect(r, details)))
                <==> forall s :: !DirectLeftBehind(r, details, s))
  {
    var kept := Retained(r.primary, details.direct);
    SelectMembers(r.primary, DirectSelfSigs, details.direct);
    RetainedMembers(r.primary, details.direct);
    SpeaksNowExactly(r.primary, DirectSelfSigs, kept, NewDirect(r, details), now);
    SpeaksAlwaysExactly(r.primary, DirectSelfSigs, kept, NewDirect(r, details));
    assert forall s :: DirectLeftBehind(r, details, s) <==> s in kept && Selected(r.primary, DirectSelfSigs, s);
  }

  /** A User ID without a template has nothing to say. */
  lemma SilentUser(r: Reissue, user: Component, at: Option<U32>, now: U32)
    requires UserYields(r, user, at)
    requires UidTemplate(r.primary, user).None?
    ensures CertificationInForce(r.primary, user, at, now).None?
  {
    SelectMembers(r.primary, Templates(user.id), user.signatures);
    SelectNothing(r.primary, Certifications(user.id), user.signatures);
  }

  lemma RevocationSurvives(r: Reissue, user: Component, at: Option<U32>)
    ensures UserIdRevokedAt(r.primary, UpdateUser(r, user), at) == UserIdRevokedAt(r.primary, user, at)
  {
    if Reissuable(r.primary, user) {
      var updated := UpdateUser(r, user);
      var template := UidTemplate(r.primary, user).value;
      SelectMembers(r.primary, Templates(user.id), user.signatures);
      RetainedMembers(r.primary, user.signatures);
      assert !Reissued(r, template, ComponentTarget(user.id)).typ.CertRevocation?;
      assert forall s: Signature :: s.typ.CertRevocation? ==> (s in updated.signatures <==> s in user.signatures);
    }
  }

  /** Every User ID ever revoked is revoked by `at` already. */
  predicate RevokedUsersGone(primary: PublicKey, users: seq<Component>, at: Option<U32>) {
    forall u :: u in users && UserIdRevokedAt(primary, u, None) ==> UserIdRevokedAt(primary, u, at)
  }

  lemma {:induction false} UpdatedUidSigs(r: Reissue, users: seq<Component>, at: Option<U32>, now: U32)
    requires Sound(r)
    requires forall u :: u in users ==> UserYields(r, u, at)
    requires RevokedUsersGone(r.primary, users, at)
    ensures forall s :: s in UidSigs(r.primary, UpdateUsers(r, users), at, now) ==> SaysSo(r, s)
    ensures (exists u :: u in users && Reissuable(r.primary, u)) ==>
              UidSigs(r.primary, UpdateUsers(r, users), at, now) != []
  {
    if users != [] {
      var user := users[0];
      assert user in users;
      assert users == [user] + users[1..];
      assert forall u :: u in users[1..] ==> u in users;
      UpdatedUidSigs(r, users[1..], at, now);
      RevocationSurvives(r, user, at);
      assert UpdateUsers(r, users)[1..] == UpdateUsers(r, users[1..]);
      if Reissuable(r.primary, user) {
        ReissuedUserSpeaks(r, user, at, now);
        NewCertificationCounts(r, user);
        assert UserIdRevokedAt(r.primary, user, at) ==> UserIdRevokedAt(r.primary, user, None);
      } else if !UserIdRevokedAt(r.primary, user, None) {
        SilentUser(r, user, at, now);
      }
    }
  }

  lemma {:induction false} MarkedAmong(sigs: seq<Signature>)
    ensures forall s :: s in MarkedPrimary(sigs) ==> s in sigs
  {
    if sigs != [] {
      MarkedAmong(sigs[1..]);
    }
  }

  lemma UpdatedDirect(r: Reissue, details: Details, at: Option<U32>, now: U32)
    requires Sound(r) && r.primary.version.V6? && KeyYields(r, details, at)
    requires UpdateDetails(r, details).Ok?
    ensures var sig := PrimarySigInForce(r.primary, UpdateDetails(r, details).value, at, now);
            sig.Some? && SaysSo(r, sig.value)
  {
    var template := Newest(Select(r.primary, DirectSelfSigs, details.direct)).value;
    SelectMembers(r.primary, DirectSelfSigs, details.direct);
    RetainedMembers(r.primary, details.direct);
    ReissuedSpeaks(
      r, DirectSelfSigs, Retained(r.primary, details.direct), Reissued(r, template, KeyTarget), at, now);
  }

  lemma UpdatedCertified(r: Reissue, details: Details, at: Option<U32>, now: U32)
    requires Sound(r) && !r.primary.version.V6? && KeyYields(r, details, at)
    requires UpdateDetails(r, details).Ok?
    requires RevokedUsersGone(r.primary, details.users, at)
    ensures var sig := UidCertificationInForce(r.primary, UpdateDetails(r, details).value, at, now);
            sig.Some? && SaysSo(r, sig.value)
  {
    UpdatedUidSigs(r, details.users, at, now);
    MarkedAmong(UidSigs(r.primary, UpdateUsers(r, details.users), at, now));
  }

  /** Whatever governs the key after the update carries the requested expiry. */
  lemma UpdatedGoverns(r: Reissue, details: Details, at: Option<U32>, now: U32)
    requires Sound(r) && KeyYields(r, details, at)
    requires UpdateDetails(r, details).Ok?
    requires RevokedUsersGone(r.primary, details.users, at)
    ensures var sig := PrimarySigInForce(r.primary, UpdateDetails(r, details).value, at, now);
            sig.Some? && SaysSo(r, sig.value)
  {
    if r.primary.version.V6? {
      UpdatedDirect(r, details, at, now);
    } else {
      UpdatedCertified(r, details, at, now);
    }
  }

  lemma RevocationStateSurvives(r: Reissue, details: Details)
    requires UpdateDetails(r, details).Ok?
    ensures PrimaryRevocationState(r.primary, UpdateDetails(r, details).value)
            == PrimaryRevocationState(r.primary, details)
  {
    var after := UpdateDetails(r, details).value;
    if r.primary.version.V6? {
      SelectMembers(r.primary, DirectSelfSigs, details.direct);
      RetainedMembers(r.primary, details.direct);
      SelectMembers(r.primary, KeyRevocations, details.revocations + details.direct);
      SelectMembers(r.primary, KeyRevocations, after.revocations + after.direct);
      StateDependsOnSet(
        PrimaryRevocations(r.primary, after), PrimaryRevocations(r.primary, details));
    }
  }

  /** Reading the expiry back gives what was asked for, or 0 for never, whichever User ID governs. */
  lemma ExpiryReadsBack(r: Reissue, details: Details, requested: nat, now: U32)
    requires Sound(r) && KeyYields(r, details, None)
    requires ExpirationDuration(r.primary.created, requested) == Ok(r.duration)
    requires UpdateDetails(r, details).Ok?
    ensures ExpiryOf(PrimarySigInForce(r.primary, UpdateDetails(r, details).value, None, now), r.primary.created)
            == RequestedExpiry(requested)
  {
    UpdatedGoverns(r, details, None, now);
  }

  /**
   * After the update the verdict at `t` is decided by the key's creation, its
   * revocations and the requested expiry alone, also for `t` before the
   * re-issue, once every revoked User ID is out of the way.
   */
  lemma UpdatedVerdict(r: Reissue, details: Details, requested: nat, t: U32)
    requires Sound(r) && KeyYields(r, details, Some(t))
    requires !Forbidden(r.primary.algorithm)
    requires ExpirationDuration(r.primary.created, requested) == Ok(r.duration)
    requires UpdateDetails(r, details).Ok?
    requires RevokedUsersGone(r.primary, details.users, Some(t))
    ensures PrimaryVerdict(r.primary, UpdateDetails(r, details).value, t)
            == if t < r.primary.created then NotAuthorized
               else if RevokedAt(PrimaryRevocationState(r.primary, details), t) then Revoked
               else if requested != 0 && RequestedExpiry(requested) <= t then Expired
               else Authorized
  {
    UpdatedGoverns(r, details, Some(t), t);
    RevocationStateSurvives(r, details);
  }

  // ----- one subkey

  function RetainedBindings(primary: PublicKey, sigs: seq<Signature>): seq<Signature> {
    if sigs == [] then []
    else if NamesAsIssuer(sigs[0], primary) && sigs[0].typ.SubkeyBinding? then RetainedBindings(primary, sigs[1..])
    else [sigs[0]] + RetainedBindings(primary, sigs[1..])
  }

  function UpdateBinding(r: Reissue, subkey: PublicKey, sigs: seq<Signature>): Result<seq<Signature>, EditError> {
    var template := Newest(Select(r.primary, Bindings(subkey), sigs));
    if template.None? then Err(InvalidData)
    else Ok(RetainedBindings(r.primary, sigs)
            + [Reissued(r, template.value, ComponentTarget(Subkey(subkey)))])
  }

  lemma {:induction false} RetainedBindingsMembers(primary: PublicKey, sigs: seq<Signature>)
    ensures forall s :: s in RetainedBindings(primary, sigs)
              <==> s in sigs && !(NamesAsIssuer(s, primary) && s.typ.SubkeyBinding?)
  {
    if sigs != [] {
      RetainedBindingsMembers(primary, sigs[1..]);
      assert sigs == [sigs[0]] + sigs[1..];
    }
  }

  /**
   * A subkey's expiry reads back at every instant, the back-signature and flags
   * of the binding it replaces survive, and so do all revocations.
   */
  lemma SubkeyExpiryReadsBack(
    r: Reissue, subkey: PublicKey, sigs: seq<Signature>, requested: nat, at: Option<U32>, now: U32
  )
    requires Sound(r)
    requires forall s :: s in sigs && Selected(r.primary, Bindings(subkey), s) ==> Yields(r, s, at)
    requires ExpirationDuration(subkey.created, requested) == Ok(r.duration)
    requires UpdateBinding(r, subkey, sigs).Ok?
    ensures var updated := UpdateBinding(r, subkey, sigs).value;
            var binding := BindingInForce(r.primary, subkey, updated, at, now);
            && ExpiryOf(binding, subkey.created) == RequestedExpiry(requested)
            && binding.Some? && SaysSo(r, binding.value)
            && (exists s :: s in sigs && Selected(r.primary, Bindings(subkey), s)
                  && s.backSignature == binding.value.backSignature && s.keyFlags == binding.value.keyFlags)
            && SubkeyRevocationState(r.primary, subkey, updated) == SubkeyRevocationState(r.primary, subkey, sigs)
  {
    var updated := UpdateBinding(r, subkey, sigs).value;
    var template := Newest(Select(r.primary, Bindings(subkey), sigs)).value;
    SelectMembers(r.primary, Bindings(subkey), sigs);
    RetainedBindingsMembers(r.primary, sigs);
    ReissuedSpeaks(
      r, Bindings(subkey), RetainedBindings(r.primary, sigs),
      Reissued(r, template, ComponentTarget(Subkey(subkey))), at, now);
    SelectMembers(r.primary, SubkeyRevocations(subkey), sigs);
    SelectMembers(r.primary, SubkeyRevocations(subkey), updated);
    StateDependsOnSet(
      Select(r.primary, SubkeyRevocations(subkey), updated), Select(r.primary, SubkeyRevocations(subkey), sigs));
  }

  function NewBinding(r: Reissue, subkey: PublicKey, sigs: seq<Signature>): Signature
    requires UpdateBinding(r, subkey, sigs).Ok?
  {
    Reissued(r, Newest(Select(r.primary, Bindings(subkey), sigs)).value, ComponentTarget(Subkey(subkey)))
  }

  predicate BindingLeftBehind(r: Reissue, subkey: PublicKey, sigs: seq<Signature>, s: Signature) {
    s in sigs && Selected(r.primary, Bindings(subkey), s) && !NamesAsIssuer(s, r.primary)
  }

  /** The new binding is in force exactly when no binding left behind outranks it. */
  lemma BindingTakesOverExactly(r: Reissue, subkey: PublicKey, sigs: seq<Signature>, now: U32)
    requires Sound(r) && UpdateBinding(r, subkey, sigs).Ok? && 0 < r.now
    ensures var updated, sig := UpdateBinding(r, subkey, sigs).value, NewBinding(r, subkey, sigs);
            && (BindingInForce(r.primary, subkey, updated, None, now) == Some(sig)
                <==> forall s :: BindingLeftBehind(r, subkey, sigs, s) ==> CreatedSecs(s) <= r.now)
            && ((forall t: U32 :: BindingInForce(r.primary, subkey, updated, Some(t), t) == Some(sig))
                <==> forall s :: !BindingLeftBehind(r, subkey, sigs, s))
  {
    var kept := RetainedBindings(r.primary, sigs);
    SelectMembers(r.primary, Bindings(subkey), sigs);
    RetainedBindingsMembers(r.primary, sigs);
    SpeaksNowExactly(r.primary, Bindings(subkey), kept, NewBinding(r, subkey, sigs), now);
    SpeaksAlwaysExactly(r.primary, Bindings(subkey), kept, NewBinding(r, subkey, sigs));
    assert forall s :: BindingLeftBehind(r, subkey, sigs, s) <==> s in kept && Selected(r.primary, Bindings(subkey), s);
  }
}
