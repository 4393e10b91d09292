/**
 * Every verdict and every offer of the listing, decided by the fields of what the
 * certificate stores.
 */
module Authority {
  import opened Common
  import opened Certificates
  import opened Verdicts
  import opened Governing

  /** RSA below 2048 bits and DSA are not used at all. */
  predicate TooWeak(algorithm: Algorithm) {
    algorithm.Dsa? || (algorithm.Rsa? && algorithm.bits < 2048)
  }

  /** Superseding and retiring a key take effect when dated; any other reason, or none, always did. */
  predicate TakesEffect(s: Signature, t: U32) {
    s.revocationReason in {Some(KeySuperseded), Some(KeyRetired)} ==> CreatedSecs(s) <= t
  }

  predicate RevokedWithin(primary: PublicKey, sel: Selector, sigs: seq<Signature>, t: U32) {
    exists s :: s in sigs && Eligible(primary, sel, s) && TakesEffect(s, t)
  }

  /** Its key expiry, counted from the key's creation, has passed. */
  predicate Ended(s: Signature, created: U32, t: U32) {
    s.keyExpiry.Some? && s.keyExpiry.value != 0 && Min(created + s.keyExpiry.value, U32_MAX) <= t
  }

  /** It allows signing, by its flags or, without any, by the algorithm. */
  predicate MaySign(s: Signature, algorithm: Algorithm) {
    match s.keyFlags
    case Some(flags) => flags.sign
    case None => !algorithm.OtherAlgorithm? || algorithm.signs
  }

  predicate Usable(key: PublicKey, t: U32) {
    !TooWeak(key.algorithm) && key.created <= t
  }

  predicate KeyRevokedBy(primary: PublicKey, details: Details, t: U32) {
    || RevokedWithin(primary, KeyRevocations, details.revocations, t)
    || RevokedWithin(primary, KeyRevocations, details.direct, t)
  }

  lemma RevokedExactly(primary: PublicKey, sel: Selector, sigs: seq<Signature>, t: U32)
    ensures RevokedAt(StateOf(Select(primary, sel, sigs)), t) <==> RevokedWithin(primary, sel, sigs, t)
  {
    SelectMembers(primary, sel, sigs);
    StateRevokes(Select(primary, sel, sigs), t);
    forall s
      ensures Selected(primary, sel, s) <==> Eligible(primary, sel, s)
      ensures RevokesAt(s, t) <==> TakesEffect(s, t)
    {
      EligibleMeans(primary, sel, s);
    }
  }

  lemma KeyRevokedExactly(primary: PublicKey, details: Details, t: U32)
    ensures RevokedAt(PrimaryRevocationState(primary, details), t) <==> KeyRevokedBy(primary, details, t)
  {
    RevokedExactly(primary, KeyRevocations, details.revocations + details.direct, t);
  }

  lemma EndedExactly(s: Signature, created: U32, t: U32)
    ensures var expires := ExpiryOf(Some(s), created);
            expires != 0 && expires <= t <==> Ended(s, created, t)
  {
  }

  lemma SpokenFor(primary: PublicKey, details: Details, t: U32)
    ensures var sig := PrimarySigInForce(primary, details, Some(t), t);
            forall s :: sig == Some(s) <==> KeySpeaks(primary, details, t, t, s)
  {
    forall s {
      KeySpeaksExactly(primary, details, Some(t), t, s);
    }
  }

  /** The verdict on the primary key, each answer with its exact condition. */
  lemma PrimaryVerdictExactly(primary: PublicKey, details: Details, t: U32)
    ensures var verdict := PrimaryVerdict(primary, details, t);
            var live := Usable(primary, t) && !KeyRevokedBy(primary, details, t);
            && (verdict == Revoked <==> Usable(primary, t) && KeyRevokedBy(primary, details, t))
            && (verdict == Expired
                <==> live && exists s :: KeySpeaks(primary, details, t, t, s) && Ended(s, primary.created, t))
            && (verdict == Authorized
                <==> live && exists s :: KeySpeaks(primary, details, t, t, s) && !Ended(s, primary.created, t))
            && (verdict == NotAuthorized
                <==> !Usable(primary, t) || (live && forall s :: !KeySpeaks(primary, details, t, t, s)))
  {
    KeyRevokedExactly(primary, details, t);
    SpokenFor(primary, details, t);
    var sig := PrimarySigInForce(primary, details, Some(t), t);
    if sig.Some? {
      EndedExactly(sig.value, primary.created, t);
    }
  }

  /** A primary key vouches exactly when it is usable, unrevoked, and what speaks for it has not ended and allows it. */
  lemma PrimarySignsExactly(primary: PublicKey, details: Details, t: U32)
    ensures PrimarySigningVerdict(primary, details, t) == Authorized
            <==> && Usable(primary, t) && !KeyRevokedBy(primary, details, t)
                 && exists s :: KeySpeaks(primary, details, t, t, s)
                      && !Ended(s, primary.created, t) && MaySign(s, primary.algorithm)
    ensures PrimarySigningVerdict(primary, details, t) != Authorized ==>
              PrimarySigningVerdict(primary, details, t)
              == if PrimaryVerdict(primary, details, t) == Authorized then NotAuthorized
                 else PrimaryVerdict(primary, details, t)
  {
    PrimaryVerdictExactly(primary, details, t);
    SpokenFor(primary, details, t);
  }

  /** The embedded signature by which a subkey owns up to its primary key. */
  predicate OwnedUp(binding: Signature, primary: PublicKey, subkey: PublicKey) {
    match binding.backSignature
    case None => false
    case Some(back) =>
      && back.typ == KeyBinding && GoodHash(back.hash, back.created)
      && (subkey.fingerprint, primary.fingerprint) in back.verifiesOver
  }

  predicate Bound(primary: PublicKey, subkey: PublicKey, sigs: seq<Signature>, t: U32, binding: Signature) {
    SpeaksIn(primary, Bindings(subkey), sigs, t, t, binding)
  }

  /** Usable and not revoked, the subkey itself and its primary key, which is authorised. */
  predicate SubkeyStands(primary: PublicKey, details: Details, subkey: PublicKey, sigs: seq<Signature>, t: U32) {
    && PrimaryVerdict(primary, details, t) == Authorized
    && Usable(subkey, t) && !RevokedWithin(primary, SubkeyRevocations(subkey), sigs, t)
  }

  predicate MayVouch(binding: Signature, primary: PublicKey, subkey: PublicKey) {
    MaySign(binding, subkey.algorithm) && OwnedUp(binding, primary, subkey)
  }

  lemma BoundExactly(primary: PublicKey, subkey: PublicKey, sigs: seq<Signature>, t: U32)
    ensures var binding := BindingInForce(primary, subkey, sigs, Some(t), t);
            forall s :: binding == Some(s) <==> Bound(primary, subkey, sigs, t, s)
  {
    forall s {
      InForceExactly(primary, Bindings(subkey), sigs, Some(t), t, s);
    }
  }

  lemma OwnedUpExactly(binding: Signature, primary: PublicKey, subkey: PublicKey)
    ensures BackSignatureOk(binding, primary, subkey) <==> OwnedUp(binding, primary, subkey)
  {
  }

  /** The verdict on a subkey, each answer with its exact condition. */
  lemma SubkeyVerdictExactly(primary: PublicKey, details: Details, subkey: PublicKey, sigs: seq<Signature>, t: U32)
    ensures var verdict := SubkeySigningVerdict(primary, details, subkey, sigs, t);
            var stands := SubkeyStands(primary, details, subkey, sigs, t);
            var inherited := PrimaryVerdict(primary, details, t);
            && (verdict == Authorized
                <==> && stands
                     && exists b :: Bound(primary, subkey, sigs, t, b)
                          && MayVouch(b, primary, subkey) && !Ended(b, subkey.created, t))
            && (inherited != Authorized ==> verdict == inherited)
            && (inherited == Authorized ==>
                  && (verdict == Revoked <==> Usable(subkey, t) && RevokedWithin(primary, SubkeyRevocations(subkey), sigs, t))
                  && (verdict == Expired
                      <==> && stands
                           && exists b :: Bound(primary, subkey, sigs, t, b)
                                && MayVouch(b, primary, subkey) && Ended(b, subkey.created, t)))
            && verdict != NoMatch
  {
    RevokedExactly(primary, SubkeyRevocations(subkey), sigs, t);
    BoundExactly(primary, subkey, sigs, t);
    var binding := BindingInForce(primary, subkey, sigs, Some(t), t);
    if binding.Some? {
      EndedExactly(binding.value, subkey.created, t);
      OwnedUpExactly(binding.value, primary, subkey);
    }
  }

  // ----- the listing

  predicate AnyRevocation(primary: PublicKey, sel: Selector, sigs: seq<Signature>) {
    exists s :: s in sigs && Eligible(primary, sel, s)
  }

  predicate StatesSigning(s: Signature, created: U32, now: U32) {
    s.keyFlags.Some? && s.keyFlags.value.sign && !Ended(s, created, now)
  }

  /** The listing offers a primary key exactly when nothing ever revoked it and what speaks now states the flag. */
  lemma OfferedPrimaryExactly(primary: PublicKey, details: Details, now: U32)
    ensures OfferedPrimary(primary, details, now)
            <==> && !TooWeak(primary.algorithm)
                 && !AnyRevocation(primary, KeyRevocations, details.revocations)
                 && !AnyRevocation(primary, KeyRevocations, details.direct)
                 && exists s :: KeySpeaks(primary, details, U32_MAX, now, s) && StatesSigning(s, primary.created, now)
  {
    forall s
      ensures Selected(primary, KeyRevocations, s) <==> Eligible(primary, KeyRevocations, s)
      ensures PrimarySigInForce(primary, details, None, now) == Some(s) <==> KeySpeaks(primary, details, U32_MAX, now, s)
    {
      EligibleMeans(primary, KeyRevocations, s);
      KeySpeaksExactly(primary, details, None, now, s);
    }
    var sig := PrimarySigInForce(primary, details, None, now);
    if sig.Some? {
      EndedExactly(sig.value, primary.created, now);
    }
  }

  /** And a subkey likewise, by its binding. */
  lemma OfferedSubkeyExactly(primary: PublicKey, subkey: PublicKey, sigs: seq<Signature>, now: U32)
    ensures OfferedSubkey(primary, subkey, sigs, now)
            <==> && !TooWeak(primary.algorithm) && !TooWeak(subkey.algorithm)
                 && !AnyRevocation(primary, SubkeyRevocations(subkey), sigs)
                 && exists s :: SpeaksIn(primary, Bindings(subkey), sigs, U32_MAX, now, s)
                      && StatesSigning(s, subkey.created, now)
  {
    var sig := BindingInForce(primary, subkey, sigs, None, now);
    forall s
      ensures Selected(primary, SubkeyRevocations(subkey), s) <==> Eligible(primary, SubkeyRevocations(subkey), s)
      ensures sig == Some(s) <==> SpeaksIn(primary, Bindings(subkey), sigs, U32_MAX, now, s)
    {
      EligibleMeans(primary, SubkeyRevocations(subkey), s);
      InForceExactly(primary, Bindings(subkey), sigs, None, now, s);
    }
    if sig.Some? {
      EndedExactly(sig.value, subkey.created, now);
    }
  }
}
