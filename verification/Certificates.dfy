/**
 * OpenPGP certificates as `rust/src/key.rs` reads them: which self-signature is
 * in force at an instant, what the revocations amount to, and whether a key may
 * vouch for a signature made at that instant.
 *
 * Cryptography is abstract. A signature carries the set of (signer, object)
 * pairs it verifies over; nothing is assumed about that set unless a lemma says
 * so. Clocks are parameters.
 */
module Certificates {
  import opened Common

  type Fingerprint = string

  datatype SignatureType =
    | CertGeneric | CertPersona | CertCasual | CertPositive
    | SubkeyBinding | KeyBinding | DirectKey
    | KeyRevocation | SubkeyRevocation | CertRevocation
    | OtherType

  datatype HashAlgorithm = NoHash | Md5 | Sha1 | Ripemd160 | StrongHash(name: string)

  datatype RevocationCode =
    | NoReason | KeySuperseded | KeyCompromised | KeyRetired | UserIdInvalid | OtherCode(code: nat)

  datatype KeyFlags = KeyFlags(sign: bool, encrypt: bool, authenticate: bool, certify: bool)

  datatype Algorithm =
    | Rsa(bits: nat)
    | Dsa
    | OtherAlgorithm(name: string, signs: bool, encrypts: bool, postQuantum: bool)

  datatype KeyVersion = V4 | V6 | OtherVersion

  datatype PublicKey = PublicKey(
    fingerprint: Fingerprint,
    keyId: string,
    version: KeyVersion,
    created: U32,
    algorithm: Algorithm)

  /** `text` is the lossy UTF-8 rendering of `octets`, which the merge compares. */
  datatype ComponentId =
    | UserId(octets: seq<Octet>, text: string)
    | UserAttribute(image: seq<Octet>)
    | Subkey(key: PublicKey)

  /** What a signature is made over, besides the primary key itself. */
  datatype Target = KeyTarget | ComponentTarget(id: ComponentId)

  /** The Primary Key Binding (0x19) embedded in a signing subkey's binding. */
  datatype BackSignature = BackSignature(
    typ: SignatureType,
    created: Option<U32>,
    hash: HashAlgorithm,
    verifiesOver: set<(Fingerprint, Fingerprint)>)

  /**
   * `content` stands for every octet not named here, so two signatures are
   * equal exactly when their serialisations are.
   */
  datatype Signature = Signature(
    typ: SignatureType,
    created: Option<U32>,
    signatureExpiry: Option<U32>,
    keyExpiry: Option<U32>,
    keyFlags: Option<KeyFlags>,
    isPrimary: bool,
    hash: HashAlgorithm,
    revocationReason: Option<RevocationCode>,
    issuerFingerprints: seq<Fingerprint>,
    issuerKeyIds: seq<string>,
    criticalUnknown: bool,
    backSignature: Option<BackSignature>,
    verifiesOver: set<(Fingerprint, Target)>,
    content: seq<Octet>)

  /** A User ID, User Attribute or subkey with the signatures stored on it. */
  datatype Component = Component(id: ComponentId, signatures: seq<Signature>)

  datatype Details = Details(
    direct: seq<Signature>,
    revocations: seq<Signature>,
    users: seq<Component>,
    attributes: seq<Component>)

  predicate Verifies(sig: Signature, primary: PublicKey, target: Target) {
    (primary.fingerprint, target) in sig.verifiesOver
  }

  predicate NamesAsIssuer(sig: Signature, primary: PublicKey) {
    || primary.fingerprint in sig.issuerFingerprints
    || primary.keyId in sig.issuerKeyIds
  }

  function CreatedSecs(sig: Signature): U32 {
    if sig.created.Some? then sig.created.value else 0
  }

  // ----- policy on a single signature or key

  /** 2023-02-01T00:00Z: SHA-1 and RIPEMD-160 certifications count only before it. */
  const WEAK_CERTIFICATION_HASH_CUTOFF: U32 := 1_675_209_600

  predicate HashAcceptable(hash: HashAlgorithm, created: U32) {
    match hash
    case NoHash => false
    case Md5 => false
    case Sha1 => created < WEAK_CERTIFICATION_HASH_CUTOFF
    case Ripemd160 => created < WEAK_CERTIFICATION_HASH_CUTOFF
    case StrongHash(_) => true
  }

  predicate IsRevocation(typ: SignatureType) {
    typ.KeyRevocation? || typ.SubkeyRevocation? || typ.CertRevocation?
  }

  predicate IsCertification(typ: SignatureType) {
    typ.CertGeneric? || typ.CertPersona? || typ.CertCasual? || typ.CertPositive?
  }

  /** The types a re-issued self-signature replaces; never a revocation. */
  predicate IsProperty(typ: SignatureType) {
    IsCertification(typ) || typ.SubkeyBinding? || typ.DirectKey?
  }

  predicate Evaluable(sig: Signature) {
    IsRevocation(sig.typ) || !sig.criticalUnknown
  }

  predicate Forbidden(algorithm: Algorithm) {
    match algorithm
    case Rsa(bits) => bits < 2048
    case Dsa => true
    case OtherAlgorithm(_, _, _, _) => false
  }

  predicate CanSign(algorithm: Algorithm) {
    algorithm.OtherAlgorithm? ==> algorithm.signs
  }

  predicate PostQuantumHashForbidden(key: PublicKey, sig: Signature) {
    && key.algorithm.OtherAlgorithm? && key.algorithm.postQuantum
    && sig.typ.SubkeyBinding?
    && (sig.hash.Md5? || sig.hash.Sha1? || sig.hash.Ripemd160?)
  }

  // ----- selecting the signatures that may speak

  /** Which signatures of a list a question is about. */
  datatype Selector =
    | DirectSelfSigs
    | Certifications(id: ComponentId)
    | Templates(id: ComponentId)
    | Bindings(subkey: PublicKey)
    | KeyRevocations
    | CertRevocations(id: ComponentId)
    | SubkeyRevocations(subkey: PublicKey)

  predicate Trusted(sig: Signature, primary: PublicKey, target: Target) {
    && Verifies(sig, primary, target)
    && HashAcceptable(sig.hash, CreatedSecs(sig))
    && Evaluable(sig)
  }

  predicate Selected(primary: PublicKey, sel: Selector, sig: Signature) {
    match sel
    case DirectSelfSigs =>
      Trusted(sig, primary, KeyTarget) && sig.typ.DirectKey?
    case Certifications(id) =>
      Trusted(sig, primary, ComponentTarget(id)) && !sig.typ.CertRevocation?
    case Templates(id) =>
      Trusted(sig, primary, ComponentTarget(id)) && IsProperty(sig.typ)
    case Bindings(subkey) =>
      && Trusted(sig, primary, ComponentTarget(Subkey(subkey)))
      && !PostQuantumHashForbidden(subkey, sig)
      && sig.typ.SubkeyBinding?
    case KeyRevocations =>
      sig.typ.KeyRevocation? && Verifies(sig, primary, KeyTarget)
    case CertRevocations(id) =>
      sig.typ.CertRevocation? && Verifies(sig, primary, ComponentTarget(id))
    case SubkeyRevocations(subkey) =>
      sig.typ.SubkeyRevocation? && Verifies(sig, primary, ComponentTarget(Subkey(subkey)))
  }

  function Select(primary: PublicKey, sel: Selector, sigs: seq<Signature>): seq<Signature> {
    if sigs == [] then []
    else if Selected(primary, sel, sigs[0]) then [sigs[0]] + Select(primary, sel, sigs[1..])
    else Select(primary, sel, sigs[1..])
  }

  lemma {:induction false} SelectMembers(primary: PublicKey, sel: Selector, sigs: seq<Signature>)
    ensures forall s :: s in Select(primary, sel, sigs) <==> s in sigs && Selected(primary, sel, s)
  {
    if sigs != [] {
      SelectMembers(primary, sel, sigs[1..]);
      assert sigs == [sigs[0]] + sigs[1..];
    }
  }

  lemma {:induction false} SelectConcat(primary: PublicKey, sel: Selector, a: seq<Signature>, b: seq<Signature>)
    ensures Select(primary, sel, a + b) == Select(primary, sel, a) + Select(primary, sel, b)
  {
    if a == [] {
      assert a + b == b;
    } else {
      SelectConcat(primary, sel, a[1..], b);
      assert (a + b)[1..] == a[1..] + b;
    }
  }

  lemma {:induction false} SelectNothing(primary: PublicKey, sel: Selector, sigs: seq<Signature>)
    requires forall s :: s in sigs ==> !Selected(primary, sel, s)
    ensures Select(primary, sel, sigs) == []
  {
    if sigs != [] {
      assert sigs[0] in sigs;
      SelectNothing(primary, sel, sigs[1..]);
    }
  }

  /** The last of the newest signatures, as an iterator's `max_by_key` picks it. */
  function Newest(sigs: seq<Signature>): (r: Option<Signature>)
    ensures r.None? <==> sigs == []
    ensures r.Some? ==> r.value in sigs
    ensures r.Some? ==> forall s :: s in sigs ==> CreatedSecs(s) <= CreatedSecs(r.value)
  {
    if sigs == [] then None
    else
      var last := sigs[|sigs| - 1];
      var best := Newest(sigs[..|sigs| - 1]);
      if best.Some? && CreatedSecs(best.value) > CreatedSecs(last) then best else Some(last)
  }

  /** The first of the oldest signatures, as an iterator's `min_by_key` picks it. */
  function Oldest(sigs: seq<Signature>): (r: Option<Signature>)
    ensures r.None? <==> sigs == []
    ensures r.Some? ==> r.value in sigs
    ensures r.Some? ==> forall s :: s in sigs ==> CreatedSecs(r.value) <= CreatedSecs(s)
  {
    if sigs == [] then None
    else
      var last := sigs[|sigs| - 1];
      var best := Oldest(sigs[..|sigs| - 1]);
      if best.Some? && CreatedSecs(best.value) <= CreatedSecs(last) then best else Some(last)
  }

  function MadeBy(sigs: seq<Signature>, t: U32): seq<Signature> {
    if sigs == [] then []
    else if CreatedSecs(sigs[0]) <= t then [sigs[0]] + MadeBy(sigs[1..], t)
    else MadeBy(sigs[1..], t)
  }

  lemma {:induction false} MadeByMembers(sigs: seq<Signature>, t: U32)
    ensures forall s :: s in MadeBy(sigs, t) <==> s in sigs && CreatedSecs(s) <= t
  {
    if sigs != [] {
      MadeByMembers(sigs[1..], t);
      assert sigs == [sigs[0]] + sigs[1..];
    }
  }

  lemma MadeByStep(sigs: seq<Signature>, t: U32)
    requires sigs != []
    ensures MadeBy(sigs, t) == (if CreatedSecs(sigs[0]) <= t then [sigs[0]] else []) + MadeBy(sigs[1..], t)
  {
  }

  lemma {:induction false} MadeByConcat(a: seq<Signature>, b: seq<Signature>, t: U32)
    ensures MadeBy(a + b, t) == MadeBy(a, t) + MadeBy(b, t)
  {
    if a == [] {
      assert a + b == b;
    } else {
      MadeByConcat(a[1..], b, t);
      assert (a + b)[1..] == a[1..] + b;
      MadeByStep(a, t);
      MadeByStep(a + b, t);
    }
  }

  lemma {:induction false} MadeByAll(sigs: seq<Signature>, t: U32)
    requires forall s :: s in sigs ==> CreatedSecs(s) <= t
    ensures MadeBy(sigs, t) == sigs
  {
    if sigs != [] {
      assert sigs[0] in sigs;
      MadeByAll(sigs[1..], t);
    }
  }

  lemma {:induction false} MadeByNone(sigs: seq<Signature>, t: U32)
    requires forall s :: s in sigs ==> t < CreatedSecs(s)
    ensures MadeBy(sigs, t) == []
  {
    if sigs != [] {
      assert sigs[0] in sigs;
      MadeByNone(sigs[1..], t);
    }
  }

  lemma NewestAppended(sigs: seq<Signature>, x: Signature)
    requires forall s :: s in sigs ==> CreatedSecs(s) <= CreatedSecs(x)
    ensures Newest(sigs + [x]) == Some(x)
  {
    assert (sigs + [x])[..|sigs|] == sigs;
  }

  predicate AliveAt(sig: Signature, t: U32) {
    sig.signatureExpiry.Some? && sig.signatureExpiry.value != 0 ==>
      SaturatingAdd(CreatedSecs(sig), sig.signatureExpiry.value) > t
  }

  /** `at` is the instant asked about, `None` meaning the clock reading `now`. */
  function SigInForce(sigs: seq<Signature>, at: Option<U32>, now: U32): Option<Signature> {
    var chosen :=
      if at.None? then Newest(sigs)
      else
        var made := MadeBy(sigs, at.value);
        if made != [] then Newest(made) else Oldest(sigs);
    var t := if at.None? then now else at.value;
    if chosen.Some? && AliveAt(chosen.value, t) then chosen else None
  }

  lemma InForceOfOne(sig: Signature, at: Option<U32>, now: U32)
    requires sig.signatureExpiry.None?
    ensures SigInForce([sig], at, now) == Some(sig)
  {
    assert [sig][..0] == [] && [sig][1..] == [];
    assert Newest([sig]) == Some(sig) && Oldest([sig]) == Some(sig);
    if at.Some? {
      assert MadeBy([sig], at.value) == if CreatedSecs(sig) <= at.value then [sig] else [];
    }
  }

  predicate UserIdRevokedAt(primary: PublicKey, user: Component, at: Option<U32>) {
    exists s :: s in user.signatures
      && Selected(primary, CertRevocations(user.id), s)
      && (at.Some? ==> CreatedSecs(s) <= at.value)
  }

  function CertificationInForce(primary: PublicKey, user: Component, at: Option<U32>, now: U32)
    : Option<Signature>
  {
    SigInForce(Select(primary, Certifications(user.id), user.signatures), at, now)
  }

  /** One certification per User ID not revoked at `at`, in User ID order. */
  function UidSigs(primary: PublicKey, users: seq<Component>, at: Option<U32>, now: U32): seq<Signature> {
    if users == [] then []
    else
      var rest := UidSigs(primary, users[1..], at, now);
      if UserIdRevokedAt(primary, users[0], at) then rest
      else
        var sig := CertificationInForce(primary, users[0], at, now);
        if sig.Some? then [sig.value] + rest else rest
  }

  function MarkedPrimary(sigs: seq<Signature>): seq<Signature> {
    if sigs == [] then []
    else if sigs[0].isPrimary then [sigs[0]] + MarkedPrimary(sigs[1..])
    else MarkedPrimary(sigs[1..])
  }

  function UidCertificationInForce(primary: PublicKey, details: Details, at: Option<U32>, now: U32)
    : Option<Signature>
  {
    var sigs := UidSigs(primary, details.users, at, now);
    var marked := Newest(MarkedPrimary(sigs));
    if marked.Some? then marked else Newest(sigs)
  }

  function PrimarySigInForce(primary: PublicKey, details: Details, at: Option<U32>, now: U32)
    : Option<Signature>
  {
    var direct := SigInForce(Select(primary, DirectSelfSigs, details.direct), at, now);
    if primary.version.V6? then direct
    else
      var uid := UidCertificationInForce(primary, details, at, now);
      if uid.Some? then uid else direct
  }

  function BindingInForce(
    primary: PublicKey, subkey: PublicKey, sigs: seq<Signature>, at: Option<U32>, now: U32
  ): Option<Signature>
  {
    SigInForce(Select(primary, Bindings(subkey), sigs), at, now)
  }

  // ----- revocation

  datatype RevocationState = NotRevoked | SoftRevoked(since: U32) | HardRevoked

  predicate IsSoft(sig: Signature) {
    sig.revocationReason.Some?
    && (sig.revocationReason.value.KeySuperseded? || sig.revocationReason.value.KeyRetired?)
  }

  function SoftenedBy(state: RevocationState, since: U32): RevocationState {
    if state.SoftRevoked? then SoftRevoked(if state.since <= since then state.since else since)
    else SoftRevoked(since)
  }

  function StateFrom(state: RevocationState, revocations: seq<Signature>): RevocationState
    decreases |revocations|
  {
    if revocations == [] then state
    else if IsSoft(revocations[0]) then
      StateFrom(SoftenedBy(state, CreatedSecs(revocations[0])), revocations[1..])
    else HardRevoked
  }

  function StateOf(revocations: seq<Signature>): RevocationState {
    StateFrom(NotRevoked, revocations)
  }

  /** The accumulating loop over the revocations, with its early exit. */
  method RevocationStateOf(revocations: seq<Signature>) returns (state: RevocationState)
    ensures state == StateOf(revocations)
  {
    state := NotRevoked;
    for i := 0 to |revocations|
      invariant StateFrom(state, revocations[i..]) == StateOf(revocations)
    {
      var sig := revocations[i];
      if IsSoft(sig) {
        state := SoftenedBy(state, CreatedSecs(sig));
      } else {
        return HardRevoked;
      }
    }
  }

  predicate RevokedAt(state: RevocationState, t: U32) {
    match state
    case NotRevoked => false
    case SoftRevoked(since) => since <= t
    case HardRevoked => true
  }

  predicate RevokesAt(sig: Signature, t: U32) {
    !IsSoft(sig) || CreatedSecs(sig) <= t
  }

  lemma {:induction false} StateFromRevokes(state: RevocationState, revocations: seq<Signature>, t: U32)
    requires !state.HardRevoked?
    ensures RevokedAt(StateFrom(state, revocations), t)
            <==> RevokedAt(state, t) || exists s :: s in revocations && RevokesAt(s, t)
    decreases |revocations|
  {
    if revocations != [] {
      assert revocations == [revocations[0]] + revocations[1..];
      if IsSoft(revocations[0]) {
        StateFromRevokes(SoftenedBy(state, CreatedSecs(revocations[0])), revocations[1..], t);
        assert RevokesAt(revocations[0], t) <==> CreatedSecs(revocations[0]) <= t;
      } else {
        assert RevokesAt(revocations[0], t) && revocations[0] in revocations;
      }
    }
  }

  /** The accumulated state revokes at `t` exactly when some single revocation does. */
  lemma StateRevokes(revocations: seq<Signature>, t: U32)
    ensures RevokedAt(StateOf(revocations), t)
            <==> exists s :: s in revocations && RevokesAt(s, t)
  {
    StateFromRevokes(NotRevoked, revocations, t);
  }

  lemma {:induction false} StateShape(state: RevocationState, revocations: seq<Signature>)
    requires !state.HardRevoked?
    ensures StateFrom(state, revocations).HardRevoked?
            <==> exists s :: s in revocations && !IsSoft(s)
    ensures StateFrom(state, revocations).NotRevoked? <==> state.NotRevoked? && revocations == []
    ensures StateFrom(state, revocations).SoftRevoked? ==>
              var since := StateFrom(state, revocations).since;
              && (state.SoftRevoked? ==> since <= state.since)
              && (forall s :: s in revocations ==> since <= CreatedSecs(s))
              && (state == SoftRevoked(since) || exists s :: s in revocations && CreatedSecs(s) == since)
    decreases |revocations|
  {
    if revocations != [] {
      assert revocations == [revocations[0]] + revocations[1..];
      if IsSoft(revocations[0]) {
        var next := SoftenedBy(state, CreatedSecs(revocations[0]));
        StateShape(next, revocations[1..]);
      } else {
        assert revocations[0] in revocations;
      }
    }
  }

  /** Only which revocations there are matters, not their order or multiplicity. */
  lemma StateDependsOnSet(a: seq<Signature>, b: seq<Signature>)
    requires forall s :: s in a <==> s in b
    ensures StateOf(a) == StateOf(b)
  {
    StateShape(NotRevoked, a);
    StateShape(NotRevoked, b);
    assert |a| > 0 ==> a[0] in b;
    assert |b| > 0 ==> b[0] in a;
  }

  /** Verified key revocations wherever the certificate stores them. */
  function PrimaryRevocations(primary: PublicKey, details: Details): seq<Signature> {
    Select(primary, KeyRevocations, details.revocations + details.direct)
  }

  function PrimaryRevocationState(primary: PublicKey, details: Details): RevocationState {
    StateOf(PrimaryRevocations(primary, details))
  }

  function SubkeyRevocationState(primary: PublicKey, subkey: PublicKey, sigs: seq<Signature>)
    : RevocationState
  {
    StateOf(Select(primary, SubkeyRevocations(subkey), sigs))
  }

  // ----- verdicts

  datatype KeyVerdict = NoMatch | NotAuthorized | Expired | Revoked | Authorized

  /** Absolute expiry set by the governing self-signature; 0 means never. */
  function ExpiryOf(sig: Option<Signature>, created: U32): U32 {
    if sig.Some? && sig.value.keyExpiry.Some? && sig.value.keyExpiry.value != 0
    then SaturatingAdd(created, sig.value.keyExpiry.value)
    else 0
  }

  predicate FlagsAllowSigning(sig: Signature, algorithm: Algorithm) {
    if sig.keyFlags.Some? then sig.keyFlags.value.sign else CanSign(algorithm)
  }

  function PrimaryVerdict(primary: PublicKey, details: Details, t: U32): KeyVerdict {
    if Forbidden(primary.algorithm) || t < primary.created then NotAuthorized
    else if RevokedAt(PrimaryRevocationState(primary, details), t) then Revoked
    else
      var sig := PrimarySigInForce(primary, details, Some(t), t);
      if sig.None? then NotAuthorized
      else
        var expires := ExpiryOf(sig, primary.created);
        if expires != 0 && expires <= t then Expired else Authorized
  }

  function PrimarySigningVerdict(primary: PublicKey, details: Details, t: U32): KeyVerdict {
    var verdict := PrimaryVerdict(primary, details, t);
    if verdict != Authorized then verdict
    else
      var sig := PrimarySigInForce(primary, details, Some(t), t);
      if sig.Some? && FlagsAllowSigning(sig.value, primary.algorithm) then Authorized
      else if sig.None? && CanSign(primary.algorithm) then Authorized
      else NotAuthorized
  }

  predicate BackSignatureOk(binding: Signature, primary: PublicKey, subkey: PublicKey) {
    && binding.backSignature.Some?
    && var back := binding.backSignature.value;
    && back.typ.KeyBinding?
    && HashAcceptable(back.hash, if back.created.Some? then back.created.value else 0)
    && (subkey.fingerprint, primary.fingerprint) in back.verifiesOver
  }

  function SubkeySigningVerdict(
    primary: PublicKey, details: Details, subkey: PublicKey, sigs: seq<Signature>, t: U32
  ): KeyVerdict
  {
    var verdict := PrimaryVerdict(primary, details, t);
    if verdict != Authorized then verdict
    else if Forbidden(subkey.algorithm) || t < subkey.created then NotAuthorized
    else if RevokedAt(SubkeyRevocationState(primary, subkey, sigs), t) then Revoked
    else
      var binding := BindingInForce(primary, subkey, sigs, Some(t), t);
      if binding.None? then NotAuthorized
      else if !FlagsAllowSigning(binding.value, subkey.algorithm) then NotAuthorized
      else if !BackSignatureOk(binding.value, primary, subkey) then NotAuthorized
      else
        var expires := ExpiryOf(binding, subkey.created);
        if expires != 0 && expires <= t then Expired else Authorized
  }
}
