/** Concrete keys on which a promise fails, for the limits proved elsewhere. */
module Counterexamples {
  import opened Common
  import opened Certificates
  import opened Verdicts
  import opened Merging
  import opened MergeIdempotence
  import opened MergeCap
  import opened Expiry

  const PRIMARY: PublicKey := PublicKey("P", "P", V4, 0, OtherAlgorithm("EdDSA", true, false, false))
  const SUBKEY: PublicKey := PublicKey("S", "S", V4, 0, OtherAlgorithm("EdDSA", true, false, false))
  const USER: ComponentId := UserId([65], "A")

  /** The primary key with one User ID that carries these signatures. */
  function WithUser(sigs: seq<Signature>): Details {
    Details([], [], [Component(USER, sigs)], [])
  }

  /** A certification of the User ID by the primary key, without key flags. */
  function Certification(created: U32, keyExpiry: Option<U32>, named: bool): Signature {
    Signature(
      CertPositive, Some(created), None, keyExpiry, None, false, StrongHash("SHA256"), None,
      if named then [PRIMARY.fingerprint] else [], [], false, None,
      {(PRIMARY.fingerprint, ComponentTarget(USER))}, [])
  }

  function Certified(): Details {
    WithUser([Certification(1, None, true)])
  }

  /** A third-party certification with the given octets, by a key nobody here knows. */
  function ForeignSignature(content: seq<Octet>): Signature {
    Signature(
      CertGeneric, Some(1), None, None, None, false, StrongHash("SHA256"), None,
      [], [], false, None, {}, content)
  }

  /** A certification by `primary` over `id`. */
  function SelfCertification(primary: PublicKey, id: ComponentId): Signature {
    Signature(
      CertPositive, Some(1), None, None, None, false, StrongHash("SHA256"), None,
      [primary.fingerprint], [], false, None, {(primary.fingerprint, ComponentTarget(id))}, [])
  }

  // ----- one self-certification in force

  /** One unrevoked User ID governed by `sig` decides the verdict at `t`. */
  lemma SoleCertificationDecides(sigs: seq<Signature>, sig: Signature, at: Option<U32>, now: U32)
    requires CertificationInForce(PRIMARY, Component(USER, sigs), at, now) == Some(sig)
    requires forall s :: s in sigs ==> s.typ.CertPositive?
    ensures PrimarySigInForce(PRIMARY, WithUser(sigs), at, now) == Some(sig)
    ensures PrimaryRevocations(PRIMARY, WithUser(sigs)) == []
  {
    var users := WithUser(sigs).users;
    assert users[1..] == [] && [sig][1..] == [] && [sig][..0] == [];
    assert !UserIdRevokedAt(PRIMARY, users[0], at);
    assert UidSigs(PRIMARY, users, at, now) == [sig];
    assert MarkedPrimary([sig]) == if sig.isPrimary then [sig] else [];
    assert Newest([sig]) == Some(sig);
  }

  lemma SoleCertificationVerdict(sigs: seq<Signature>, sig: Signature, t: U32)
    requires CertificationInForce(PRIMARY, Component(USER, sigs), Some(t), t) == Some(sig)
    requires forall s :: s in sigs ==> s.typ.CertPositive?
    ensures PrimaryVerdict(PRIMARY, WithUser(sigs), t)
            == if ExpiryOf(Some(sig), 0) != 0 && ExpiryOf(Some(sig), 0) <= t then Expired else Authorized
  {
    SoleCertificationDecides(sigs, sig, Some(t), t);
  }

  lemma OneCertification(sig: Signature, at: Option<U32>, now: U32)
    requires Selected(PRIMARY, Certifications(USER), sig) && sig.signatureExpiry.None?
    ensures CertificationInForce(PRIMARY, Component(USER, [sig]), at, now) == Some(sig)
  {
    assert [sig][1..] == [];
    assert Select(PRIMARY, Certifications(USER), [sig]) == [sig];
    InForceOfOne(sig, at, now);
  }

  // ----- a lost revocation

  function Made(typ: SignatureType, back: Option<BackSignature>): Signature {
    Signature(
      typ, Some(1), None, None, None, false, StrongHash("SHA256"), None,
      [PRIMARY.fingerprint], [], false, back, {(PRIMARY.fingerprint, ComponentTarget(Subkey(SUBKEY)))}, [])
  }

  /** A signing subkey's binding with its back-signature, and a genuine revocation of the subkey. */
  function Binding(): Signature {
    Made(SubkeyBinding, Some(BackSignature(
      KeyBinding, Some(1), StrongHash("SHA256"), {(SUBKEY.fingerprint, PRIMARY.fingerprint)})))
  }

  function Revocation(): Signature {
    Made(SubkeyRevocation, None)
  }

  /** Different signatures by keys nobody here knows. */
  function Crowd(n: nat): (crowd: seq<Signature>)
    requires n <= 256
    ensures |crowd| == n
    ensures forall i :: 0 <= i < n ==> crowd[i] == ForeignSignature([i])
  {
    seq(n, i requires 0 <= i < n => ForeignSignature([i]))
  }

  lemma CrowdIsSilent(sel: Selector, n: nat)
    requires n <= 256
    ensures Select(PRIMARY, sel, Crowd(n)) == []
  {
    SelectNothing(PRIMARY, sel, Crowd(n));
  }

  lemma PrimaryIsAuthorized(t: U32)
    ensures PrimaryVerdict(PRIMARY, Certified(), t) == Authorized
  {
    var cert := Certification(1, None, true);
    OneCertification(cert, Some(t), t);
    SoleCertificationVerdict([cert], cert, t);
  }

  lemma OnlyTheBindingSpeaks(t: U32)
    ensures BindingInForce(PRIMARY, SUBKEY, [Binding()] + Crowd(255), Some(t), t) == Some(Binding())
  {
    var sel := Bindings(SUBKEY);
    SelectConcat(PRIMARY, sel, [Binding()], Crowd(255));
    CrowdIsSilent(sel, 255);
    assert [Binding()][1..] == [];
    assert Select(PRIMARY, sel, [Binding()]) == [Binding()];
    assert [Binding()] + [] == [Binding()];
    InForceOfOne(Binding(), Some(t), t);
  }

  lemma NobodyRevokes(t: U32)
    ensures !RevokedAt(SubkeyRevocationState(PRIMARY, SUBKEY, [Binding()] + Crowd(255)), t)
  {
    RevokedBySome(PRIMARY, SUBKEY, [Binding()] + Crowd(255), t);
  }

  lemma BindingHolds()
    ensures BackSignatureOk(Binding(), PRIMARY, SUBKEY)
    ensures FlagsAllowSigning(Binding(), SUBKEY.algorithm) && ExpiryOf(Some(Binding()), SUBKEY.created) == 0
  {
  }

  lemma BoundSubkeyIsAuthorized(t: U32)
    ensures SubkeySigningVerdict(PRIMARY, Certified(), SUBKEY, [Binding()] + Crowd(255), t) == Authorized
  {
    PrimaryIsAuthorized(t);
    OnlyTheBindingSpeaks(t);
    NobodyRevokes(t);
    BindingHolds();
  }

  /**
   * At every instant: one copy's subkey is revoked, the other's carries 256
   * signatures and is authorised, and the merged one is authorised.
   */
  lemma RevocationLostPastTheCap(t: U32)
    ensures var dst, src := [Binding()] + Crowd(255), [Binding(), Revocation()];
            && |dst| == MAX_MERGED_SIGNATURES
            && SubkeySigningVerdict(PRIMARY, Certified(), SUBKEY, src, t) == Revoked
            && SubkeySigningVerdict(PRIMARY, Certified(), SUBKEY, MergeSigs(NoGate, dst, src), t) == Authorized
  {
    var dst, src := [Binding()] + Crowd(255), [Binding(), Revocation()];
    PrimaryIsAuthorized(t);
    assert src[1] == Revocation();
    assert RevokesSubkey(PRIMARY, SUBKEY, src[1], t);
    RevokedBySome(PRIMARY, SUBKEY, src, t);
    BoundSubkeyIsAuthorized(t);
    FullSubkeyTakesNothing(PRIMARY, Certified(), SUBKEY, dst, src, t);
  }

  /** A genuine key revocation that does not name its issuer. */
  function UnnamedKeyRevocation(): Signature {
    Signature(
      KeyRevocation, Some(1), None, None, None, false, StrongHash("SHA256"), None,
      [], [], false, None, {(PRIMARY.fingerprint, KeyTarget)}, [])
  }

  function Crowded(): Details {
    Certified().(direct := Crowd(256))
  }

  lemma CrowdIsDistinct()
    ensures NoDuplicates(Crowd(256))
  {
    forall i, j | 0 <= i < j < 256
      ensures Crowd(256)[i] != Crowd(256)[j]
    {
      assert Crowd(256)[i].content[0] == i && Crowd(256)[j].content[0] == j;
    }
  }

  lemma CrowdedIsUnchanged()
    ensures MergeDetails(PRIMARY, Crowded(), Details([UnnamedKeyRevocation()], [], [], [])) == Crowded()
  {
    var gate, s := Gate(PRIMARY, KeyTarget), UnnamedKeyRevocation();
    CrowdIsDistinct();
    DedupProperties(Crowd(256));
    assert !Admits(gate, Crowd(256), s);
    AbsorbedChangesNothing(gate, Crowd(256), [s]);
    assert MergeSigs(gate, [], []) == [] && Dedup([]) == [];
  }

  lemma CrowdedIsAuthorized(t: U32)
    ensures PrimaryVerdict(PRIMARY, Crowded(), t) == Authorized
  {
    var cert := Certification(1, None, true);
    OneCertification(cert, Some(t), t);
    SoleCertificationDecides([cert], cert, Some(t), t);
    assert [] + Crowd(256) == Crowd(256);
    CrowdIsSilent(KeyRevocations, 256);
    PrimaryIsAuthorized(t);
    assert UidCertificationInForce(PRIMARY, Crowded(), Some(t), t)
        == UidCertificationInForce(PRIMARY, Certified(), Some(t), t) == Some(cert);
  }

  /** The same for the key itself: an unnamed revocation in one copy, 256 direct signatures in the other. */
  lemma KeyRevocationLostPastTheCap(t: U32)
    ensures var incoming := Details([UnnamedKeyRevocation()], [], [], []);
            && PrimaryVerdict(PRIMARY, incoming, t) == Revoked
            && PrimaryVerdict(PRIMARY, MergeDetails(PRIMARY, Crowded(), incoming), t) == Authorized
  {
    var s := UnnamedKeyRevocation();
    var incoming := Details([s], [], [], []);
    assert s in incoming.direct && Selected(PRIMARY, KeyRevocations, s) && RevokesAt(s, t);
    RevokedInEither(PRIMARY, incoming, t);
    CrowdedIsUnchanged();
    CrowdedIsAuthorized(t);
  }

  // ----- the other limits

  /** A key without key flags: the verdict lets it sign, and the listing never offers it. */
  lemma FlaglessKeyIsNotOffered(now: U32)
    ensures PrimarySigningVerdict(PRIMARY, Certified(), now) == Authorized
    ensures !OfferedPrimary(PRIMARY, Certified(), now)
  {
    var cert := Certification(1, None, true);
    PrimaryIsAuthorized(now);
    OneCertification(cert, Some(now), now);
    OneCertification(cert, None, now);
    SoleCertificationDecides([cert], cert, Some(now), now);
    SoleCertificationDecides([cert], cert, None, now);
  }

  /** A certification dated 5 put beside one dated 10 turns the verdict at 2 from Authorized to Expired. */
  lemma BackfillChangesTheVerdict()
    ensures var details, x := WithUser([Certification(10, None, true)]), Certification(5, Some(1), true);
            && PrimaryVerdict(PRIMARY, details, 2) == Authorized
            && PrimaryVerdict(PRIMARY, Certify(details, 0, x), 2) == Expired
  {
    var first, x := Certification(10, None, true), Certification(5, Some(1), true);
    OneCertification(first, Some(2), 2);
    SoleCertificationVerdict([first], first, 2);
    BackfilledExpires(first, x);
  }

  lemma BackfilledExpires(first: Signature, x: Signature)
    requires first == Certification(10, None, true) && x == Certification(5, Some(1), true)
    ensures PrimaryVerdict(PRIMARY, Certify(WithUser([first]), 0, x), 2) == Expired
  {
    var user := Component(USER, [first]);
    BackfilledCertificationGoverns(PRIMARY, user, x, 2);
    assert Certify(WithUser([first]), 0, x) == WithUser([first] + [x]);
    SoleCertificationVerdict([first] + [x], x, 2);
  }

  /** A re-issue at 5 that drops the expiry. */
  function DropExpiry(): Reissue {
    Reissue(PRIMARY, StrongHash("SHA256"), None, 5, [])
  }

  /** A User ID with a certification that does not name its issuer, beside one that does. */
  function Unnamed(created: U32): Component {
    Component(USER, [Certification(created, Some(7), false), Certification(1, Some(7), true)])
  }

  lemma UnnamedIsLeftBehind(created: U32)
    ensures Reissuable(PRIMARY, Unnamed(created))
    ensures LeftBehind(DropExpiry(), Unnamed(created), Certification(created, Some(7), false))
  {
    var user := Unnamed(created);
    assert user.signatures[0] == Certification(created, Some(7), false);
    assert user.signatures[1] == Certification(1, Some(7), true);
    assert Selected(PRIMARY, Templates(USER), user.signatures[1]);
    SelectMembers(PRIMARY, Templates(USER), user.signatures);
  }

  lemma UpdatedUnnamed(created: U32)
    ensures Reissuable(PRIMARY, Unnamed(created))
    ensures var unnamed, sig := Certification(created, Some(7), false), NewCertification(DropExpiry(), Unnamed(created));
            && CreatedSecs(sig) == 5
            && Select(PRIMARY, Certifications(USER), UpdateUser(DropExpiry(), Unnamed(created)).signatures)
               == [unnamed, sig]
  {
    var r, user := DropExpiry(), Unnamed(created);
    var unnamed, named := user.signatures[0], user.signatures[1];
    UnnamedIsLeftBehind(created);
    NewCertificationCounts(r, user);
    var sig := NewCertification(r, user);
    assert user.signatures[1..] == [named] && [named][1..] == [];
    assert Retained(PRIMARY, [named]) == [];
    assert Retained(PRIMARY, user.signatures) == [unnamed] + [];
    assert [unnamed] + [sig] == [unnamed, sig];
    assert [unnamed, sig][1..] == [sig] && [sig][1..] == [];
    assert Select(PRIMARY, Certifications(USER), [sig]) == [sig];
  }

  /** After the re-issue at 5, the one dated 3 is in force at 4, and the one dated 9 is in force now. */
  lemma UnnamedCertificationSpeaksOn()
    ensures CertificationInForce(PRIMARY, UpdateUser(DropExpiry(), Unnamed(3)), Some(4), 4)
            == Some(Certification(3, Some(7), false))
    ensures CertificationInForce(PRIMARY, UpdateUser(DropExpiry(), Unnamed(9)), None, 5)
            == Some(Certification(9, Some(7), false))
  {
    UpdatedUnnamed(3);
    UpdatedUnnamed(9);
    OlderSpeaks(Certification(3, Some(7), false), NewCertification(DropExpiry(), Unnamed(3)));
    NewerSpeaks(Certification(9, Some(7), false), NewCertification(DropExpiry(), Unnamed(9)));
  }

  lemma OlderSpeaks(older: Signature, sig: Signature)
    requires CreatedSecs(older) == 3 && CreatedSecs(sig) == 5 && older.signatureExpiry.None?
    ensures SigInForce([older, sig], Some(4), 4) == Some(older)
  {
    InForceMeans([older, sig], 4, 0);
  }

  lemma NewerSpeaks(newer: Signature, sig: Signature)
    requires CreatedSecs(newer) == 9 && CreatedSecs(sig) == 5 && newer.signatureExpiry.None?
    ensures SigInForce([newer, sig], None, 5) == Some(newer)
  {
    assert [newer, sig][..1] == [newer] && [newer][..0] == [];
    assert Newest([newer]) == Some(newer);
  }

  // ----- merging

  /** Two User IDs of invalid UTF-8 that render alike: each merge order keeps a different one. */
  lemma LossyClashMakesOrderMatter(primary: PublicKey)
    ensures var x, y := UserId([0xFE], "\U{FFFD}"), UserId([0xFF], "\U{FFFD}");
            var a := [Component(x, [SelfCertification(primary, x)])];
            var b := [Component(y, [SelfCertification(primary, y)])];
            && HasVerifiedCertification(primary, a[0]) && HasVerifiedCertification(primary, b[0])
            && (forall u :: u in MergeComponents(Some(primary), a, b) ==> u.id == x)
            && (forall u :: u in MergeComponents(Some(primary), b, a) ==> u.id == y)
  {
    var x, y := UserId([0xFE], "\U{FFFD}"), UserId([0xFF], "\U{FFFD}");
    var sx, sy := SelfCertification(primary, x), SelfCertification(primary, y);
    var a, b := [Component(x, [sx])], [Component(y, [sy])];
    assert sx in a[0].signatures && Trusted(sx, primary, ComponentTarget(x));
    assert sy in b[0].signatures && Trusted(sy, primary, ComponentTarget(y));
    assert a[..0] == [] && b[..0] == [];
    assert MergeComponents(Some(primary), a, b) == MergeComponent(Some(primary), a, b[0]);
    assert MergeComponents(Some(primary), b, a) == MergeComponent(Some(primary), b, a[0]);
  }

  lemma {:induction false} DedupOfCopies(s: Signature, n: nat)
    requires 0 < n
    ensures Dedup(seq(n, _ => s)) == [s]
  {
    var copies := seq(n, _ => s);
    if n == 1 {
      assert copies[..0] == [];
    } else {
      assert copies[..n - 1] == seq(n - 1, _ => s);
      DedupOfCopies(s, n - 1);
    }
  }

  /** A base that repeats one signature up to the cap: the second merge admits what the first left out. */
  lemma RepeatedSignaturesBreakIdempotence(primary: PublicKey)
    ensures var base := Details(seq(MAX_MERGED_SIGNATURES, _ => ForeignSignature([0])), [], [], []);
            var incoming := Details([ForeignSignature([1])], [], [], []);
            var once := MergeDetails(primary, base, incoming);
            MergeDetails(primary, once, incoming) != once
  {
    var gate := Gate(primary, KeyTarget);
    var a, b := ForeignSignature([0]), ForeignSignature([1]);
    assert a.content != b.content;
    var copies := seq(MAX_MERGED_SIGNATURES, _ => a);
    assert [b][..0] == [];
    assert MergeSigs(gate, copies, []) == copies;
    assert MergeSigs(gate, copies, [b]) == copies;
    DedupOfCopies(a, MAX_MERGED_SIGNATURES);
    assert MergeSigs(gate, [a], []) == [a];
    assert MergeSigs(gate, [a], [b]) == [a, b];
    DedupProperties([a, b]);
  }

  /** A copy that lists one User ID twice, first uncertified: only the second merge takes the first entry in. */
  lemma RepeatedUserIdBreaksIdempotence(primary: PublicKey)
    ensures var id := UserId([65], "A");
            var incoming := [
              Component(id, [ForeignSignature([0])]), Component(id, [SelfCertification(primary, id)])];
            var once := MergeComponents(Some(primary), [], incoming);
            MergeComponents(Some(primary), once, incoming) != once
  {
    var id, p := UserId([65], "A"), Some(primary);
    var f, s := ForeignSignature([0]), SelfCertification(primary, id);
    var first, second := Component(id, [f]), Component(id, [s]);
    var incoming := [first, second];
    assert incoming[..1] == [first] && [first][..0] == [];
    assert s in second.signatures && Trusted(s, primary, ComponentTarget(id));
    assert MergeComponents(p, [], [first]) == MergeComponent(p, [], first) == [];
    assert MergeComponents(p, [], incoming) == MergeComponent(p, [], second) == [second];
    assert [f][..0] == [] && f.typ != s.typ;
    assert MergeSigs(GateFor(p, id), [s], [f]) == [s, f];
    assert MergeComponents(p, [second], [first]) == MergeComponent(p, [second], first);
    MergeAllGrows(p, [second], [first]);
    MergeGrows(p, MergeComponents(p, [second], [first]), second);
  }
}
