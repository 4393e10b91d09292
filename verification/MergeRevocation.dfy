/** Merging certificates and revocation: what survives, in which order, and what the cap can cost. */
module MergeRevocation {
  import opened Common
  import opened Certificates
  import opened Merging

  // ----- merging never un-revokes

  /** A key revocation the merge must not lose: it verifies and names its issuer. */
  predicate NamedRevocation(primary: PublicKey, s: Signature) {
    Selected(primary, KeyRevocations, s) && NamesAsIssuer(s, primary)
  }

  /** Would the verified, primary-naming key revocations of this copy alone revoke the key at `t`? */
  predicate NamedRevokedAt(primary: PublicKey, details: Details, t: U32) {
    exists s :: s in details.revocations + details.direct
      && NamedRevocation(primary, s) && RevokesAt(s, t)
  }

  lemma PrimaryRevokedBySome(primary: PublicKey, details: Details, t: U32)
    ensures RevokedAt(PrimaryRevocationState(primary, details), t)
            <==> exists s :: s in details.revocations + details.direct
                   && Selected(primary, KeyRevocations, s) && RevokesAt(s, t)
  {
    SelectMembers(primary, KeyRevocations, details.revocations + details.direct);
    StateRevokes(PrimaryRevocations(primary, details), t);
  }

  lemma MergedListKeeps(primary: PublicKey, dst: seq<Signature>, src: seq<Signature>, s: Signature)
    requires s in dst || (s in src && NamedRevocation(primary, s))
    ensures s in Dedup(MergeSigs(Gate(primary, KeyTarget), dst, src))
  {
    var gate := Gate(primary, KeyTarget);
    MergeExtends(gate, dst, src);
    DedupProperties(MergeSigs(gate, dst, src));
    if s in src && NamedRevocation(primary, s) {
      VerifiedSelfSignatureAlwaysFits(gate, dst, src, s);
    }
  }

  lemma DetailsStayRevoked(primary: PublicKey, base: Details, incoming: Details, t: U32)
    requires || RevokedAt(PrimaryRevocationState(primary, base), t)
             || NamedRevokedAt(primary, incoming, t)
    ensures RevokedAt(PrimaryRevocationState(primary, MergeDetails(primary, base, incoming)), t)
  {
    var merged := MergeDetails(primary, base, incoming);
    PrimaryRevokedBySome(primary, base, t);
    PrimaryRevokedBySome(primary, merged, t);
    var s: Signature;
    if RevokedAt(PrimaryRevocationState(primary, base), t) {
      s :| s in base.revocations + base.direct && Selected(primary, KeyRevocations, s) && RevokesAt(s, t);
    } else {
      s :| s in incoming.revocations + incoming.direct && NamedRevocation(primary, s) && RevokesAt(s, t);
    }
    if s in base.revocations || (s in incoming.revocations && NamedRevocation(primary, s)) {
      MergedListKeeps(primary, base.revocations, incoming.revocations, s);
    } else {
      MergedListKeeps(primary, base.direct, incoming.direct, s);
    }
    assert s in merged.revocations + merged.direct;
  }

  /** The copy of the certificate that a merge reads from a block. */
  function CopyOf(block: Block): Option<(PublicKey, Details)> {
    if block.secret.Some? then Some((block.secret.value.primary, block.secret.value.details))
    else if block.public.Some? then Some((block.public.value.primary, block.public.value.details))
    else None
  }

  function MergedDetails(m: Merged): (PublicKey, Details) {
    match m
    case MergedSecret(sk) => (sk.primary, sk.details)
    case MergedPublic(pk) => (pk.primary, pk.details)
  }

  /** A fingerprint is a hash of the key, so it determines the key. */
  predicate SameKey(base: Block, incoming: Block) {
    CopyOf(base).Some? && CopyOf(incoming).Some? ==>
      var a, b := CopyOf(base).value.0, CopyOf(incoming).value.0;
      a.fingerprint == b.fingerprint ==> a == b
  }

  predicate RevokedByItself(copy: Option<(PublicKey, Details)>, t: U32) {
    && copy.Some?
    && PrimaryVerdict(copy.value.0, copy.value.1, t) == Revoked
    && NamedRevokedAt(copy.value.0, copy.value.1, t)
  }

  /**
   * In all four secret/public combinations: if the named revocations of either
   * copy make the primary key Revoked at `t`, the merged key is Revoked at `t`.
   */
  lemma MergeNeverUnrevokes(base: Block, incoming: Block, t: U32)
    requires SameKey(base, incoming)
    requires MergeBlocks(base, incoming).Ok?
    requires RevokedByItself(CopyOf(base), t) || RevokedByItself(CopyOf(incoming), t)
    ensures var (primary, details) := MergedDetails(MergeBlocks(base, incoming).value);
            PrimaryVerdict(primary, details, t) == Revoked
  {
    var revokedBase := RevokedByItself(CopyOf(base), t);
    if CopyOf(base).Some? && CopyOf(incoming).Some? {
      var (primary, b) := CopyOf(base).value;
      var i := CopyOf(incoming).value.1;
      assert primary == CopyOf(incoming).value.0;
      if revokedBase {
        assert RevokedAt(PrimaryRevocationState(primary, b), t);
      } else {
        assert RevokedAt(PrimaryRevocationState(primary, i), t);
      }
      if base.secret.None? && incoming.secret.Some? {
        DetailsStayRevoked(primary, i, b, t);
      } else {
        DetailsStayRevoked(primary, b, i, t);
      }
    }
  }

  // ----- merge order does not matter for trust

  /** Every signature that verifies under the primary key says so in an issuer subpacket. */
  predicate VerifyingNamesPrimary(primary: PublicKey, sigs: seq<Signature>, target: Target) {
    forall s :: s in sigs && Verifies(s, primary, target) ==> NamesAsIssuer(s, primary)
  }

  lemma MergedVerified(primary: PublicKey, target: Target, dst: seq<Signature>, src: seq<Signature>)
    requires VerifyingNamesPrimary(primary, src, target)
    ensures forall s :: Verifies(s, primary, target) ==>
              (s in MergeSigs(Gate(primary, target), dst, src) <==> s in dst || s in src)
  {
    var gate := Gate(primary, target);
    MergeExtends(gate, dst, src);
    forall s | Verifies(s, primary, target) && s in src
      ensures s in MergeSigs(gate, dst, src)
    {
      VerifiedSelfSignatureAlwaysFits(gate, dst, src, s);
    }
  }

  lemma MergedDistinct(primary: PublicKey, dst: seq<Signature>, src: seq<Signature>)
    requires VerifyingNamesPrimary(primary, src, KeyTarget)
    ensures forall s :: Verifies(s, primary, KeyTarget) ==>
              (s in Dedup(MergeSigs(Gate(primary, KeyTarget), dst, src)) <==> s in dst || s in src)
  {
    MergedVerified(primary, KeyTarget, dst, src);
    DedupProperties(MergeSigs(Gate(primary, KeyTarget), dst, src));
  }

  lemma MergedKeyRevocations(primary: PublicKey, a: Details, b: Details)
    requires VerifyingNamesPrimary(primary, b.direct + b.revocations, KeyTarget)
    ensures forall s :: s in PrimaryRevocations(primary, MergeDetails(primary, a, b)) <==>
              s in PrimaryRevocations(primary, a) || s in PrimaryRevocations(primary, b)
  {
    var m := MergeDetails(primary, a, b);
    assert forall s :: s in b.direct || s in b.revocations ==> s in b.direct + b.revocations;
    MergedDistinct(primary, a.direct, b.direct);
    MergedDistinct(primary, a.revocations, b.revocations);
    SelectMembers(primary, KeyRevocations, a.revocations + a.direct);
    SelectMembers(primary, KeyRevocations, b.revocations + b.direct);
    SelectMembers(primary, KeyRevocations, m.revocations + m.direct);
  }

  /** Whichever copy is merged into the other, the primary's revocation state is the same. */
  lemma MergeOrderKeepsRevocationState(primary: PublicKey, a: Details, b: Details)
    requires VerifyingNamesPrimary(primary, a.direct + a.revocations, KeyTarget)
    requires VerifyingNamesPrimary(primary, b.direct + b.revocations, KeyTarget)
    ensures PrimaryRevocationState(primary, MergeDetails(primary, a, b))
            == PrimaryRevocationState(primary, MergeDetails(primary, b, a))
  {
    MergedKeyRevocations(primary, a, b);
    MergedKeyRevocations(primary, b, a);
    StateDependsOnSet(
      PrimaryRevocations(primary, MergeDetails(primary, a, b)),
      PrimaryRevocations(primary, MergeDetails(primary, b, a)));
  }

  predicate DistinctKeys(components: seq<Component>) {
    forall i, j :: 0 <= i < j < |components| ==> KeyOf(components[i].id) != KeyOf(components[j].id)
  }

  /** Lossily equal User IDs are the same User ID: true of all valid UTF-8. */
  predicate NoLossyClash(users: seq<Component>, id: ComponentId) {
    forall u :: u in users && KeyOf(u.id) == KeyOf(id) ==> u.id == id
  }

  /** The entry a lookup finds: the first one with this key. */
  function Entry(components: seq<Component>, key: ComponentKey): Option<Component> {
    var i := Find(components, key);
    if i < |components| then Some(components[i]) else None
  }

  /** What merging `c` makes of the entry it matches, if any. */
  function MergedEntry(primary: Option<PublicKey>, entry: Option<Component>, c: Component): Option<Component> {
    if entry.Some? then
      var e := entry.value;
      Some(e.(signatures := MergeSigs(GateFor(primary, e.id), e.signatures, c.signatures)))
    else if Welcome(primary, c) then Some(c)
    else None
  }

  lemma EntryIsFirst(components: seq<Component>, i: nat)
    requires i < |components|
    requires forall j :: 0 <= j < i ==> KeyOf(components[j].id) != KeyOf(components[i].id)
    ensures Entry(components, KeyOf(components[i].id)) == Some(components[i])
  {
  }

  lemma EntryAfterMerge(primary: Option<PublicKey>, dst: seq<Component>, c: Component, key: ComponentKey)
    ensures Entry(MergeComponent(primary, dst, c), key)
            == if key == KeyOf(c.id) then MergedEntry(primary, Entry(dst, key), c) else Entry(dst, key)
  {
    var m := MergeComponent(primary, dst, c);
    var i := Find(dst, key);
    assert forall j :: 0 <= j < |dst| ==> m[j].id == dst[j].id;
    if i < |dst| {
      EntryIsFirst(m, i);
    } else if key == KeyOf(c.id) && Welcome(primary, c) {
      EntryIsFirst(m, |dst|);
    } else {
      assert forall j :: 0 <= j < |m| ==> KeyOf(m[j].id) != key;
    }
  }

  /** Merging lists of distinct components merges them entry by entry. */
  lemma {:induction false} EntryOfMerge(
    primary: Option<PublicKey>, dst: seq<Component>, src: seq<Component>, key: ComponentKey
  )
    requires DistinctKeys(src)
    ensures Entry(MergeComponents(primary, dst, src), key)
            == if Entry(src, key).Some? then MergedEntry(primary, Entry(dst, key), Entry(src, key).value)
               else Entry(dst, key)
  {
    if src != [] {
      var front, last := src[..|src| - 1], src[|src| - 1];
      EntryOfMerge(primary, dst, front, key);
      EntryAfterMerge(primary, MergeComponents(primary, dst, front), last, key);
      if KeyOf(last.id) == key {
        EntryIsFirst(src, |src| - 1);
        assert Find(front, key) == |front|;
      } else {
        EntryOfFront(src, key);
      }
    }
  }

  lemma EntryOfFront(components: seq<Component>, key: ComponentKey)
    requires components != [] && KeyOf(components[|components| - 1].id) != key
    ensures Entry(components, key) == Entry(components[..|components| - 1], key)
  {
    var front := components[..|components| - 1];
    if Find(front, key) < |front| {
      EntryIsFirst(components, Find(front, key));
    }
  }

  predicate Certified(primary: PublicKey, users: seq<Component>, id: ComponentId) {
    exists u :: u in users && u.id == id && HasVerifiedCertification(primary, u)
  }

  lemma CertifiedEntry(primary: PublicKey, users: seq<Component>, id: ComponentId)
    requires DistinctKeys(users) && Certified(primary, users, id)
    ensures var e := Entry(users, KeyOf(id));
            e.Some? && e.value.id == id && HasVerifiedCertification(primary, e.value)
  {
    var i :| 0 <= i < |users| && users[i].id == id && HasVerifiedCertification(primary, users[i]);
    EntryIsFirst(users, i);
  }

  predicate UserIdsComparable(primary: PublicKey, users: seq<Component>, id: ComponentId) {
    && id.UserId?
    && DistinctKeys(users)
    && NoLossyClash(users, id)
    && (forall u :: u in users ==> VerifyingNamesPrimary(primary, u.signatures, ComponentTarget(u.id)))
  }

  /**
   * Whichever copy is merged into the other, a User ID certified in either copy
   * ends up with the same verified self-signatures: those of both copies.
   */
  lemma MergeOrderKeepsVerifiedSignatures(primary: PublicKey, a: Details, b: Details, id: ComponentId, s: Signature)
    requires UserIdsComparable(primary, a.users, id) && UserIdsComparable(primary, b.users, id)
    requires Certified(primary, a.users, id) || Certified(primary, b.users, id)
    requires Verifies(s, primary, ComponentTarget(id))
    ensures var ab := Entry(MergeDetails(primary, a, b).users, KeyOf(id));
            var ba := Entry(MergeDetails(primary, b, a).users, KeyOf(id));
            && ab.Some? && ba.Some? && ab.value.id == id && ba.value.id == id
            && (s in ab.value.signatures <==> s in ba.value.signatures)
            && (s in ab.value.signatures <==>
                exists u :: (u in a.users || u in b.users) && u.id == id && s in u.signatures)
  {
    var key := KeyOf(id);
    EntryOfMerge(Some(primary), a.users, b.users, key);
    EntryOfMerge(Some(primary), b.users, a.users, key);
    if Certified(primary, a.users, id) { CertifiedEntry(primary, a.users, id); }
    if Certified(primary, b.users, id) { CertifiedEntry(primary, b.users, id); }
    var ea, eb := Entry(a.users, key), Entry(b.users, key);
    OnlyEntry(a.users, id);
    OnlyEntry(b.users, id);
    if ea.Some? && eb.Some? {
      MergedVerified(primary, ComponentTarget(id), ea.value.signatures, eb.value.signatures);
      MergedVerified(primary, ComponentTarget(id), eb.value.signatures, ea.value.signatures);
    }
  }

  lemma OnlyEntry(users: seq<Component>, id: ComponentId)
    requires DistinctKeys(users)
    ensures forall u :: u in users && u.id == id ==> Entry(users, KeyOf(id)) == Some(u)
  {
    forall i | 0 <= i < |users| && users[i].id == id
      ensures Entry(users, KeyOf(id)) == Some(users[i])
    {
      EntryIsFirst(users, i);
    }
  }
}
