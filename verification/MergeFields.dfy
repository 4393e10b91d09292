/** What a merge keeps, said in the fields of the two copies. */
module MergeFields {
  import opened Common
  import opened Certificates
  import opened Governing
  import opened Merging
  import opened MergeRevocation
  import opened MergeIdempotence
  import opened MergeSubkeys
  import opened MergeCap
  import opened MergeRepeats
  import opened MergeLimits

  // ----- signatures

  /** Carries the primary key's fingerprint or key id as its issuer. */
  predicate Names(s: Signature, primary: PublicKey) {
    primary.fingerprint in s.issuerFingerprints || primary.keyId in s.issuerKeyIds
  }

  /** Does not name the primary key, or was really made by it over the target. */
  predicate Genuine(primary: PublicKey, target: Target, s: Signature) {
    Names(s, primary) ==> (primary.fingerprint, target) in s.verifiesOver
  }

  function GenuineNews(primary: PublicKey, target: Target, dst: seq<Signature>, src: seq<Signature>): set<Signature> {
    set s | s in src && s !in dst && Genuine(primary, target, s)
  }

  /** A genuine self-signature always joins; any other while the list holds fewer than 256. */
  predicate Joins(primary: PublicKey, target: Target, dst: seq<Signature>, src: seq<Signature>, s: Signature) {
    if Names(s, primary) then (primary.fingerprint, target) in s.verifiesOver
    else exists k :: 0 <= k < |src| && src[k] == s && |dst| + |GenuineNews(primary, target, dst, src[..k])| < 256
  }

  predicate InEither(primary: PublicKey, target: Target, dst: seq<Signature>, src: seq<Signature>, s: Signature) {
    s in dst || (s in src && Joins(primary, target, dst, src, s))
  }

  lemma NewsAreWanted(primary: PublicKey, target: Target, dst: seq<Signature>, src: seq<Signature>)
    ensures GenuineNews(primary, target, dst, src) == Wanted(Gate(primary, target), dst, src)
  {
  }

  lemma SignaturesExactly(primary: PublicKey, target: Target, dst: seq<Signature>, src: seq<Signature>, s: Signature)
    ensures s in MergeSigs(Gate(primary, target), dst, src) <==> InEither(primary, target, dst, src, s)
  {
    var gate := Gate(primary, target);
    MergedExactly(gate, dst, src, s);
    forall k | 0 <= k < |src|
      ensures GenuineNews(primary, target, dst, src[..k]) == Wanted(gate, dst, src[..k])
    {
      NewsAreWanted(primary, target, dst, src[..k]);
    }
  }

  /** The key-level lists after a merge, each signature once. */
  lemma KeySignaturesExactly(primary: PublicKey, base: Details, incoming: Details)
    ensures var m := MergeDetails(primary, base, incoming);
            && NoDuplicates(m.direct) && NoDuplicates(m.revocations)
            && forall s ::
                 && (s in m.direct <==> InEither(primary, KeyTarget, base.direct, incoming.direct, s))
                 && (s in m.revocations <==> InEither(primary, KeyTarget, base.revocations, incoming.revocations, s))
  {
    var gate := Gate(primary, KeyTarget);
    DedupProperties(MergeSigs(gate, base.direct, incoming.direct));
    DedupProperties(MergeSigs(gate, base.revocations, incoming.revocations));
    forall s {
      SignaturesExactly(primary, KeyTarget, base.direct, incoming.direct, s);
    }
    forall s {
      SignaturesExactly(primary, KeyTarget, base.revocations, incoming.revocations, s);
    }
  }

  // ----- User IDs and attributes

  /** User IDs of one text, attributes of one image, subkeys of one fingerprint. */
  predicate ReadsLike(a: ComponentId, b: ComponentId) {
    match a
    case UserId(_, text) => b.UserId? && b.text == text
    case UserAttribute(image) => b.UserAttribute? && b.image == image
    case Subkey(key) => b.Subkey? && b.key.fingerprint == key.fingerprint
  }

  /** Carries a self-certification (0x10 to 0x13) that counts. */
  predicate Certified(primary: PublicKey, user: Component) {
    exists s :: s in user.signatures
      && s.typ in {CertGeneric, CertPersona, CertCasual, CertPositive}
      && MadeOver(primary, ComponentTarget(user.id), s) && !s.criticalUnknown
  }

  /** Carries a signature of the primary key, named in it, that is no revocation. */
  predicate Acknowledged(primary: PublicKey, attribute: Component) {
    exists s :: s in attribute.signatures
      && Names(s, primary) && s.typ != CertRevocation
      && (primary.fingerprint, ComponentTarget(attribute.id)) in s.verifiesOver
  }

  predicate Vouched(primary: PublicKey, c: Component) {
    if c.id.UserAttribute? then Acknowledged(primary, c) else Certified(primary, c)
  }

  /** The first incoming entry that reads like `id` and is vouched for. */
  predicate TakenOver(primary: PublicKey, src: seq<Component>, id: ComponentId, j: nat) {
    && j < |src| && ReadsLike(src[j].id, id) && Vouched(primary, src[j])
    && forall i :: 0 <= i < j && ReadsLike(src[i].id, id) ==> !Vouched(primary, src[i])
  }

  predicate Known(components: seq<Component>, id: ComponentId) {
    exists c :: c in components && ReadsLike(c.id, id)
  }

  lemma ReadsLikeMeans(a: ComponentId, b: ComponentId)
    ensures ReadsLike(a, b) <==> KeyOf(a) == KeyOf(b)
  {
  }

  lemma VouchedMeans(primary: PublicKey, c: Component)
    ensures Welcome(Some(primary), c) <==> Vouched(primary, c)
  {
    forall s {
      EligibleMeans(primary, Certifications(c.id), s);
    }
  }

  lemma TakenOverIsFirst(primary: PublicKey, src: seq<Component>, id: ComponentId, j: nat)
    ensures TakenOver(primary, src, id, j) <==> j < |src| && j == FirstWelcome(Some(primary), src, KeyOf(id))
  {
    forall i | 0 <= i < |src|
      ensures ReadsLike(src[i].id, id) <==> KeyOf(src[i].id) == KeyOf(id)
      ensures Welcome(Some(primary), src[i]) <==> Vouched(primary, src[i])
    {
      ReadsLikeMeans(src[i].id, id);
      VouchedMeans(primary, src[i]);
    }
  }

  lemma KnownMeans(components: seq<Component>, id: ComponentId)
    ensures Known(components, id) <==> Entry(components, KeyOf(id)).Some?
  {
    forall c: Component {
      ReadsLikeMeans(c.id, id);
    }
    FindHolds(components, KeyOf(id));
  }

  /**
   * A User ID or attribute is stored after the merge exactly when the target had
   * it, or had nothing that reads like it and the first incoming entry that does
   * and is vouched for is this one.
   */
  lemma StoredExactly(primary: PublicKey, dst: seq<Component>, src: seq<Component>, id: ComponentId)
    ensures HasId(MergeComponents(Some(primary), dst, src), id)
            <==> || HasId(dst, id)
                 || (&& !Known(dst, id)
                     && exists j :: 0 <= j < |src| && TakenOver(primary, src, id, j) && src[j].id == id)
  {
    UserIdSurvivesExactly(primary, dst, src, id);
    KnownMeans(dst, id);
    forall j: nat {
      TakenOverIsFirst(primary, src, id, j);
    }
  }

  /** All signatures that incoming entries reading like `id` carry, in order. */
  function OfferedTo(src: seq<Component>, id: ComponentId): seq<Signature> {
    if src == [] then []
    else
      var before, last := OfferedTo(src[..|src| - 1], id), src[|src| - 1];
      if ReadsLike(last.id, id) then before + last.signatures else before
  }

  lemma {:induction false} OfferedIsFor(src: seq<Component>, id: ComponentId)
    ensures OfferedTo(src, id) == SigsFor(src, KeyOf(id))
  {
    if src != [] {
      OfferedIsFor(src[..|src| - 1], id);
      ReadsLikeMeans(src[|src| - 1].id, id);
    }
  }

  /** `merged` is `own` with whatever of `offered` joins it. */
  ghost predicate ToppedUp(primary: PublicKey, own: Component, offered: seq<Signature>, merged: Component) {
    && merged.id == own.id && own.signatures <= merged.signatures
    && forall s :: s in merged.signatures
         <==> InEither(primary, ComponentTarget(own.id), own.signatures, offered, s)
  }

  lemma ToppedIsToppedUp(primary: PublicKey, own: Component, offered: seq<Signature>)
    ensures ToppedUp(primary, own, offered, Topped(Some(primary), own, offered))
  {
    MergeExtends(Gate(primary, ComponentTarget(own.id)), own.signatures, offered);
    forall s {
      SignaturesExactly(primary, ComponentTarget(own.id), own.signatures, offered, s);
    }
  }

  /** An entry the target had, first of those that read alike, keeps its place and is topped up. */
  lemma OwnEntryExactly(primary: PublicKey, dst: seq<Component>, src: seq<Component>, i: nat)
    requires i < |dst| && forall j :: 0 <= j < i ==> !ReadsLike(dst[j].id, dst[i].id)
    ensures var m := MergeComponents(Some(primary), dst, src);
            i < |m| && ToppedUp(primary, dst[i], OfferedTo(src, dst[i].id), m[i])
  {
    var m, key := MergeComponents(Some(primary), dst, src), KeyOf(dst[i].id);
    MergeAllGrows(Some(primary), dst, src);
    forall j | 0 <= j < i
      ensures KeyOf(m[j].id) != key
    {
      ReadsLikeMeans(dst[j].id, dst[i].id);
    }
    EntryIsFirst(dst, i);
    EntryIsFirst(m, i);
    EntryIsFinal(Some(primary), dst, src, key);
    OfferedIsFor(src, dst[i].id);
    ToppedIsToppedUp(primary, dst[i], SigsFor(src, key));
  }

  lemma EntryIsHeld(components: seq<Component>, key: ComponentKey)
    requires Entry(components, key).Some?
    ensures Entry(components, key).value in components
  {
  }

  /** An entry taken over is topped up with what later ones offer. */
  lemma NewEntryExactly(primary: PublicKey, dst: seq<Component>, src: seq<Component>, id: ComponentId, j: nat)
    returns (c: Component)
    requires !Known(dst, id) && TakenOver(primary, src, id, j)
    ensures c in MergeComponents(Some(primary), dst, src)
    ensures ToppedUp(primary, src[j], OfferedTo(src[j + 1..], id), c)
  {
    var m, key := MergeComponents(Some(primary), dst, src), KeyOf(id);
    KnownMeans(dst, id);
    TakenOverIsFirst(primary, src, id, j);
    EntryIsFinal(Some(primary), dst, src, key);
    c := Topped(Some(primary), src[j], SigsFor(src[j + 1..], key));
    EntryIsHeld(m, key);
    OfferedIsFor(src[j + 1..], id);
    ToppedIsToppedUp(primary, src[j], SigsFor(src[j + 1..], key));
  }

  // ----- whole certificates

  /** Refused exactly when the fingerprints differ, or no secret key is there and one copy is missing. */
  lemma RefusedExactly(a: Block, b: Block)
    ensures MergeBlocks(a, b).Err?
            <==> || (CopyOf(a).Some? && CopyOf(b).Some?
                     && CopyOf(a).value.0.fingerprint != CopyOf(b).value.0.fingerprint)
                 || (a.secret.None? && b.secret.None? && (a.public.None? || b.public.None?))
    ensures MergeBlocks(a, b).Ok? ==>
              (MergeBlocks(a, b).value.MergedSecret? <==> a.secret.Some? || b.secret.Some?)
  {
  }

  /** The rule for User IDs and attributes through whole blocks, in all four combinations. */
  lemma MergedIdsExactly(a: Block, b: Block, id: ComponentId)
    requires MergeBlocks(a, b).Ok?
    ensures var (primary, own) := Receiver(a, b);
            var details := MergedDetails(MergeBlocks(a, b).value).1;
            && (HasId(details.users, id)
                <==> || HasId(own.users, id)
                     || (&& Received(a, b).Some? && !Known(own.users, id)
                         && var src := Received(a, b).value.users;
                            exists j :: 0 <= j < |src| && TakenOver(primary, src, id, j) && src[j].id == id))
            && (HasId(details.attributes, id)
                <==> || HasId(own.attributes, id)
                     || (&& Received(a, b).Some? && !Known(own.attributes, id)
                         && var src := Received(a, b).value.attributes;
                            exists j :: 0 <= j < |src| && TakenOver(primary, src, id, j) && src[j].id == id))
  {
    var (primary, own) := Receiver(a, b);
    ReceiverMerges(a, b);
    if Received(a, b).Some? {
      StoredExactly(primary, own.users, Received(a, b).value.users, id);
      StoredExactly(primary, own.attributes, Received(a, b).value.attributes, id);
    }
  }

  function Fingerprints(components: seq<Component>): set<Fingerprint> {
    set c | c in components && c.id.Subkey? :: c.id.key.fingerprint
  }

  lemma FingerprintsAreKeys(components: seq<Component>)
    ensures forall f :: f in Fingerprints(components) <==> SubkeyKey(f) in Keys(components)
  {
  }

  /** Public subkeys merged into a secret key: each by fingerprint onto the secret list if it is there, else the public one. */
  lemma PublicSubkeysByFingerprint(target: Subkeys, incoming: seq<Component>)
    ensures var m := MergeIntoSecret(target, incoming);
            && Fingerprints(m.secret) == Fingerprints(target.secret)
            && Fingerprints(m.public)
               == Fingerprints(target.public) + (Fingerprints(incoming) - Fingerprints(target.secret))
  {
    var m := MergeIntoSecret(target, incoming);
    KeysIntoSecret(target, incoming);
    FingerprintsAreKeys(m.secret);
    FingerprintsAreKeys(m.public);
    FingerprintsAreKeys(target.secret);
    FingerprintsAreKeys(target.public);
    FingerprintsAreKeys(incoming);
  }

  /** Where each subkey ends up when two secret keys are merged, by fingerprint. */
  lemma SubkeysByFingerprint(target: Subkeys, source: Subkeys)
    ensures var m := MergeSecretSubkeys(target, source);
            && Fingerprints(m.secret) == Fingerprints(target.secret) + Fingerprints(source.secret)
            && Fingerprints(m.public)
               == Fingerprints(target.public) + Fingerprints(source.public) - Fingerprints(m.secret)
  {
    SecretMergePartitionsSubkeys(target, source);
    var m := MergeSecretSubkeys(target, source);
    FingerprintsAreKeys(m.secret);
    FingerprintsAreKeys(m.public);
    FingerprintsAreKeys(target.secret);
    FingerprintsAreKeys(target.public);
    FingerprintsAreKeys(source.secret);
    FingerprintsAreKeys(source.public);
  }
}
