/**
 * Merging two copies of a certificate (`rust/src/key.rs`): signatures are
 * deduplicated, self-signatures pass only when they verify, and everything else
 * is capped. The recursive functions say what the loops compute; `MergeLoops`
 * holds the loops.
 */
module Merging {
  import opened Common
  import opened Certificates

  const MAX_MERGED_SIGNATURES: nat := 256

  /** What self-issued signatures are checked against, if anything. */
  datatype Gate = NoGate | Gate(primary: PublicKey, target: Target)

  predicate SelfIssued(gate: Gate, sig: Signature) {
    gate.Gate? && NamesAsIssuer(sig, gate.primary)
  }

  predicate Admits(gate: Gate, dst: seq<Signature>, sig: Signature) {
    && sig !in dst
    && (if SelfIssued(gate, sig) then Verifies(sig, gate.primary, gate.target)
        else |dst| < MAX_MERGED_SIGNATURES)
  }

  function MergeOne(gate: Gate, dst: seq<Signature>, sig: Signature): seq<Signature> {
    if Admits(gate, dst, sig) then dst + [sig] else dst
  }

  function MergeSigs(gate: Gate, dst: seq<Signature>, src: seq<Signature>): seq<Signature> {
    if src == [] then dst
    else MergeOne(gate, MergeSigs(gate, dst, src[..|src| - 1]), src[|src| - 1])
  }

  predicate NoDuplicates(sigs: seq<Signature>) {
    forall i, j :: 0 <= i < j < |sigs| ==> sigs[i] != sigs[j]
  }

  function Dedup(sigs: seq<Signature>): seq<Signature> {
    if sigs == [] then []
    else
      var rest := Dedup(sigs[..|sigs| - 1]);
      if sigs[|sigs| - 1] in rest then rest else rest + [sigs[|sigs| - 1]]
  }

  /** How components are told apart: a User ID by its lossy text. */
  datatype ComponentKey = UserKey(text: string) | AttributeKey(image: seq<Octet>) | SubkeyKey(fpr: Fingerprint)

  function KeyOf(id: ComponentId): ComponentKey {
    match id
    case UserId(_, text) => UserKey(text)
    case UserAttribute(image) => AttributeKey(image)
    case Subkey(key) => SubkeyKey(key.fingerprint)
  }

  /** Index of the first component with this key, or the length if there is none. */
  function Find(components: seq<Component>, key: ComponentKey): (i: nat)
    ensures i <= |components|
    ensures i < |components| ==> KeyOf(components[i].id) == key
    ensures forall j :: 0 <= j < i ==> KeyOf(components[j].id) != key
  {
    if components == [] then 0
    else if KeyOf(components[0].id) == key then 0
    else 1 + Find(components[1..], key)
  }

  predicate HasVerifiedCertification(primary: PublicKey, user: Component) {
    exists s :: s in user.signatures
      && Trusted(s, primary, ComponentTarget(user.id)) && IsCertification(s.typ)
  }

  predicate HasOwnCertification(primary: PublicKey, attribute: Component) {
    exists s :: s in attribute.signatures
      && NamesAsIssuer(s, primary)
      && !s.typ.CertRevocation?
      && Verifies(s, primary, ComponentTarget(attribute.id))
  }

  /** Subkeys are merged without a primary key to check against. */
  function GateFor(primary: Option<PublicKey>, id: ComponentId): Gate {
    if primary.None? then NoGate else Gate(primary.value, ComponentTarget(id))
  }

  /** May a component the target lacks be taken over? */
  predicate Welcome(primary: Option<PublicKey>, c: Component) {
    primary.Some? ==>
      if c.id.UserAttribute? then HasOwnCertification(primary.value, c)
      else HasVerifiedCertification(primary.value, c)
  }

  function MergeComponent(primary: Option<PublicKey>, dst: seq<Component>, c: Component): seq<Component> {
    var i := Find(dst, KeyOf(c.id));
    if i < |dst| then
      var merged := MergeSigs(GateFor(primary, dst[i].id), dst[i].signatures, c.signatures);
      dst[i := dst[i].(signatures := merged)]
    else if Welcome(primary, c) then dst + [c]
    else dst
  }

  function MergeComponents(primary: Option<PublicKey>, dst: seq<Component>, src: seq<Component>): seq<Component> {
    if src == [] then dst
    else MergeComponent(primary, MergeComponents(primary, dst, src[..|src| - 1]), src[|src| - 1])
  }

  function MergeDetails(primary: PublicKey, base: Details, incoming: Details): Details {
    var gate := Gate(primary, KeyTarget);
    Details(
      Dedup(MergeSigs(gate, base.direct, incoming.direct)),
      Dedup(MergeSigs(gate, base.revocations, incoming.revocations)),
      MergeComponents(Some(primary), base.users, incoming.users),
      MergeComponents(Some(primary), base.attributes, incoming.attributes))
  }

  // ----- whole certificates

  datatype Subkeys = Subkeys(secret: seq<Component>, public: seq<Component>)

  datatype PublicCert = PublicCert(primary: PublicKey, details: Details, subkeys: seq<Component>)

  datatype SecretCert = SecretCert(primary: PublicKey, details: Details, subkeys: Subkeys)

  predicate Holds(components: seq<Component>, key: ComponentKey) {
    exists c :: c in components && KeyOf(c.id) == key
  }

  /** Onto the matching secret subkey if there is one, else among the public ones. */
  function MergeOneIntoSecret(target: Subkeys, c: Component): Subkeys {
    if Find(target.secret, KeyOf(c.id)) < |target.secret|
    then target.(secret := MergeComponent(None, target.secret, c))
    else target.(public := MergeComponent(None, target.public, c))
  }

  function MergeIntoSecret(target: Subkeys, incoming: seq<Component>): Subkeys {
    if incoming == [] then target
    else MergeOneIntoSecret(MergeIntoSecret(target, incoming[..|incoming| - 1]), incoming[|incoming| - 1])
  }

  /** The public subkeys whose secret part `secret` holds (`held`), or lacks. */
  function Partition(public: seq<Component>, secret: seq<Component>, held: bool): seq<Component> {
    if public == [] then []
    else
      var rest := Partition(public[..|public| - 1], secret, held);
      var last := public[|public| - 1];
      if Holds(secret, KeyOf(last.id)) == held then rest + [last] else rest
  }

  function MergeSecretSubkeys(target: Subkeys, source: Subkeys): Subkeys {
    var secret := MergeComponents(None, target.secret, source.secret);
    var demoted := Partition(target.public, secret, true);
    var kept := Partition(target.public, secret, false);
    MergeIntoSecret(MergeIntoSecret(Subkeys(secret, kept), demoted), source.public)
  }

  function MergeSecretIntoSecret(target: SecretCert, source: SecretCert): SecretCert {
    SecretCert(
      target.primary,
      MergeDetails(target.primary, target.details, source.details),
      MergeSecretSubkeys(target.subkeys, source.subkeys))
  }

  function MergePublicIntoSecret(target: SecretCert, source: PublicCert): SecretCert {
    SecretCert(
      target.primary,
      MergeDetails(target.primary, target.details, source.details),
      MergeIntoSecret(target.subkeys, source.subkeys))
  }

  function MergePublicIntoPublic(target: PublicCert, source: PublicCert): PublicCert {
    PublicCert(
      target.primary,
      MergeDetails(target.primary, target.details, source.details),
      MergeComponents(None, target.subkeys, source.subkeys))
  }

  /** An armored block, as the secret-key and the public-key parser read it. */
  datatype Block = Block(secret: Option<SecretCert>, public: Option<PublicCert>)

  datatype Merged = MergedSecret(sk: SecretCert) | MergedPublic(pk: PublicCert)

  datatype MergeError = InvalidInput

  function MergeBlocks(base: Block, incoming: Block): Result<Merged, MergeError> {
    if base.secret.Some? && incoming.secret.Some? then
      if base.secret.value.primary.fingerprint != incoming.secret.value.primary.fingerprint then Err(InvalidInput)
      else Ok(MergedSecret(MergeSecretIntoSecret(base.secret.value, incoming.secret.value)))
    else if base.secret.Some? then EnrichSecret(base.secret.value, incoming.public)
    else if incoming.secret.Some? then EnrichSecret(incoming.secret.value, base.public)
    else if base.public.Some? && incoming.public.Some? then
      if base.public.value.primary.fingerprint != incoming.public.value.primary.fingerprint then Err(InvalidInput)
      else Ok(MergedPublic(MergePublicIntoPublic(base.public.value, incoming.public.value)))
    else Err(InvalidInput)
  }

  function EnrichSecret(target: SecretCert, other: Option<PublicCert>): Result<Merged, MergeError> {
    if other.None? then Ok(MergedSecret(target))
    else if target.primary.fingerprint != other.value.primary.fingerprint then Err(InvalidInput)
    else Ok(MergedSecret(MergePublicIntoSecret(target, other.value)))
  }

  // ----- what merging signature lists keeps and leaves out

  /** Merging `src` would change nothing. */
  predicate Absorbs(gate: Gate, dst: seq<Signature>, src: seq<Signature>) {
    forall s :: s in src ==> !Admits(gate, dst, s)
  }

  lemma {:induction false} MergeExtends(gate: Gate, dst: seq<Signature>, src: seq<Signature>)
    ensures dst <= MergeSigs(gate, dst, src)
    ensures forall s :: s in MergeSigs(gate, dst, src) ==> s in dst || s in src
  {
    if src != [] {
      MergeExtends(gate, dst, src[..|src| - 1]);
    }
  }

  lemma AbsorptionGrows(gate: Gate, a: seq<Signature>, b: seq<Signature>, src: seq<Signature>)
    requires a <= b && Absorbs(gate, a, src)
    ensures Absorbs(gate, b, src)
  {
    forall s | s in src
      ensures !Admits(gate, b, s)
    {
      assert !Admits(gate, a, s);
      assert s in a ==> s in b;
    }
  }

  lemma {:induction false} MergeAbsorbs(gate: Gate, dst: seq<Signature>, src: seq<Signature>)
    ensures Absorbs(gate, MergeSigs(gate, dst, src), src)
  {
    if src != [] {
      var front, last := src[..|src| - 1], src[|src| - 1];
      var before := MergeSigs(gate, dst, front);
      MergeAbsorbs(gate, dst, front);
      AbsorptionGrows(gate, before, MergeOne(gate, before, last), front);
      assert src == front + [last];
    }
  }

  lemma {:induction false} AbsorbedChangesNothing(gate: Gate, dst: seq<Signature>, src: seq<Signature>)
    requires Absorbs(gate, dst, src)
    ensures MergeSigs(gate, dst, src) == dst
  {
    if src != [] {
      AbsorbedChangesNothing(gate, dst, src[..|src| - 1]);
    }
  }

  /** A self-signature that verifies is never left out, whatever the cap. */
  lemma {:induction false} VerifiedSelfSignatureAlwaysFits(gate: Gate, dst: seq<Signature>, src: seq<Signature>, s: Signature)
    requires s in src && SelfIssued(gate, s) && Verifies(s, gate.primary, gate.target)
    ensures s in MergeSigs(gate, dst, src)
  {
    MergeAbsorbs(gate, dst, src);
  }

  lemma {:induction false} MergeKeepsDistinct(gate: Gate, dst: seq<Signature>, src: seq<Signature>)
    requires NoDuplicates(dst)
    ensures NoDuplicates(MergeSigs(gate, dst, src))
  {
    if src != [] {
      MergeKeepsDistinct(gate, dst, src[..|src| - 1]);
    }
  }

  lemma {:induction false} DedupProperties(sigs: seq<Signature>)
    ensures NoDuplicates(Dedup(sigs))
    ensures forall s :: s in Dedup(sigs) <==> s in sigs
    ensures NoDuplicates(sigs) ==> Dedup(sigs) == sigs
    ensures |Dedup(sigs)| <= |sigs|
  {
    if sigs != [] {
      DedupProperties(sigs[..|sigs| - 1]);
      assert sigs == sigs[..|sigs| - 1] + [sigs[|sigs| - 1]];
    }
  }
}
