/** Where subkeys and their signatures end up when secret keys are merged. */
module MergeSubkeys {
  import opened Common
  import opened Certificates
  import opened Merging
  import opened MergeRevocation
  import opened MergeIdempotence

  function Keys(components: seq<Component>): set<ComponentKey> {
    set c | c in components :: KeyOf(c.id)
  }

  lemma FindHolds(components: seq<Component>, key: ComponentKey)
    ensures Find(components, key) < |components| <==> Holds(components, key)
    ensures Holds(components, key) <==> key in Keys(components)
  {
  }

  lemma KeysOfMerge(dst: seq<Component>, c: Component)
    ensures Keys(MergeComponent(None, dst, c)) == Keys(dst) + {KeyOf(c.id)}
  {
    var m := MergeComponent(None, dst, c);
    forall k
      ensures k in Keys(m) <==> k in Keys(dst) || k == KeyOf(c.id)
    {
      EntryAfterMerge(None, dst, c, k);
      FindHolds(m, k);
      FindHolds(dst, k);
    }
  }

  lemma {:induction false} KeysOfMergeAll(dst: seq<Component>, src: seq<Component>)
    ensures Keys(MergeComponents(None, dst, src)) == Keys(dst) + Keys(src)
  {
    if src != [] {
      var front, last := src[..|src| - 1], src[|src| - 1];
      KeysOfMergeAll(dst, front);
      KeysOfMerge(MergeComponents(None, dst, front), last);
      KeysOfFront(src);
    }
  }

  lemma KeysIntoSecretOne(sk: Subkeys, c: Component)
    ensures Keys(MergeOneIntoSecret(sk, c).secret) == Keys(sk.secret)
    ensures Keys(MergeOneIntoSecret(sk, c).public) == Keys(sk.public) + ({KeyOf(c.id)} - Keys(sk.secret))
  {
    FindHolds(sk.secret, KeyOf(c.id));
    if Find(sk.secret, KeyOf(c.id)) < |sk.secret| {
      KeysOfMerge(sk.secret, c);
      assert {KeyOf(c.id)} - Keys(sk.secret) == {};
    } else {
      KeysOfMerge(sk.public, c);
    }
  }

  lemma KeysOfFront(components: seq<Component>)
    requires components != []
    ensures Keys(components) == Keys(components[..|components| - 1]) + {KeyOf(components[|components| - 1].id)}
  {
    assert components == components[..|components| - 1] + [components[|components| - 1]];
  }

  lemma {:induction false} KeysIntoSecret(sk: Subkeys, incoming: seq<Component>)
    ensures Keys(MergeIntoSecret(sk, incoming).secret) == Keys(sk.secret)
    ensures Keys(MergeIntoSecret(sk, incoming).public) == Keys(sk.public) + (Keys(incoming) - Keys(sk.secret))
  {
    if incoming != [] {
      var front, last := incoming[..|incoming| - 1], incoming[|incoming| - 1];
      var before := MergeIntoSecret(sk, front);
      KeysIntoSecret(sk, front);
      KeysIntoSecretOne(before, last);
      KeysOfFront(incoming);
    }
  }

  lemma {:induction false} KeysOfPartition(public: seq<Component>, secret: seq<Component>, held: bool)
    ensures Keys(Partition(public, secret, held))
            == if held then Keys(public) * Keys(secret) else Keys(public) - Keys(secret)
  {
    if public != [] {
      var front, last := public[..|public| - 1], public[|public| - 1];
      KeysOfPartition(front, secret, held);
      FindHolds(secret, KeyOf(last.id));
      KeysOfFront(public);
      var rest := Partition(front, secret, held);
      assert Keys(rest + [last]) == Keys(rest) + {KeyOf(last.id)};
    }
  }

  /**
   * Merging two secret keys: a subkey either key holds the secret of is secret,
   * every other subkey of either key is public-only, and none is both or lost.
   */
  lemma SecretMergePartitionsSubkeys(target: Subkeys, source: Subkeys)
    ensures var m := MergeSecretSubkeys(target, source);
            && Keys(m.secret) == Keys(target.secret) + Keys(source.secret)
            && Keys(m.public) == (Keys(target.public) + Keys(source.public)) - Keys(m.secret)
            && Keys(m.secret) !! Keys(m.public)
            && Keys(m.secret) + Keys(m.public)
               == Keys(target.secret) + Keys(target.public) + Keys(source.secret) + Keys(source.public)
  {
    var secret := MergeComponents(None, target.secret, source.secret);
    var demoted := Partition(target.public, secret, true);
    var kept := Partition(target.public, secret, false);
    KeysOfMergeAll(target.secret, source.secret);
    KeysOfPartition(target.public, secret, true);
    KeysOfPartition(target.public, secret, false);
    KeysIntoSecret(Subkeys(secret, kept), demoted);
    KeysIntoSecret(MergeIntoSecret(Subkeys(secret, kept), demoted), source.public);
  }

  // ----- idempotence of the secret combinations

  lemma {:induction false} PartitionWhenDisjoint(public: seq<Component>, secret: seq<Component>)
    requires Keys(public) !! Keys(secret)
    ensures Partition(public, secret, true) == []
    ensures Partition(public, secret, false) == public
  {
    if public != [] {
      var front, last := public[..|public| - 1], public[|public| - 1];
      assert Keys(front) <= Keys(public);
      PartitionWhenDisjoint(front, secret);
      assert KeyOf(last.id) in Keys(public);
      FindHolds(secret, KeyOf(last.id));
    }
  }

  lemma AbsorbedSecretMergeChangesNothing(sk: Subkeys, source: Subkeys)
    requires Keys(sk.secret) !! Keys(sk.public)
    requires AbsorbsAll(None, sk.secret, source.secret)
    requires forall c :: c in source.public ==> AbsorbsSubkey(sk, c)
    ensures MergeSecretSubkeys(sk, source) == sk
  {
    AbsorbedComponentsChangeNothing(None, sk.secret, source.secret);
    PartitionWhenDisjoint(sk.public, sk.secret);
    AbsorbedSubkeysChangeNothing(sk, source.public);
  }

  /** Merging another secret key's subkeys leaves nothing of them to be merged. */
  lemma SecretMergeAbsorbs(target: Subkeys, source: Subkeys)
    ensures var m := MergeSecretSubkeys(target, source);
            && AbsorbsAll(None, m.secret, source.secret)
            && (forall c :: c in source.public ==> AbsorbsSubkey(m, c))
  {
    var secret := MergeComponents(None, target.secret, source.secret);
    var first := MergeIntoSecret(
      Subkeys(secret, Partition(target.public, secret, false)), Partition(target.public, secret, true));
    var m := MergeSecretSubkeys(target, source);
    MergeAllAbsorbs(None, target.secret, source.secret);
    MergeIntoSecretAbsorbs(
      Subkeys(secret, Partition(target.public, secret, false)), Partition(target.public, secret, true));
    MergeIntoSecretAbsorbs(first, source.public);
    forall c | c in source.secret
      ensures AbsorbsComponent(None, m.secret, c)
    {
      ComponentAbsorptionGrows(None, secret, m.secret, c);
    }
  }

  lemma SecretMergeAgain(target: Subkeys, source: Subkeys)
    ensures MergeSecretSubkeys(MergeSecretSubkeys(target, source), source) == MergeSecretSubkeys(target, source)
  {
    SecretMergePartitionsSubkeys(target, source);
    SecretMergeAbsorbs(target, source);
    AbsorbedSecretMergeChangesNothing(MergeSecretSubkeys(target, source), source);
  }

  // ----- a copy is absorbed by anything grown from it

  lemma OwnComponentsAbsorbed(primary: Option<PublicKey>, a: seq<Component>, b: seq<Component>)
    requires DistinctKeys(a) && Grows(a, b)
    ensures AbsorbsAll(primary, b, a)
  {
    forall i | 0 <= i < |a|
      ensures AbsorbsComponent(primary, b, a[i])
    {
      EntryIsFirst(a, i);
      FoundAgain(a, b, KeyOf(a[i].id));
    }
  }

  predicate WellPartitioned(sk: Subkeys) {
    DistinctKeys(sk.secret) && DistinctKeys(sk.public) && Keys(sk.secret) !! Keys(sk.public)
  }

  lemma OwnSubkeysAbsorbed(sk: Subkeys, incoming: seq<Component>)
    requires WellPartitioned(sk)
    ensures MergeSecretSubkeys(MergeIntoSecret(sk, incoming), sk) == MergeIntoSecret(sk, incoming)
  {
    var m := MergeIntoSecret(sk, incoming);
    MergeIntoSecretAbsorbs(sk, incoming);
    KeysIntoSecret(sk, incoming);
    OwnComponentsAbsorbed(None, sk.secret, m.secret);
    OwnComponentsAbsorbed(None, sk.public, m.public);
    forall c | c in sk.public
      ensures AbsorbsSubkey(m, c)
    {
      assert KeyOf(c.id) in Keys(sk.public);
      FindHolds(m.secret, KeyOf(c.id));
    }
    AbsorbedSecretMergeChangesNothing(m, sk);
  }

  predicate DuplicateFree(details: Details) {
    NoDuplicates(details.direct) && NoDuplicates(details.revocations)
  }

  lemma OwnDetailsAbsorbed(primary: PublicKey, details: Details, incoming: Details)
    requires DistinctDetails(details)
    ensures var m := MergeDetails(primary, details, incoming);
            MergeDetails(primary, m, details) == m
  {
    var gate := Gate(primary, KeyTarget);
    var m := MergeDetails(primary, details, incoming);
    MergeExtends(gate, details.direct, incoming.direct);
    MergeExtends(gate, details.revocations, incoming.revocations);
    DedupProperties(MergeSigs(gate, details.direct, incoming.direct));
    DedupProperties(MergeSigs(gate, details.revocations, incoming.revocations));
    MergeAllGrows(Some(primary), details.users, incoming.users);
    MergeAllGrows(Some(primary), details.attributes, incoming.attributes);
    OwnComponentsAbsorbed(Some(primary), details.users, m.users);
    OwnComponentsAbsorbed(Some(primary), details.attributes, m.attributes);
    AbsorbedDetailsChangeNothing(primary, m, details);
  }

  lemma OwnCopyAbsorbed(primary: PublicKey, details: Details)
    requires DistinctDetails(details) && DuplicateFree(details)
    ensures MergeDetails(primary, details, details) == details
  {
    OwnComponentsAbsorbed(Some(primary), details.users, details.users);
    OwnComponentsAbsorbed(Some(primary), details.attributes, details.attributes);
    AbsorbedDetailsChangeNothing(primary, details, details);
  }

  /** The block a merge result is stored as; `reread` is whatever the other parser makes of it. */
  function Stored(m: Merged, reread: Option<PublicCert>): Block {
    match m
    case MergedSecret(sk) => Block(Some(sk), reread)
    case MergedPublic(pk) => Block(None, Some(pk))
  }

  /** The copy that receives the other one has no repeated key-level signatures. */
  predicate TidyTarget(a: Block, b: Block) {
    var target := if a.secret.None? && b.secret.Some? then CopyOf(b) else CopyOf(a);
    target.Some? ==> DuplicateFree(target.value.1)
  }

  predicate DistinctCopy(a: Block, b: Block) {
    && (CopyOf(b).Some? ==> DistinctDetails(CopyOf(b).value.1))
    && (a.secret.None? && b.secret.Some? ==> WellPartitioned(b.secret.value.subkeys))
  }

  /** merge(merge(a, b), b) == merge(a, b), with capped and dropped signatures, in every combination. */
  lemma MergeIsIdempotent(a: Block, b: Block, reread: Option<PublicCert>)
    requires TidyTarget(a, b) && DistinctCopy(a, b)
    requires MergeBlocks(a, b).Ok?
    ensures MergeBlocks(Stored(MergeBlocks(a, b).value, reread), b) == MergeBlocks(a, b)
  {
    if a.secret.Some? && b.secret.Some? {
      var target, source := a.secret.value, b.secret.value;
      MergedDetailsAbsorb(target.primary, target.details, source.details);
      AbsorbedDetailsChangeNothing(
        target.primary, MergeDetails(target.primary, target.details, source.details), source.details);
      SecretMergeAgain(target.subkeys, source.subkeys);
    } else if a.secret.Some? {
      if b.public.Some? {
        PublicIntoSecretAgain(a.secret.value, b.public.value);
      }
    } else if b.secret.Some? {
      SecretAfterPublic(a.public, b.secret.value);
    } else {
      var target, source := a.public.value, b.public.value;
      MergedDetailsAbsorb(target.primary, target.details, source.details);
      AbsorbedDetailsChangeNothing(
        target.primary, MergeDetails(target.primary, target.details, source.details), source.details);
      MergeAllAbsorbs(None, target.subkeys, source.subkeys);
      AbsorbedComponentsChangeNothing(
        None, MergeComponents(None, target.subkeys, source.subkeys), source.subkeys);
    }
  }

  lemma PublicIntoSecretAgain(target: SecretCert, source: PublicCert)
    requires DuplicateFree(target.details) && DistinctDetails(source.details)
    ensures var m := MergePublicIntoSecret(target, source);
            MergePublicIntoSecret(m, source) == m
  {
    MergedDetailsAbsorb(target.primary, target.details, source.details);
    AbsorbedDetailsChangeNothing(
      target.primary, MergeDetails(target.primary, target.details, source.details), source.details);
    MergeIntoSecretAbsorbs(target.subkeys, source.subkeys);
    AbsorbedSubkeysChangeNothing(MergeIntoSecret(target.subkeys, source.subkeys), source.subkeys);
  }

  lemma SecretAfterPublic(other: Option<PublicCert>, target: SecretCert)
    requires DuplicateFree(target.details) && DistinctDetails(target.details)
    requires WellPartitioned(target.subkeys)
    requires EnrichSecret(target, other).Ok?
    ensures var m := EnrichSecret(target, other).value.sk;
            m.primary == target.primary && MergeSecretIntoSecret(m, target) == m
  {
    if other.None? {
      OwnCopyAbsorbed(target.primary, target.details);
      assert MergeIntoSecret(target.subkeys, []) == target.subkeys;
      OwnSubkeysAbsorbed(target.subkeys, []);
    } else {
      OwnDetailsAbsorbed(target.primary, target.details, other.value.details);
      OwnSubkeysAbsorbed(target.subkeys, other.value.subkeys);
    }
  }
}
