/** Merging the same block again, in all four secret/public combinations: exactly when it changes nothing. */
module MergeBlockRepeats {
  import opened Common
  import opened Certificates
  import opened Merging
  import opened MergeRevocation
  import opened MergeIdempotence
  import opened MergeSubkeys
  import opened MergeRepeats

  // ----- where the subkeys of a secret key end up

  predicate HeldSecret(sk: Subkeys, key: ComponentKey) {
    Entry(sk.secret, key).Some?
  }

  /** What merging public subkeys makes of each entry of a secret key. */
  predicate EntriesFinal(own: Subkeys, other: seq<Component>, m: Subkeys, key: ComponentKey) {
    if HeldSecret(own, key) then
      && Entry(m.secret, key) == FinalEntry(None, own.secret, other, key)
      && Entry(m.public, key) == Entry(own.public, key)
    else
      && Entry(m.secret, key) == None
      && Entry(m.public, key) == FinalEntry(None, own.public, other, key)
  }

  lemma {:induction false} SubkeyEntriesFinal(own: Subkeys, other: seq<Component>, key: ComponentKey)
    ensures EntriesFinal(own, other, MergeIntoSecret(own, other), key)
    decreases |other|
  {
    if other == [] {
      EntryIsFinal(None, own.secret, [], key);
      EntryIsFinal(None, own.public, [], key);
    } else {
      var front, last := other[..|other| - 1], other[|other| - 1];
      SubkeyEntriesFinal(own, front, key);
      SubkeyEntriesFinal(own, front, KeyOf(last.id));
      assert other == front + [last];
      SubkeyEntriesStep(own, front, MergeIntoSecret(own, front), last, key);
    }
  }

  lemma SubkeyEntriesStep(own: Subkeys, front: seq<Component>, m: Subkeys, last: Component, key: ComponentKey)
    requires EntriesFinal(own, front, m, key) && EntriesFinal(own, front, m, KeyOf(last.id))
    ensures EntriesFinal(own, front + [last], MergeOneIntoSecret(m, last), key)
  {
    FinalEntryStep(None, own.secret, front, last, key);
    FinalEntryStep(None, own.public, front, last, key);
    EntryAfterMerge(None, m.secret, last, key);
    EntryAfterMerge(None, m.public, last, key);
    HeldAlike(own, front, m, KeyOf(last.id));
  }

  lemma HeldAlike(own: Subkeys, front: seq<Component>, m: Subkeys, key: ComponentKey)
    requires EntriesFinal(own, front, m, key)
    ensures HeldSecret(own, key) <==> Find(m.secret, key) < |m.secret|
  {
  }

  // ----- a secret key merged back into what grew from it

  predicate OwnSubkeysRepeat(own: Subkeys, other: seq<Component>) {
    && Keys(own.secret) !! Keys(own.public)
    && OwnAbsorbed(None, own.secret, other)
    && OwnAbsorbed(None, own.public, other)
  }

  lemma SecretAbsorbedFinally(own: Subkeys, other: seq<Component>, c: Component)
    requires c in own.secret
    ensures AbsorbsComponent(None, MergeIntoSecret(own, other).secret, c)
            <==> AbsorbedBy(None, FinalEntry(None, own.secret, other, KeyOf(c.id)), c)
  {
    FindHolds(own.secret, KeyOf(c.id));
    SubkeyEntriesFinal(own, other, KeyOf(c.id));
    AbsorbedByEntry(None, MergeIntoSecret(own, other).secret, c);
  }

  lemma PublicAbsorbedFinally(own: Subkeys, other: seq<Component>, c: Component)
    requires c in own.public && Keys(own.secret) !! Keys(own.public)
    ensures AbsorbsSubkey(MergeIntoSecret(own, other), c)
            <==> AbsorbedBy(None, FinalEntry(None, own.public, other, KeyOf(c.id)), c)
  {
    var m := MergeIntoSecret(own, other);
    assert KeyOf(c.id) in Keys(own.public);
    FindHolds(own.secret, KeyOf(c.id));
    SubkeyEntriesFinal(own, other, KeyOf(c.id));
    AbsorbedByEntry(None, m.public, c);
  }

  lemma UnchangedSecretMerge(m: Subkeys, source: Subkeys)
    ensures MergeSecretSubkeys(m, source) == m
            <==> && Keys(m.secret) !! Keys(m.public)
                 && AbsorbsAll(None, m.secret, source.secret)
                 && (forall c :: c in source.public ==> AbsorbsSubkey(m, c))
  {
    if Keys(m.secret) !! Keys(m.public)
       && AbsorbsAll(None, m.secret, source.secret)
       && (forall c :: c in source.public ==> AbsorbsSubkey(m, c)) {
      AbsorbedSecretMergeChangesNothing(m, source);
    } else {
      SecretMergePartitionsSubkeys(m, source);
      SecretMergeAbsorbs(m, source);
    }
  }

  lemma OwnSubkeysExactly(own: Subkeys, other: seq<Component>)
    ensures var m := MergeIntoSecret(own, other);
            MergeSecretSubkeys(m, own) == m <==> OwnSubkeysRepeat(own, other)
  {
    var m := MergeIntoSecret(own, other);
    UnchangedSecretMerge(m, own);
    KeysIntoSecret(own, other);
    forall c | c in own.secret
      ensures AbsorbsComponent(None, m.secret, c)
              <==> AbsorbedBy(None, FinalEntry(None, own.secret, other, KeyOf(c.id)), c)
    {
      SecretAbsorbedFinally(own, other, c);
    }
    if Keys(own.secret) !! Keys(own.public) {
      forall c | c in own.public
        ensures AbsorbsSubkey(m, c)
                <==> AbsorbedBy(None, FinalEntry(None, own.public, other, KeyOf(c.id)), c)
      {
        PublicAbsorbedFinally(own, other, c);
      }
    }
  }

  // ----- blocks

  /** A secret copy that took in a public one, and is then merged with itself again. */
  predicate OwnRepeats(own: SecretCert, other: Option<PublicCert>) {
    if other.None? then
      && DuplicateFree(own.details)
      && OwnAbsorbed(Some(own.primary), own.details.users, [])
      && OwnAbsorbed(Some(own.primary), own.details.attributes, [])
      && OwnSubkeysRepeat(own.subkeys, [])
    else
      && OwnAbsorbed(Some(own.primary), own.details.users, other.value.details.users)
      && OwnAbsorbed(Some(own.primary), own.details.attributes, other.value.details.attributes)
      && OwnSubkeysRepeat(own.subkeys, other.value.subkeys)
  }

  lemma OwnRepeatsExactly(own: SecretCert, other: Option<PublicCert>)
    requires EnrichSecret(own, other).Ok?
    ensures var m := EnrichSecret(own, other).value.sk;
            m.primary == own.primary && (MergeSecretIntoSecret(m, own) == m <==> OwnRepeats(own, other))
  {
    if other.None? {
      SelfMergeExactly(own.primary, own.details);
      assert MergeIntoSecret(own.subkeys, []) == own.subkeys;
      OwnSubkeysExactly(own.subkeys, []);
    } else {
      OwnDetailsExactly(own.primary, own.details, other.value.details);
      OwnSubkeysExactly(own.subkeys, other.value.subkeys);
    }
  }

  /** What repeating a merge asks of the two blocks. */
  predicate BlocksRepeat(a: Block, b: Block)
    requires MergeBlocks(a, b).Ok?
  {
    if a.secret.Some? && b.secret.Some? then
      DetailsRepeat(a.secret.value.primary, a.secret.value.details, b.secret.value.details)
    else if a.secret.Some? then
      b.public.Some? ==> DetailsRepeat(a.secret.value.primary, a.secret.value.details, b.public.value.details)
    else if b.secret.Some? then OwnRepeats(b.secret.value, a.public)
    else DetailsRepeat(a.public.value.primary, a.public.value.details, b.public.value.details)
  }

  /** merge(merge(a, b), b) == merge(a, b) exactly when the two blocks say so, in every combination. */
  lemma RepeatedBlocksExactly(a: Block, b: Block, reread: Option<PublicCert>)
    requires MergeBlocks(a, b).Ok?
    ensures MergeBlocks(Stored(MergeBlocks(a, b).value, reread), b) == MergeBlocks(a, b) <==> BlocksRepeat(a, b)
  {
    if a.secret.Some? && b.secret.Some? {
      var target, source := a.secret.value, b.secret.value;
      RepeatedDetailsExactly(target.primary, target.details, source.details);
      SecretMergeAgain(target.subkeys, source.subkeys);
    } else if a.secret.Some? {
      if b.public.Some? {
        RepeatedPublicExactly(a.secret.value, b.public.value);
      }
    } else if b.secret.Some? {
      OwnRepeatsExactly(b.secret.value, a.public);
    } else {
      var target, source := a.public.value, b.public.value;
      RepeatedDetailsExactly(target.primary, target.details, source.details);
      MergeAllAbsorbs(None, target.subkeys, source.subkeys);
      AbsorbedComponentsChangeNothing(
        None, MergeComponents(None, target.subkeys, source.subkeys), source.subkeys);
    }
  }

  lemma RepeatedPublicExactly(target: SecretCert, source: PublicCert)
    ensures var m := MergePublicIntoSecret(target, source);
            MergePublicIntoSecret(m, source) == m <==> DetailsRepeat(target.primary, target.details, source.details)
  {
    RepeatedDetailsExactly(target.primary, target.details, source.details);
    MergeIntoSecretAbsorbs(target.subkeys, source.subkeys);
    AbsorbedSubkeysChangeNothing(MergeIntoSecret(target.subkeys, source.subkeys), source.subkeys);
  }
}
