/**
 * What merging two blocks does to a subkey, in all four secret/public combinations:
 * the signatures it ends with, and exactly when it is then revoked.
 */
module MergeSubkeyVerdicts {
  import opened Common
  import opened Certificates
  import opened Merging
  import opened MergeRevocation
  import opened MergeSubkeys
  import opened MergeCap
  import opened MergeRepeats
  import opened MergeBlockRepeats

  // ----- the subkey a block or a merge result holds

  function InSubkeys(sk: Subkeys, key: ComponentKey): Option<Component> {
    if Entry(sk.secret, key).Some? then Entry(sk.secret, key) else Entry(sk.public, key)
  }

  function SubkeyIn(m: Merged, key: ComponentKey): Option<Component> {
    match m
    case MergedSecret(sk) => InSubkeys(sk.subkeys, key)
    case MergedPublic(pk) => Entry(pk.subkeys, key)
  }

  function HeldBy(block: Block, key: ComponentKey): Option<Component> {
    if block.secret.Some? then InSubkeys(block.secret.value.subkeys, key)
    else if block.public.Some? then Entry(block.public.value.subkeys, key)
    else None
  }

  // ----- the signatures it ends with

  /** The component the merged subkey starts from, and the signatures offered to it, in order. */
  datatype Contribution = Contribution(first: Component, more: seq<Signature>)

  function Whole(c: Option<Contribution>): Option<Component> {
    if c.None? then None else Some(Topped(None, c.value.first, c.value.more))
  }

  function Parts(dst: seq<Component>, src: seq<Component>, key: ComponentKey): Option<Contribution> {
    if Entry(dst, key).Some? then Some(Contribution(Entry(dst, key).value, SigsFor(src, key)))
    else
      var j := FirstWelcome(None, src, key);
      if j < |src| then Some(Contribution(src[j], SigsFor(src[j + 1..], key))) else None
  }

  lemma PartsAreWhole(dst: seq<Component>, src: seq<Component>, key: ComponentKey)
    ensures Whole(Parts(dst, src, key)) == FinalEntry(None, dst, src, key)
  {
  }

  function IntoSecret(own: Subkeys, other: seq<Component>, key: ComponentKey): Option<Contribution> {
    if HeldSecret(own, key) then Parts(own.secret, other, key) else Parts(own.public, other, key)
  }

  lemma IntoSecretIsWhole(own: Subkeys, other: seq<Component>, key: ComponentKey)
    ensures InSubkeys(MergeIntoSecret(own, other), key) == Whole(IntoSecret(own, other, key))
  {
    SubkeyEntriesFinal(own, other, key);
    PartsAreWhole(own.secret, other, key);
    PartsAreWhole(own.public, other, key);
  }

  /** Two secret keys: the secret copies first, then what either holds without the secret part. */
  function BothSecret(target: Subkeys, source: Subkeys, key: ComponentKey): Option<Contribution> {
    var held := Parts(target.secret, source.secret, key);
    if held.Some? then
      Some(Contribution(
        held.value.first,
        held.value.more + (SigsFor(target.public, key) + SigsFor(source.public, key))))
    else Parts(target.public, source.public, key)
  }

  lemma {:induction false} PartitionSigs(public: seq<Component>, secret: seq<Component>, held: bool, key: ComponentKey)
    ensures SigsFor(Partition(public, secret, held), key)
            == if Holds(secret, key) == held then SigsFor(public, key) else []
  {
    if public != [] {
      var front, last := public[..|public| - 1], public[|public| - 1];
      PartitionSigs(front, secret, held, key);
      SigsForLast(Partition(front, secret, held), last, key);
    }
  }

  lemma {:induction false} PartitionEntry(public: seq<Component>, secret: seq<Component>, held: bool, key: ComponentKey)
    ensures Entry(Partition(public, secret, held), key)
            == if Holds(secret, key) == held then Entry(public, key) else None
  {
    if public != [] {
      var front, last := public[..|public| - 1], public[|public| - 1];
      PartitionEntry(front, secret, held, key);
      assert public == front + [last];
      EntryOfMore(front, last, key);
      EntryOfMore(Partition(front, secret, held), last, key);
    }
  }

  lemma EntryOfMore(front: seq<Component>, last: Component, key: ComponentKey)
    ensures Entry(front + [last], key)
            == if Entry(front, key).Some? then Entry(front, key)
               else if KeyOf(last.id) == key then Some(last) else None
  {
    var all := front + [last];
    if Entry(front, key).Some? {
      EntryIsFirst(all, Find(front, key));
    } else if KeyOf(last.id) == key {
      EntryIsFirst(all, |front|);
    } else {
      assert forall j :: 0 <= j < |all| ==> KeyOf(all[j].id) != key;
    }
  }

  /** With nothing on offer for the key, its entry stays. */
  lemma NothingOffered(dst: seq<Component>, src: seq<Component>, key: ComponentKey)
    requires Entry(src, key).None?
    ensures FinalEntry(None, dst, src, key) == Entry(dst, key)
  {
    NoSigsFor(src, key);
    NoneWelcome(src, key);
  }

  lemma {:induction false} NoSigsFor(src: seq<Component>, key: ComponentKey)
    requires forall i :: 0 <= i < |src| ==> KeyOf(src[i].id) != key
    ensures SigsFor(src, key) == []
  {
    if src != [] {
      NoSigsFor(src[..|src| - 1], key);
    }
  }

  lemma NoneWelcome(src: seq<Component>, key: ComponentKey)
    requires forall i :: 0 <= i < |src| ==> KeyOf(src[i].id) != key
    ensures FirstWelcome(None, src, key) == |src|
  {
  }

  lemma DemotedFirst(target: Subkeys, secret: seq<Component>, key: ComponentKey)
    ensures var kept, demoted := Partition(target.public, secret, false), Partition(target.public, secret, true);
            var m := MergeIntoSecret(Subkeys(secret, kept), demoted);
            if Entry(secret, key).Some? then
              && Entry(m.secret, key) == Some(Topped(None, Entry(secret, key).value, SigsFor(target.public, key)))
            else
              && Entry(m.secret, key).None? && Entry(m.public, key) == Entry(target.public, key)
  {
    var kept, demoted := Partition(target.public, secret, false), Partition(target.public, secret, true);
    SubkeyEntriesFinal(Subkeys(secret, kept), demoted, key);
    FindHolds(secret, key);
    PartitionSigs(target.public, secret, true, key);
    PartitionEntry(target.public, secret, true, key);
    PartitionEntry(target.public, secret, false, key);
    if Entry(secret, key).None? {
      NothingOffered(kept, demoted, key);
    }
  }

  /** The last step of merging two secret keys, from what the demoted subkeys left. */
  lemma PublicLast(target: Subkeys, source: Subkeys, m: Subkeys, key: ComponentKey)
    requires var held := Parts(target.secret, source.secret, key);
             if held.Some? then
               Entry(m.secret, key)
               == Some(Topped(None, Topped(None, held.value.first, held.value.more), SigsFor(target.public, key)))
             else Entry(m.secret, key).None? && Entry(m.public, key) == Entry(target.public, key)
    ensures InSubkeys(MergeIntoSecret(m, source.public), key) == Whole(BothSecret(target, source, key))
  {
    SubkeyEntriesFinal(m, source.public, key);
    var held := Parts(target.secret, source.secret, key);
    if held.Some? {
      var c := held.value;
      ToppedThrice(c.first, c.more, SigsFor(target.public, key), SigsFor(source.public, key));
    } else {
      PartsAreWhole(target.public, source.public, key);
    }
  }

  lemma BothSecretIsWhole(target: Subkeys, source: Subkeys, key: ComponentKey)
    ensures InSubkeys(MergeSecretSubkeys(target, source), key) == Whole(BothSecret(target, source, key))
  {
    var secret := MergeComponents(None, target.secret, source.secret);
    EntryIsFinal(None, target.secret, source.secret, key);
    PartsAreWhole(target.secret, source.secret, key);
    DemotedFirst(target, secret, key);
    var m := MergeIntoSecret(
      Subkeys(secret, Partition(target.public, secret, false)), Partition(target.public, secret, true));
    PublicLast(target, source, m, key);
  }

  lemma ToppedThrice(c: Component, a: seq<Signature>, b: seq<Signature>, d: seq<Signature>)
    ensures Topped(None, Topped(None, Topped(None, c, a), b), d) == Topped(None, c, a + (b + d))
  {
    ToppedTwice(None, c, a, b);
    ToppedTwice(None, c, a + b, d);
    assert a + b + d == a + (b + d);
  }

  /** What each combination makes the merged subkey of, said of the two blocks. */
  function Contributed(a: Block, b: Block, key: ComponentKey): Option<Contribution>
    requires MergeBlocks(a, b).Ok?
  {
    if a.secret.Some? && b.secret.Some? then
      BothSecret(a.secret.value.subkeys, b.secret.value.subkeys, key)
    else if a.secret.Some? then IntoSecret(a.secret.value.subkeys, PublicSubkeys(b), key)
    else if b.secret.Some? then IntoSecret(b.secret.value.subkeys, PublicSubkeys(a), key)
    else Parts(PublicSubkeys(a), PublicSubkeys(b), key)
  }

  function PublicSubkeys(block: Block): seq<Component> {
    if block.public.Some? then block.public.value.subkeys else []
  }

  /** The merged subkey is its first component topped up with everything else on offer, up to the cap. */
  lemma SubkeyOfMerge(a: Block, b: Block, key: ComponentKey)
    requires MergeBlocks(a, b).Ok?
    ensures SubkeyIn(MergeBlocks(a, b).value, key) == Whole(Contributed(a, b, key))
  {
    if a.secret.Some? && b.secret.Some? {
      BothSecretIsWhole(a.secret.value.subkeys, b.secret.value.subkeys, key);
    } else if a.secret.Some? {
      EnrichedSubkey(a.secret.value, b, key);
    } else if b.secret.Some? {
      EnrichedSubkey(b.secret.value, a, key);
    } else {
      EntryIsFinal(None, PublicSubkeys(a), PublicSubkeys(b), key);
      PartsAreWhole(PublicSubkeys(a), PublicSubkeys(b), key);
    }
  }

  lemma EnrichedSubkey(own: SecretCert, other: Block, key: ComponentKey)
    requires EnrichSecret(own, other.public).Ok?
    ensures SubkeyIn(EnrichSecret(own, other.public).value, key)
            == Whole(IntoSecret(own.subkeys, PublicSubkeys(other), key))
  {
    IntoSecretIsWhole(own.subkeys, PublicSubkeys(other), key);
    assert MergeIntoSecret(own.subkeys, []) == own.subkeys;
  }

  // ----- verdicts

  /**
   * In every combination: the merged subkey is revoked at `t` exactly when its
   * first component was, or a revocation on offer comes before the cap is full.
   */
  lemma MergedSubkeyRevokedExactly(a: Block, b: Block, subkey: PublicKey, t: U32)
    requires MergeBlocks(a, b).Ok?
    requires Contributed(a, b, SubkeyKey(subkey.fingerprint)).Some?
    ensures var merged, key := MergeBlocks(a, b).value, SubkeyKey(subkey.fingerprint);
            var (primary, details) := MergedDetails(merged);
            var c := Contributed(a, b, key).value;
            var revoked := || RevokedAt(SubkeyRevocationState(primary, subkey, c.first.signatures), t)
                           || SomeRevocationFits(primary, subkey, c.first.signatures, c.more, t);
            && SubkeyIn(merged, key).Some?
            && var sigs := SubkeyIn(merged, key).value.signatures;
            && (RevokedAt(SubkeyRevocationState(primary, subkey, sigs), t) <==> revoked)
            && (SubkeySigningVerdict(primary, details, subkey, sigs, t) == Revoked
                <==> || PrimaryVerdict(primary, details, t) == Revoked
                     || (&& PrimaryVerdict(primary, details, t) == Authorized
                         && !Forbidden(subkey.algorithm) && subkey.created <= t && revoked))
  {
    var merged, key := MergeBlocks(a, b).value, SubkeyKey(subkey.fingerprint);
    var c := Contributed(a, b, key).value;
    SubkeyOfMerge(a, b, key);
    var sigs := SubkeyIn(merged, key).value.signatures;
    assert sigs == MergeSigs(NoGate, c.first.signatures, c.more);
    SubkeyRevokedExactly(MergedDetails(merged).0, subkey, c.first.signatures, c.more, t);
    RevokedVerdictMeans(MergedDetails(merged).0, MergedDetails(merged).1, subkey, sigs, t);
  }

  lemma RevokedVerdictMeans(primary: PublicKey, details: Details, subkey: PublicKey, sigs: seq<Signature>, t: U32)
    ensures SubkeySigningVerdict(primary, details, subkey, sigs, t) == Revoked
            <==> || PrimaryVerdict(primary, details, t) == Revoked
                 || (&& PrimaryVerdict(primary, details, t) == Authorized
                     && !Forbidden(subkey.algorithm) && subkey.created <= t
                     && RevokedAt(SubkeyRevocationState(primary, subkey, sigs), t))
  {
  }

  /** Everything a contribution offers fits under the cap. */
  predicate AllFit(c: Contribution) {
    || NewIn(c.first.signatures, c.more) == {}
    || |c.first.signatures| + |NewIn(c.first.signatures, c.more)| <= MAX_MERGED_SIGNATURES
  }

  predicate Offers(c: Contribution, sigs: seq<Signature>) {
    forall s :: s in sigs ==> s in c.first.signatures || s in c.more
  }

  lemma EntrySigsHeld(components: seq<Component>, key: ComponentKey)
    requires Entry(components, key).Some?
    ensures forall s :: s in Entry(components, key).value.signatures ==> s in SigsFor(components, key)
  {
    SigsForHolds(components, Find(components, key));
  }

  lemma FirstIsWelcome(src: seq<Component>, key: ComponentKey)
    requires Entry(src, key).Some?
    ensures FirstWelcome(None, src, key) < |src| && src[FirstWelcome(None, src, key)] == Entry(src, key).value
  {
    var i, j := Find(src, key), FirstWelcome(None, src, key);
    assert Welcome(None, src[i]);
  }

  lemma PartsOffer(dst: seq<Component>, src: seq<Component>, key: ComponentKey)
    ensures Entry(dst, key).Some? ==>
              Parts(dst, src, key).Some? && Offers(Parts(dst, src, key).value, Entry(dst, key).value.signatures)
    ensures Entry(src, key).Some? ==>
              Parts(dst, src, key).Some? && Offers(Parts(dst, src, key).value, Entry(src, key).value.signatures)
  {
    if Entry(src, key).Some? {
      EntrySigsHeld(src, key);
      FirstIsWelcome(src, key);
    }
  }

  lemma IntoSecretOffers(own: Subkeys, other: seq<Component>, key: ComponentKey)
    ensures InSubkeys(own, key).Some? ==>
              IntoSecret(own, other, key).Some? && Offers(IntoSecret(own, other, key).value, InSubkeys(own, key).value.signatures)
    ensures Entry(other, key).Some? ==>
              IntoSecret(own, other, key).Some? && Offers(IntoSecret(own, other, key).value, Entry(other, key).value.signatures)
  {
    PartsOffer(own.secret, other, key);
    PartsOffer(own.public, other, key);
  }

  lemma BothSecretOffers(target: Subkeys, source: Subkeys, key: ComponentKey)
    ensures InSubkeys(target, key).Some? ==>
              BothSecret(target, source, key).Some?
              && Offers(BothSecret(target, source, key).value, InSubkeys(target, key).value.signatures)
    ensures InSubkeys(source, key).Some? ==>
              BothSecret(target, source, key).Some?
              && Offers(BothSecret(target, source, key).value, InSubkeys(source, key).value.signatures)
  {
    PartsOffer(target.secret, source.secret, key);
    PartsOffer(target.public, source.public, key);
    if Entry(target.public, key).Some? {
      EntrySigsHeld(target.public, key);
    }
    if Entry(source.public, key).Some? {
      EntrySigsHeld(source.public, key);
    }
  }

  /** A subkey of either block contributes all its signatures. */
  lemma EveryCopyContributes(a: Block, b: Block, key: ComponentKey, c: Component)
    requires MergeBlocks(a, b).Ok?
    requires HeldBy(a, key) == Some(c) || HeldBy(b, key) == Some(c)
    ensures Contributed(a, b, key).Some? && Offers(Contributed(a, b, key).value, c.signatures)
  {
    if a.secret.Some? && b.secret.Some? {
      BothSecretOffers(a.secret.value.subkeys, b.secret.value.subkeys, key);
    } else if a.secret.Some? {
      IntoSecretOffers(a.secret.value.subkeys, PublicSubkeys(b), key);
    } else if b.secret.Some? {
      IntoSecretOffers(b.secret.value.subkeys, PublicSubkeys(a), key);
    } else {
      PartsOffer(PublicSubkeys(a), PublicSubkeys(b), key);
    }
  }

  /**
   * In every combination: a subkey revoked at `t` in either copy is revoked at `t`
   * after the merge, and so never authorised, if everything on offer fits.
   */
  lemma MergeNeverUnrevokesSubkeys(a: Block, b: Block, subkey: PublicKey, c: Component, t: U32)
    requires MergeBlocks(a, b).Ok?
    requires var key := SubkeyKey(subkey.fingerprint); HeldBy(a, key) == Some(c) || HeldBy(b, key) == Some(c)
    requires Contributed(a, b, SubkeyKey(subkey.fingerprint)).Some? ==>
               AllFit(Contributed(a, b, SubkeyKey(subkey.fingerprint)).value)
    requires RevokedAt(SubkeyRevocationState(MergedDetails(MergeBlocks(a, b).value).0, subkey, c.signatures), t)
    ensures var merged := MergeBlocks(a, b).value;
            var (primary, details) := MergedDetails(merged);
            var m := SubkeyIn(merged, SubkeyKey(subkey.fingerprint));
            && m.Some?
            && RevokedAt(SubkeyRevocationState(primary, subkey, m.value.signatures), t)
            && SubkeySigningVerdict(primary, details, subkey, m.value.signatures, t) != Authorized
  {
    var merged, key := MergeBlocks(a, b).value, SubkeyKey(subkey.fingerprint);
    var primary := MergedDetails(merged).0;
    EveryCopyContributes(a, b, key, c);
    var parts := Contributed(a, b, key).value;
    SubkeyOfMerge(a, b, key);
    RevokedBySome(primary, subkey, c.signatures, t);
    RevokedBySome(primary, subkey, parts.first.signatures, t);
    RevokedBySome(primary, subkey, parts.more, t);
    SubkeyStaysRevoked(primary, subkey, parts.first.signatures, parts.more, t);
  }
}
