/** User IDs that only look alike, and which of them a merge keeps. */
module MergeLimits {
  import opened Common
  import opened Certificates
  import opened Merging
  import opened MergeRevocation
  import opened MergeIdempotence
  import opened MergeRepeats

  /** Whatever a merge appends has a key that nothing before it has. */
  lemma {:induction false} AppendedAreNew(primary: Option<PublicKey>, dst: seq<Component>, src: seq<Component>)
    ensures var m := MergeComponents(primary, dst, src);
            && |dst| <= |m|
            && forall i, j :: 0 <= i < j < |m| && |dst| <= j ==> KeyOf(m[i].id) != KeyOf(m[j].id)
  {
    if src != [] {
      AppendedAreNew(primary, dst, src[..|src| - 1]);
      MergeGrows(primary, MergeComponents(primary, dst, src[..|src| - 1]), src[|src| - 1]);
    }
  }

  /** The User ID a list holds under this text. */
  function IdFor(users: seq<Component>, key: ComponentKey): Option<ComponentId> {
    if Entry(users, key).Some? then Some(Entry(users, key).value.id) else None
  }

  /** The User ID of the first certified entry under this text. */
  function CertifiedIdFor(primary: PublicKey, users: seq<Component>, key: ComponentKey): Option<ComponentId> {
    var j := FirstWelcome(Some(primary), users, key);
    if j < |users| then Some(users[j].id) else None
  }

  lemma IdAfterMerge(primary: PublicKey, dst: seq<Component>, src: seq<Component>, key: ComponentKey)
    ensures IdFor(MergeComponents(Some(primary), dst, src), key)
            == if IdFor(dst, key).Some? then IdFor(dst, key) else CertifiedIdFor(primary, src, key)
  {
    EntryIsFinal(Some(primary), dst, src, key);
  }

  predicate HasId(users: seq<Component>, id: ComponentId) {
    exists u :: u in users && u.id == id
  }

  /**
   * A User ID is stored after the merge exactly when the target had it already, or
   * had nothing that reads the same and the first certified incoming entry that
   * does is this one.
   */
  lemma UserIdSurvivesExactly(primary: PublicKey, dst: seq<Component>, src: seq<Component>, id: ComponentId)
    ensures HasId(MergeComponents(Some(primary), dst, src), id)
            <==> || HasId(dst, id)
                 || (IdFor(dst, KeyOf(id)).None? && CertifiedIdFor(primary, src, KeyOf(id)) == Some(id))
  {
    var m, key := MergeComponents(Some(primary), dst, src), KeyOf(id);
    MergeAllGrows(Some(primary), dst, src);
    IdAfterMerge(primary, dst, src, key);
    AppendedAreNew(Some(primary), dst, src);
    if HasId(dst, id) {
      var i :| 0 <= i < |dst| && dst[i].id == id;
      assert m[i].id == id && m[i] in m;
    } else if IdFor(m, key) == Some(id) {
      IdForIsHeld(m, key);
      if IdFor(dst, key).Some? {
        IdForIsHeld(dst, key);
      }
    } else if HasId(m, id) {
      var i :| 0 <= i < |m| && m[i].id == id;
      assert |dst| <= i;
      EntryIsFirst(m, i);
    }
  }

  lemma IdForIsHeld(users: seq<Component>, key: ComponentKey)
    requires IdFor(users, key).Some?
    ensures HasId(users, IdFor(users, key).value)
  {
    assert users[Find(users, key)] in users;
  }

  /** Two lists hold one User ID under this text, or the only one that holds one has it certified first. */
  predicate OneUserId(primary: PublicKey, a: seq<Component>, b: seq<Component>, key: ComponentKey) {
    if IdFor(a, key).Some? && IdFor(b, key).Some? then IdFor(a, key) == IdFor(b, key)
    else if IdFor(a, key).Some? then CertifiedIdFor(primary, a, key) == IdFor(a, key)
    else CertifiedIdFor(primary, b, key) == IdFor(b, key)
  }

  /** Both merge orders keep the same User ID under a text exactly when the two copies hold one between them. */
  lemma MergeOrderKeepsUserIdExactly(primary: PublicKey, a: seq<Component>, b: seq<Component>, key: ComponentKey)
    ensures IdFor(MergeComponents(Some(primary), a, b), key) == IdFor(MergeComponents(Some(primary), b, a), key)
            <==> OneUserId(primary, a, b, key)
  {
    IdAfterMerge(primary, a, b, key);
    IdAfterMerge(primary, b, a, key);
  }
}
