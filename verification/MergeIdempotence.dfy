/** Merging the same copy twice changes nothing, for whole certificates in every combination. */
module MergeIdempotence {
  import opened Common
  import opened Certificates
  import opened Merging
  import opened MergeRevocation

  // ----- lists of components

  /** Merging `c` into `dst` would change nothing. */
  predicate AbsorbsComponent(primary: Option<PublicKey>, dst: seq<Component>, c: Component) {
    var i := Find(dst, KeyOf(c.id));
    if i < |dst| then Absorbs(GateFor(primary, dst[i].id), dst[i].signatures, c.signatures)
    else !Welcome(primary, c)
  }

  predicate AbsorbsAll(primary: Option<PublicKey>, dst: seq<Component>, src: seq<Component>) {
    forall c :: c in src ==> AbsorbsComponent(primary, dst, c)
  }

  /** `b` is `a` with signatures and components appended. */
  predicate Grows(a: seq<Component>, b: seq<Component>) {
    && |a| <= |b|
    && forall i :: 0 <= i < |a| ==> a[i].id == b[i].id && a[i].signatures <= b[i].signatures
  }

  lemma MergeGrows(primary: Option<PublicKey>, dst: seq<Component>, c: Component)
    ensures Grows(dst, MergeComponent(primary, dst, c))
  {
    var i := Find(dst, KeyOf(c.id));
    if i < |dst| {
      MergeExtends(GateFor(primary, dst[i].id), dst[i].signatures, c.signatures);
    }
  }

  lemma {:induction false} MergeAllGrows(primary: Option<PublicKey>, dst: seq<Component>, src: seq<Component>)
    ensures Grows(dst, MergeComponents(primary, dst, src))
  {
    if src != [] {
      MergeAllGrows(primary, dst, src[..|src| - 1]);
      MergeGrows(primary, MergeComponents(primary, dst, src[..|src| - 1]), src[|src| - 1]);
    }
  }

  lemma FoundAgain(a: seq<Component>, b: seq<Component>, key: ComponentKey)
    requires Grows(a, b)
    requires Find(a, key) < |a|
    ensures Find(b, key) == Find(a, key)
  {
    var i, j := Find(a, key), Find(b, key);
    assert KeyOf(b[i].id) == key;
    assert j < |a| ==> KeyOf(a[j].id) == key;
  }

  lemma ComponentAbsorptionGrows(primary: Option<PublicKey>, a: seq<Component>, b: seq<Component>, c: Component)
    requires Grows(a, b) && AbsorbsComponent(primary, a, c)
    requires Find(a, KeyOf(c.id)) == |a| ==> Find(b, KeyOf(c.id)) == |b|
    ensures AbsorbsComponent(primary, b, c)
  {
    var i := Find(a, KeyOf(c.id));
    if i < |a| {
      FoundAgain(a, b, KeyOf(c.id));
      AbsorptionGrows(GateFor(primary, a[i].id), a[i].signatures, b[i].signatures, c.signatures);
    }
  }

  lemma MergedIsAbsorbed(primary: Option<PublicKey>, dst: seq<Component>, c: Component)
    ensures AbsorbsComponent(primary, MergeComponent(primary, dst, c), c)
  {
    var m := MergeComponent(primary, dst, c);
    var i := Find(dst, KeyOf(c.id));
    if i < |dst| {
      MergeGrows(primary, dst, c);
      FoundAgain(dst, m, KeyOf(c.id));
      MergeAbsorbs(GateFor(primary, dst[i].id), dst[i].signatures, c.signatures);
    } else if Welcome(primary, c) {
      EntryAfterMerge(primary, dst, c, KeyOf(c.id));
      assert m[Find(m, KeyOf(c.id))] == c;
    }
  }

  lemma {:induction false} MergeAllAbsorbs(primary: Option<PublicKey>, dst: seq<Component>, src: seq<Component>)
    requires primary.Some? ==> DistinctKeys(src)
    ensures AbsorbsAll(primary, MergeComponents(primary, dst, src), src)
  {
    if src != [] {
      var front, last := src[..|src| - 1], src[|src| - 1];
      var before := MergeComponents(primary, dst, front);
      var after := MergeComponent(primary, before, last);
      MergeAllAbsorbs(primary, dst, front);
      MergeGrows(primary, before, last);
      forall c | c in front
        ensures AbsorbsComponent(primary, after, c)
      {
        assert AbsorbsComponent(primary, before, c);
        assert primary.Some? ==> KeyOf(c.id) != KeyOf(last.id);
        ComponentAbsorptionGrows(primary, before, after, c);
      }
      MergedIsAbsorbed(primary, before, last);
      assert src == front + [last];
    }
  }

  lemma {:induction false} AbsorbedComponentsChangeNothing(
    primary: Option<PublicKey>, dst: seq<Component>, src: seq<Component>
  )
    requires AbsorbsAll(primary, dst, src)
    ensures MergeComponents(primary, dst, src) == dst
  {
    if src != [] {
      var last := src[|src| - 1];
      AbsorbedComponentsChangeNothing(primary, dst, src[..|src| - 1]);
      var i := Find(dst, KeyOf(last.id));
      assert AbsorbsComponent(primary, dst, last);
      if i < |dst| {
        AbsorbedChangesNothing(GateFor(primary, dst[i].id), dst[i].signatures, last.signatures);
      }
    }
  }

  // ----- certificate details

  predicate AbsorbsDetails(primary: PublicKey, base: Details, incoming: Details) {
    && Absorbs(Gate(primary, KeyTarget), base.direct, incoming.direct)
    && Absorbs(Gate(primary, KeyTarget), base.revocations, incoming.revocations)
    && NoDuplicates(base.direct) && NoDuplicates(base.revocations)
    && AbsorbsAll(Some(primary), base.users, incoming.users)
    && AbsorbsAll(Some(primary), base.attributes, incoming.attributes)
  }

  lemma AbsorbedDetailsChangeNothing(primary: PublicKey, base: Details, incoming: Details)
    requires AbsorbsDetails(primary, base, incoming)
    ensures MergeDetails(primary, base, incoming) == base
  {
    AbsorbedChangesNothing(Gate(primary, KeyTarget), base.direct, incoming.direct);
    AbsorbedChangesNothing(Gate(primary, KeyTarget), base.revocations, incoming.revocations);
    DedupProperties(base.direct);
    DedupProperties(base.revocations);
    AbsorbedComponentsChangeNothing(Some(primary), base.users, incoming.users);
    AbsorbedComponentsChangeNothing(Some(primary), base.attributes, incoming.attributes);
  }

  predicate DistinctDetails(details: Details) {
    DistinctKeys(details.users) && DistinctKeys(details.attributes)
  }

  lemma MergedDetailsAbsorb(primary: PublicKey, base: Details, incoming: Details)
    requires NoDuplicates(base.direct) && NoDuplicates(base.revocations)
    requires DistinctDetails(incoming)
    ensures AbsorbsDetails(primary, MergeDetails(primary, base, incoming), incoming)
  {
    var gate := Gate(primary, KeyTarget);
    MergeAbsorbs(gate, base.direct, incoming.direct);
    MergeAbsorbs(gate, base.revocations, incoming.revocations);
    MergeKeepsDistinct(gate, base.direct, incoming.direct);
    MergeKeepsDistinct(gate, base.revocations, incoming.revocations);
    DedupProperties(MergeSigs(gate, base.direct, incoming.direct));
    DedupProperties(MergeSigs(gate, base.revocations, incoming.revocations));
    MergeAllAbsorbs(Some(primary), base.users, incoming.users);
    MergeAllAbsorbs(Some(primary), base.attributes, incoming.attributes);
  }

  // ----- subkeys of a secret key

  /** The list of `sk` that a merge of this key would touch. */
  function Home(sk: Subkeys, key: ComponentKey): seq<Component> {
    if Find(sk.secret, key) < |sk.secret| then sk.secret else sk.public
  }

  predicate AbsorbsSubkey(sk: Subkeys, c: Component) {
    AbsorbsComponent(None, Home(sk, KeyOf(c.id)), c)
  }

  /** Secret subkeys stay the same ones, public ones may be added. */
  predicate SubkeysGrow(a: Subkeys, b: Subkeys) {
    && Grows(a.secret, b.secret) && |a.secret| == |b.secret|
    && Grows(a.public, b.public)
  }

  lemma MergeOneSubkey(sk: Subkeys, c: Component)
    ensures SubkeysGrow(sk, MergeOneIntoSecret(sk, c))
    ensures AbsorbsSubkey(MergeOneIntoSecret(sk, c), c)
  {
    var key := KeyOf(c.id);
    var m := MergeOneIntoSecret(sk, c);
    if Find(sk.secret, key) < |sk.secret| {
      MergeGrows(None, sk.secret, c);
      FoundAgain(sk.secret, m.secret, key);
      MergedIsAbsorbed(None, sk.secret, c);
    } else {
      MergeGrows(None, sk.public, c);
      MergedIsAbsorbed(None, sk.public, c);
    }
  }

  lemma SubkeyAbsorptionGrows(a: Subkeys, b: Subkeys, c: Component)
    requires SubkeysGrow(a, b) && AbsorbsSubkey(a, c)
    ensures AbsorbsSubkey(b, c)
  {
    var key := KeyOf(c.id);
    if Find(a.secret, key) < |a.secret| {
      FoundAgain(a.secret, b.secret, key);
      ComponentAbsorptionGrows(None, a.secret, b.secret, c);
    } else {
      assert forall j :: 0 <= j < |a.secret| ==> KeyOf(b.secret[j].id) != key;
      ComponentAbsorptionGrows(None, a.public, b.public, c);
    }
  }

  lemma {:induction false} MergeIntoSecretAbsorbs(sk: Subkeys, incoming: seq<Component>)
    ensures SubkeysGrow(sk, MergeIntoSecret(sk, incoming))
    ensures forall c :: c in incoming ==> AbsorbsSubkey(MergeIntoSecret(sk, incoming), c)
  {
    if incoming != [] {
      var front, last := incoming[..|incoming| - 1], incoming[|incoming| - 1];
      var before := MergeIntoSecret(sk, front);
      MergeIntoSecretAbsorbs(sk, front);
      MergeOneSubkey(before, last);
      forall c | c in front
        ensures AbsorbsSubkey(MergeOneIntoSecret(before, last), c)
      {
        SubkeyAbsorptionGrows(before, MergeOneIntoSecret(before, last), c);
      }
      assert incoming == front + [last];
      assert SubkeysGrow(sk, MergeOneIntoSecret(before, last));
    }
  }

  lemma {:induction false} AbsorbedSubkeysChangeNothing(sk: Subkeys, incoming: seq<Component>)
    requires forall c :: c in incoming ==> AbsorbsSubkey(sk, c)
    ensures MergeIntoSecret(sk, incoming) == sk
  {
    if incoming != [] {
      var last := incoming[|incoming| - 1];
      AbsorbedSubkeysChangeNothing(sk, incoming[..|incoming| - 1]);
      assert AbsorbsSubkey(sk, last);
      assert [last][..0] == [];
      AbsorbedComponentsChangeNothing(None, Home(sk, KeyOf(last.id)), [last]);
      assert MergeComponents(None, Home(sk, KeyOf(last.id)), [])  == Home(sk, KeyOf(last.id));
    }
  }
}
