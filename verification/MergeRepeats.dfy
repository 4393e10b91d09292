/**
 * Merging the same copy again: exactly when it changes nothing, said of the two
 * copies.
 */
module MergeRepeats {
  import opened Common
  import opened Certificates
  import opened Merging
  import opened MergeRevocation
  import opened MergeIdempotence
  import opened MergeSubkeys
  import opened MergeCap

  // ----- key-level signatures

  function SetOf(sigs: seq<Signature>): set<Signature> {
    set s | s in sigs
  }

  lemma {:induction false} SizeOfDistinct(sigs: seq<Signature>)
    requires NoDuplicates(sigs)
    ensures |SetOf(sigs)| == |sigs|
  {
    if sigs != [] {
      var front, last := sigs[..|sigs| - 1], sigs[|sigs| - 1];
      SizeOfDistinct(front);
      assert SetOf(sigs) == SetOf(front) + {last};
    }
  }

  /** Everything either list holds that a merge of `src` into `dst` leaves in place. */
  function Survivors(gate: Gate, dst: seq<Signature>, src: seq<Signature>): set<Signature> {
    set s | s in dst + src
      && (s in dst || if SelfIssued(gate, s) then Verifies(s, gate.primary, gate.target) else Fits(gate, dst, src, s))
  }

  lemma SurvivorsAreMerged(gate: Gate, dst: seq<Signature>, src: seq<Signature>)
    ensures SetOf(MergeSigs(gate, dst, src)) == Survivors(gate, dst, src)
  {
    forall s
      ensures s in MergeSigs(gate, dst, src) <==> s in Survivors(gate, dst, src)
    {
      MergedExactly(gate, dst, src, s);
    }
  }

  /** No foreign signature is left out, or what survives fills the list without repetitions. */
  predicate SignaturesRepeat(gate: Gate, dst: seq<Signature>, src: seq<Signature>) {
    || (forall s :: s in src && !SelfIssued(gate, s) ==> s in dst || Fits(gate, dst, src, s))
    || |Survivors(gate, dst, src)| >= MAX_MERGED_SIGNATURES
  }

  lemma DedupedSize(gate: Gate, dst: seq<Signature>, src: seq<Signature>)
    ensures |Dedup(MergeSigs(gate, dst, src))| == |Survivors(gate, dst, src)|
    ensures forall s :: s in Dedup(MergeSigs(gate, dst, src)) <==> s in Survivors(gate, dst, src)
  {
    var m := MergeSigs(gate, dst, src);
    DedupProperties(m);
    SurvivorsAreMerged(gate, dst, src);
    assert SetOf(Dedup(m)) == SetOf(m);
    SizeOfDistinct(Dedup(m));
  }

  /** A deduplicated list is left alone by a merge exactly when it absorbs it. */
  lemma UnchangedSignatures(gate: Gate, m: seq<Signature>, src: seq<Signature>)
    requires NoDuplicates(m)
    ensures Dedup(MergeSigs(gate, m, src)) == m <==> Absorbs(gate, m, src)
  {
    MergeKeepsDistinct(gate, m, src);
    DedupProperties(MergeSigs(gate, m, src));
    MergeAbsorbs(gate, m, src);
    if Absorbs(gate, m, src) {
      AbsorbedChangesNothing(gate, m, src);
    }
  }

  /**
   * Merging again changes nothing exactly when the first merge left no foreign
   * signature out, or what survived it still fills the list once repetitions are
   * removed. Both are said of the two lists alone.
   */
  lemma RepeatedMergeExactly(gate: Gate, dst: seq<Signature>, src: seq<Signature>)
    ensures var m := Dedup(MergeSigs(gate, dst, src));
            Dedup(MergeSigs(gate, m, src)) == m <==> SignaturesRepeat(gate, dst, src)
  {
    var m := Dedup(MergeSigs(gate, dst, src));
    DedupProperties(MergeSigs(gate, dst, src));
    DedupedSize(gate, dst, src);
    UnchangedSignatures(gate, m, src);
    assert Absorbs(gate, m, src) <==> SignaturesRepeat(gate, dst, src) by {
      forall s | s in src
        ensures Admits(gate, m, s)
                <==> !SelfIssued(gate, s) && s !in dst && !Fits(gate, dst, src, s) && |m| < MAX_MERGED_SIGNATURES
      {
        assert s in m <==> s in Survivors(gate, dst, src);
      }
    }
  }

  // ----- components

  /** All signatures that components with this key carry, in order. */
  function SigsFor(components: seq<Component>, key: ComponentKey): seq<Signature> {
    if components == [] then []
    else
      var rest := SigsFor(components[..|components| - 1], key);
      var last := components[|components| - 1];
      if KeyOf(last.id) == key then rest + last.signatures else rest
  }

  lemma SigsForLast(front: seq<Component>, last: Component, key: ComponentKey)
    ensures SigsFor(front + [last], key)
            == if KeyOf(last.id) == key then SigsFor(front, key) + last.signatures else SigsFor(front, key)
  {
    assert (front + [last])[..|front|] == front;
  }

  lemma {:induction false} SigsForHolds(components: seq<Component>, i: nat)
    requires i < |components|
    ensures forall s :: s in components[i].signatures ==> s in SigsFor(components, KeyOf(components[i].id))
  {
    if i < |components| - 1 {
      SigsForHolds(components[..|components| - 1], i);
    }
  }

  /** The first component with this key that may be taken over, or the length. */
  function FirstWelcome(primary: Option<PublicKey>, src: seq<Component>, key: ComponentKey): (j: nat)
    ensures j <= |src|
    ensures j < |src| ==> KeyOf(src[j].id) == key && Welcome(primary, src[j])
    ensures forall i :: 0 <= i < j ==> KeyOf(src[i].id) != key || !Welcome(primary, src[i])
  {
    if src == [] then 0
    else
      var j := FirstWelcome(primary, src[..|src| - 1], key);
      var last := src[|src| - 1];
      if j < |src| - 1 then j
      else if KeyOf(last.id) == key && Welcome(primary, last) then j
      else |src|
  }

  function Topped(primary: Option<PublicKey>, c: Component, sigs: seq<Signature>): Component {
    c.(signatures := MergeSigs(GateFor(primary, c.id), c.signatures, sigs))
  }

  lemma ToppedTwice(primary: Option<PublicKey>, c: Component, a: seq<Signature>, b: seq<Signature>)
    ensures Topped(primary, Topped(primary, c, a), b) == Topped(primary, c, a + b)
  {
    MergeConcat(GateFor(primary, c.id), c.signatures, a, b);
  }

  /** The entry a merge ends with for this key, said of the two lists. */
  function FinalEntry(
    primary: Option<PublicKey>, dst: seq<Component>, src: seq<Component>, key: ComponentKey
  ): Option<Component>
  {
    if Entry(dst, key).Some? then Some(Topped(primary, Entry(dst, key).value, SigsFor(src, key)))
    else
      var j := FirstWelcome(primary, src, key);
      if j < |src| then Some(Topped(primary, src[j], SigsFor(src[j + 1..], key))) else None
  }

  /** What one more incoming component makes of an entry. */
  function EntryThen(
    primary: Option<PublicKey>, entry: Option<Component>, c: Component, key: ComponentKey
  ): Option<Component>
  {
    if KeyOf(c.id) == key then MergedEntry(primary, entry, c) else entry
  }

  lemma ToppedThen(primary: Option<PublicKey>, c: Component, front: seq<Component>, last: Component, key: ComponentKey)
    ensures EntryThen(primary, Some(Topped(primary, c, SigsFor(front, key))), last, key)
            == Some(Topped(primary, c, SigsFor(front + [last], key)))
  {
    SigsForLast(front, last, key);
    ToppedTwice(primary, c, SigsFor(front, key), last.signatures);
  }

  lemma FirstWelcomeStep(primary: Option<PublicKey>, front: seq<Component>, last: Component, key: ComponentKey)
    ensures var j := FirstWelcome(primary, front, key);
            FirstWelcome(primary, front + [last], key)
            == if j < |front| || (KeyOf(last.id) == key && Welcome(primary, last)) then j else |front| + 1
  {
    assert (front + [last])[..|front|] == front;
  }

  lemma FinalEntryStep(
    primary: Option<PublicKey>, dst: seq<Component>, front: seq<Component>, last: Component, key: ComponentKey
  )
    ensures FinalEntry(primary, dst, front + [last], key)
            == EntryThen(primary, FinalEntry(primary, dst, front, key), last, key)
  {
    var src, j := front + [last], FirstWelcome(primary, front, key);
    FirstWelcomeStep(primary, front, last, key);
    if Entry(dst, key).Some? {
      ToppedThen(primary, Entry(dst, key).value, front, last, key);
    } else if j < |front| {
      assert src[j + 1..] == front[j + 1..] + [last];
      ToppedThen(primary, src[j], front[j + 1..], last, key);
    } else {
      assert src[|src|..] == [];
      NoneThen(primary, last);
    }
  }

  lemma NoneThen(primary: Option<PublicKey>, last: Component)
    ensures Topped(primary, last, []) == last
  {
  }

  /** Merging any two lists, with repetitions or not, gives each key its final entry. */
  lemma {:induction false} EntryIsFinal(
    primary: Option<PublicKey>, dst: seq<Component>, src: seq<Component>, key: ComponentKey
  )
    ensures Entry(MergeComponents(primary, dst, src), key) == FinalEntry(primary, dst, src, key)
    decreases |src|
  {
    if src == [] {
      assert FirstWelcome(primary, src, key) == 0;
    } else {
      var front, last := src[..|src| - 1], src[|src| - 1];
      EntryIsFinal(primary, dst, front, key);
      EntryAfterMerge(primary, MergeComponents(primary, dst, front), last, key);
      FinalEntryStep(primary, dst, front, last, key);
      assert src == front + [last];
    }
  }

  predicate AbsorbedBy(primary: Option<PublicKey>, entry: Option<Component>, c: Component) {
    if entry.Some? then Absorbs(GateFor(primary, entry.value.id), entry.value.signatures, c.signatures)
    else !Welcome(primary, c)
  }

  lemma AbsorbedByEntry(primary: Option<PublicKey>, dst: seq<Component>, c: Component)
    ensures AbsorbsComponent(primary, dst, c) <==> AbsorbedBy(primary, Entry(dst, KeyOf(c.id)), c)
  {
  }

  lemma GrowsBothWays(a: seq<Component>, b: seq<Component>)
    requires Grows(a, b) && Grows(b, a)
    ensures a == b
  {
    forall i | 0 <= i < |a|
      ensures a[i] == b[i]
    {
      assert a[i].signatures == b[i].signatures;
    }
  }

  lemma {:induction false} UnchangedMeansAbsorbed(
    primary: Option<PublicKey>, dst: seq<Component>, src: seq<Component>
  )
    requires MergeComponents(primary, dst, src) == dst
    ensures AbsorbsAll(primary, dst, src)
    decreases |src|
  {
    if src != [] {
      var front, last := src[..|src| - 1], src[|src| - 1];
      MergeAllGrows(primary, dst, front);
      MergeGrows(primary, MergeComponents(primary, dst, front), last);
      GrowsBothWays(dst, MergeComponents(primary, dst, front));
      UnchangedMeansAbsorbed(primary, dst, front);
      MergedIsAbsorbed(primary, dst, last);
      assert src == front + [last];
    }
  }

  /** A list is left alone by a merge exactly when it absorbs every incoming component. */
  lemma UnchangedComponents(primary: Option<PublicKey>, dst: seq<Component>, src: seq<Component>)
    ensures MergeComponents(primary, dst, src) == dst <==> AbsorbsAll(primary, dst, src)
  {
    if AbsorbsAll(primary, dst, src) {
      AbsorbedComponentsChangeNothing(primary, dst, src);
    } else if MergeComponents(primary, dst, src) == dst {
      UnchangedMeansAbsorbed(primary, dst, src);
    }
  }

  /** Dropped by the first merge, which then took over a later component of the same key. */
  predicate DroppedEarly(primary: Option<PublicKey>, dst: seq<Component>, src: seq<Component>, i: nat) {
    && i < |src|
    && Entry(dst, KeyOf(src[i].id)).None?
    && i < FirstWelcome(primary, src, KeyOf(src[i].id)) < |src|
  }

  /** Whatever was dropped early would add nothing to its key's final entry. */
  predicate ComponentsRepeat(primary: Option<PublicKey>, dst: seq<Component>, src: seq<Component>) {
    forall i :: 0 <= i < |src| && DroppedEarly(primary, dst, src, i) ==>
      AbsorbedBy(primary, FinalEntry(primary, dst, src, KeyOf(src[i].id)), src[i])
  }

  lemma PartAbsorbed(gate: Gate, base: seq<Signature>, all: seq<Signature>, part: seq<Signature>)
    requires forall s :: s in part ==> s in base || s in all
    ensures Absorbs(gate, MergeSigs(gate, base, all), part)
  {
    MergeExtends(gate, base, all);
    MergeAbsorbs(gate, base, all);
    assert forall s :: s in base ==> s in MergeSigs(gate, base, all);
  }

  lemma OthersAbsorbed(primary: Option<PublicKey>, dst: seq<Component>, src: seq<Component>, i: nat)
    requires i < |src| && !DroppedEarly(primary, dst, src, i)
    ensures AbsorbedBy(primary, FinalEntry(primary, dst, src, KeyOf(src[i].id)), src[i])
  {
    var key := KeyOf(src[i].id);
    var j := FirstWelcome(primary, src, key);
    if Entry(dst, key).Some? {
      var e := Entry(dst, key).value;
      SigsForHolds(src, i);
      PartAbsorbed(GateFor(primary, e.id), e.signatures, SigsFor(src, key), src[i].signatures);
    } else if j < |src| {
      if j < i {
        assert src[j + 1..][i - j - 1] == src[i];
        SigsForHolds(src[j + 1..], i - j - 1);
      }
      PartAbsorbed(GateFor(primary, src[j].id), src[j].signatures, SigsFor(src[j + 1..], key), src[i].signatures);
    }
  }

  /** Merging a list again changes nothing exactly when nothing dropped early would add to it. */
  lemma RepeatedComponentsExactly(primary: Option<PublicKey>, dst: seq<Component>, src: seq<Component>)
    ensures var once := MergeComponents(primary, dst, src);
            MergeComponents(primary, once, src) == once <==> ComponentsRepeat(primary, dst, src)
  {
    var once := MergeComponents(primary, dst, src);
    UnchangedComponents(primary, once, src);
    forall i | 0 <= i < |src|
      ensures AbsorbsComponent(primary, once, src[i])
              <==> AbsorbedBy(primary, FinalEntry(primary, dst, src, KeyOf(src[i].id)), src[i])
    {
      EntryIsFinal(primary, dst, src, KeyOf(src[i].id));
      AbsorbedByEntry(primary, once, src[i]);
    }
    forall i | 0 <= i < |src| && !DroppedEarly(primary, dst, src, i)
      ensures AbsorbsComponent(primary, once, src[i])
    {
      OthersAbsorbed(primary, dst, src, i);
    }
  }

  // ----- whole certificates

  /** What repeating a merge of the details asks of the two copies. */
  predicate DetailsRepeat(primary: PublicKey, base: Details, incoming: Details) {
    && SignaturesRepeat(Gate(primary, KeyTarget), base.direct, incoming.direct)
    && SignaturesRepeat(Gate(primary, KeyTarget), base.revocations, incoming.revocations)
    && ComponentsRepeat(Some(primary), base.users, incoming.users)
    && ComponentsRepeat(Some(primary), base.attributes, incoming.attributes)
  }

  lemma RepeatedDetailsExactly(primary: PublicKey, base: Details, incoming: Details)
    ensures var once := MergeDetails(primary, base, incoming);
            MergeDetails(primary, once, incoming) == once <==> DetailsRepeat(primary, base, incoming)
  {
    RepeatedMergeExactly(Gate(primary, KeyTarget), base.direct, incoming.direct);
    RepeatedMergeExactly(Gate(primary, KeyTarget), base.revocations, incoming.revocations);
    RepeatedComponentsExactly(Some(primary), base.users, incoming.users);
    RepeatedComponentsExactly(Some(primary), base.attributes, incoming.attributes);
  }

  /** Every component of `own` would add nothing to what `other` makes of it. */
  predicate OwnAbsorbed(primary: Option<PublicKey>, own: seq<Component>, other: seq<Component>) {
    forall c :: c in own ==> AbsorbedBy(primary, FinalEntry(primary, own, other, KeyOf(c.id)), c)
  }

  lemma OwnComponentsExactly(primary: Option<PublicKey>, own: seq<Component>, other: seq<Component>)
    ensures var m := MergeComponents(primary, own, other);
            MergeComponents(primary, m, own) == m <==> OwnAbsorbed(primary, own, other)
  {
    var m := MergeComponents(primary, own, other);
    UnchangedComponents(primary, m, own);
    forall c
      ensures AbsorbsComponent(primary, m, c)
              <==> AbsorbedBy(primary, FinalEntry(primary, own, other, KeyOf(c.id)), c)
    {
      EntryIsFinal(primary, own, other, KeyOf(c.id));
      AbsorbedByEntry(primary, m, c);
    }
  }

  lemma OwnSignaturesHeld(gate: Gate, own: seq<Signature>, other: seq<Signature>)
    ensures var m := Dedup(MergeSigs(gate, own, other));
            Dedup(MergeSigs(gate, m, own)) == m
  {
    var m := Dedup(MergeSigs(gate, own, other));
    MergeExtends(gate, own, other);
    DedupProperties(MergeSigs(gate, own, other));
    UnchangedSignatures(gate, m, own);
    assert forall s :: s in own ==> s in m;
  }

  /** A copy merged back into what grew from it: only repeated components matter. */
  lemma OwnDetailsExactly(primary: PublicKey, own: Details, other: Details)
    ensures var m := MergeDetails(primary, own, other);
            MergeDetails(primary, m, own) == m
            <==> && OwnAbsorbed(Some(primary), own.users, other.users)
                 && OwnAbsorbed(Some(primary), own.attributes, other.attributes)
  {
    OwnSignaturesHeld(Gate(primary, KeyTarget), own.direct, other.direct);
    OwnSignaturesHeld(Gate(primary, KeyTarget), own.revocations, other.revocations);
    OwnComponentsExactly(Some(primary), own.users, other.users);
    OwnComponentsExactly(Some(primary), own.attributes, other.attributes);
  }

  lemma SelfMergedSignatures(gate: Gate, own: seq<Signature>)
    ensures Dedup(MergeSigs(gate, own, own)) == own <==> NoDuplicates(own)
  {
    AbsorbedChangesNothing(gate, own, own);
    DedupProperties(own);
  }

  /** A copy merged with itself: repeated key-level signatures matter too. */
  lemma SelfMergeExactly(primary: PublicKey, own: Details)
    ensures MergeDetails(primary, own, own) == own
            <==> && DuplicateFree(own)
                 && OwnAbsorbed(Some(primary), own.users, [])
                 && OwnAbsorbed(Some(primary), own.attributes, [])
  {
    SelfMergedSignatures(Gate(primary, KeyTarget), own.direct);
    SelfMergedSignatures(Gate(primary, KeyTarget), own.revocations);
    OwnComponentsExactly(Some(primary), own.users, []);
    OwnComponentsExactly(Some(primary), own.attributes, []);
  }
}
