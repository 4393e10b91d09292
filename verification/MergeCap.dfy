/** The cap on merged signatures: exactly which ones it leaves out, and what that can cost a subkey. */
module MergeCap {
  import opened Common
  import opened Certificates
  import opened Merging
  import opened MergeRevocation

  // ----- which signatures a merge keeps

  function NewIn(dst: seq<Signature>, src: seq<Signature>): set<Signature> {
    set s | s in src && s !in dst
  }

  /** The incoming signatures a merge without a cap would add. */
  function Wanted(gate: Gate, dst: seq<Signature>, src: seq<Signature>): set<Signature> {
    set s | s in src && s !in dst && (SelfIssued(gate, s) ==> Verifies(s, gate.primary, gate.target))
  }

  lemma {:induction false} SizeOfMerge(gate: Gate, dst: seq<Signature>, src: seq<Signature>)
    ensures var m := MergeSigs(gate, dst, src);
            |m| == |dst| + |NewIn(dst, m)| && NewIn(dst, m) <= Wanted(gate, dst, src)
  {
    if src == [] {
      assert NewIn(dst, dst) == {};
    } else {
      var front, last := src[..|src| - 1], src[|src| - 1];
      var before := MergeSigs(gate, dst, front);
      SizeOfMerge(gate, dst, front);
      MergeExtends(gate, dst, front);
      assert Wanted(gate, dst, front) <= Wanted(gate, dst, src);
      if Admits(gate, before, last) {
        assert last !in dst;
        assert NewIn(dst, before + [last]) == NewIn(dst, before) + {last};
      }
    }
  }

  lemma SubsetIsSmaller<T>(a: set<T>, b: set<T>)
    requires a <= b
    ensures |a| <= |b|
    ensures a != b ==> |a| < |b|
  {
    assert b == a + (b - a);
    assert a != b ==> b - a != {};
  }

  /** There is room after a merge exactly when there was room for everything wanted. */
  lemma RoomExactly(gate: Gate, dst: seq<Signature>, src: seq<Signature>)
    ensures |MergeSigs(gate, dst, src)| < MAX_MERGED_SIGNATURES
            <==> |dst| + |Wanted(gate, dst, src)| < MAX_MERGED_SIGNATURES
  {
    var m := MergeSigs(gate, dst, src);
    SizeOfMerge(gate, dst, src);
    SubsetIsSmaller(NewIn(dst, m), Wanted(gate, dst, src));
    if |m| < MAX_MERGED_SIGNATURES {
      MergeAbsorbs(gate, dst, src);
      assert forall s :: s in Wanted(gate, dst, src) ==> !Admits(gate, m, s);
      assert NewIn(dst, m) == Wanted(gate, dst, src);
    }
  }

  lemma {:induction false} MergeConcat(gate: Gate, dst: seq<Signature>, a: seq<Signature>, b: seq<Signature>)
    ensures MergeSigs(gate, dst, a + b) == MergeSigs(gate, MergeSigs(gate, dst, a), b)
  {
    if b == [] {
      assert a + b == a;
    } else {
      MergeConcat(gate, dst, a, b[..|b| - 1]);
      assert (a + b)[..|a + b| - 1] == a + b[..|b| - 1];
    }
  }

  lemma {:induction false} LeftOutStaysOut(gate: Gate, dst: seq<Signature>, src: seq<Signature>, s: Signature)
    requires |dst| >= MAX_MERGED_SIGNATURES && s !in dst && !SelfIssued(gate, s)
    ensures s !in MergeSigs(gate, dst, src)
  {
    if src != [] {
      LeftOutStaysOut(gate, dst, src[..|src| - 1], s);
      MergeExtends(gate, dst, src[..|src| - 1]);
    }
  }

  /**
   * A foreign signature, where it first appears, is kept exactly when the
   * signatures wanted before it leave room.
   */
  lemma ForeignKeptExactly(gate: Gate, dst: seq<Signature>, src: seq<Signature>, k: nat)
    requires k < |src| && src[k] !in dst && src[k] !in src[..k] && !SelfIssued(gate, src[k])
    ensures src[k] in MergeSigs(gate, dst, src)
            <==> |dst| + |Wanted(gate, dst, src[..k])| < MAX_MERGED_SIGNATURES
  {
    var before := MergeSigs(gate, dst, src[..k]);
    var after := MergeOne(gate, before, src[k]);
    MergeAround(gate, dst, src, k);
    RoomExactly(gate, dst, src[..k]);
    MergeExtends(gate, dst, src[..k]);
    if |before| >= MAX_MERGED_SIGNATURES {
      LeftOutStaysOut(gate, after, src[k + 1..], src[k]);
    } else {
      assert src[k] in after;
      MergeExtends(gate, after, src[k + 1..]);
    }
  }

  lemma MergeAround(gate: Gate, dst: seq<Signature>, src: seq<Signature>, k: nat)
    requires k < |src|
    ensures MergeSigs(gate, dst, src)
            == MergeSigs(gate, MergeOne(gate, MergeSigs(gate, dst, src[..k]), src[k]), src[k + 1..])
  {
    assert src[..k + 1][..k] == src[..k];
    MergeConcat(gate, dst, src[..k + 1], src[k + 1..]);
    assert src == src[..k + 1] + src[k + 1..];
  }

  /** Somewhere in `src` the signature comes while there is room. */
  predicate Fits(gate: Gate, dst: seq<Signature>, src: seq<Signature>, s: Signature) {
    exists k :: 0 <= k < |src| && src[k] == s
      && |dst| + |Wanted(gate, dst, src[..k])| < MAX_MERGED_SIGNATURES
  }

  lemma {:induction false} FirstPlace(src: seq<Signature>, s: Signature) returns (k: nat)
    requires s in src
    ensures k < |src| && src[k] == s && s !in src[..k]
  {
    if s in src[..|src| - 1] {
      k := FirstPlace(src[..|src| - 1], s);
      assert src[..|src| - 1][..k] == src[..k];
    } else {
      k := |src| - 1;
    }
  }

  /** What a merged list holds, said of the two lists alone. */
  lemma MergedExactly(gate: Gate, dst: seq<Signature>, src: seq<Signature>, s: Signature)
    ensures s in MergeSigs(gate, dst, src)
            <==> s in dst || (s in src && if SelfIssued(gate, s) then Verifies(s, gate.primary, gate.target)
                                          else Fits(gate, dst, src, s))
  {
    MergeExtends(gate, dst, src);
    if s in src && s !in dst {
      if SelfIssued(gate, s) {
        SelfIssuedKept(gate, dst, src, s);
      } else {
        var k := FirstPlace(src, s);
        ForeignKeptExactly(gate, dst, src, k);
        if Fits(gate, dst, src, s) {
          var j :| 0 <= j < |src| && src[j] == s
                   && |dst| + |Wanted(gate, dst, src[..j])| < MAX_MERGED_SIGNATURES;
          assert k <= j;
          assert src[..k] <= src[..j];
          SubsetIsSmaller(Wanted(gate, dst, src[..k]), Wanted(gate, dst, src[..j]));
        }
      }
    }
  }

  lemma {:induction false} SelfIssuedKept(gate: Gate, dst: seq<Signature>, src: seq<Signature>, s: Signature)
    requires s in src && s !in dst && SelfIssued(gate, s)
    ensures s in MergeSigs(gate, dst, src) <==> Verifies(s, gate.primary, gate.target)
  {
    if Verifies(s, gate.primary, gate.target) {
      VerifiedSelfSignatureAlwaysFits(gate, dst, src, s);
    } else {
      SizeOfMerge(gate, dst, src);
      assert s !in Wanted(gate, dst, src);
    }
  }

  // ----- key revocations

  /** Some incoming key revocation that counts at `t` names its issuer or comes while there is room. */
  predicate SomeKeyRevocationKept(primary: PublicKey, dst: seq<Signature>, src: seq<Signature>, t: U32) {
    exists s :: s in src
      && Selected(primary, KeyRevocations, s) && RevokesAt(s, t)
      && (NamesAsIssuer(s, primary) || Fits(Gate(primary, KeyTarget), dst, src, s))
  }

  predicate RevokedIn(primary: PublicKey, sigs: seq<Signature>, t: U32) {
    exists s :: s in sigs && Selected(primary, KeyRevocations, s) && RevokesAt(s, t)
  }

  lemma RevokedInEither(primary: PublicKey, details: Details, t: U32)
    ensures RevokedAt(PrimaryRevocationState(primary, details), t)
            <==> RevokedIn(primary, details.revocations, t) || RevokedIn(primary, details.direct, t)
  {
    PrimaryRevokedBySome(primary, details, t);
    assert forall s :: s in details.revocations + details.direct <==> s in details.revocations || s in details.direct;
  }

  lemma KeyRevocationsMerged(primary: PublicKey, dst: seq<Signature>, src: seq<Signature>, t: U32)
    ensures RevokedIn(primary, Dedup(MergeSigs(Gate(primary, KeyTarget), dst, src)), t)
            <==> RevokedIn(primary, dst, t) || SomeKeyRevocationKept(primary, dst, src, t)
  {
    var gate := Gate(primary, KeyTarget);
    var m := Dedup(MergeSigs(gate, dst, src));
    DedupProperties(MergeSigs(gate, dst, src));
    forall s | Selected(primary, KeyRevocations, s)
      ensures s in m
              <==> s in dst || (s in src && (NamesAsIssuer(s, primary) || Fits(gate, dst, src, s)))
    {
      MergedExactly(gate, dst, src, s);
    }
  }

  /**
   * After a merge the key is revoked at `t` exactly when it was already, or an
   * incoming revocation that counts at `t` names its issuer or comes before the
   * cap is full.
   */
  lemma KeyRevokedExactly(primary: PublicKey, base: Details, incoming: Details, t: U32)
    ensures RevokedAt(PrimaryRevocationState(primary, MergeDetails(primary, base, incoming)), t)
            <==> || RevokedAt(PrimaryRevocationState(primary, base), t)
                 || SomeKeyRevocationKept(primary, base.revocations, incoming.revocations, t)
                 || SomeKeyRevocationKept(primary, base.direct, incoming.direct, t)
  {
    RevokedInEither(primary, base, t);
    RevokedInEither(primary, MergeDetails(primary, base, incoming), t);
    KeyRevocationsMerged(primary, base.revocations, incoming.revocations, t);
    KeyRevocationsMerged(primary, base.direct, incoming.direct, t);
  }

  /** The copy that receives the other one, and what it receives. */
  function Receiver(a: Block, b: Block): (PublicKey, Details)
    requires MergeBlocks(a, b).Ok?
  {
    if a.secret.Some? then (a.secret.value.primary, a.secret.value.details)
    else if b.secret.Some? then (b.secret.value.primary, b.secret.value.details)
    else (a.public.value.primary, a.public.value.details)
  }

  function Received(a: Block, b: Block): Option<Details> {
    if a.secret.Some? && b.secret.Some? then Some(b.secret.value.details)
    else
      var other := if a.secret.None? && b.secret.Some? then a.public else b.public;
      if other.Some? then Some(other.value.details) else None
  }

  /** In all four combinations the receiver takes in what the other copy has, if there is one. */
  lemma ReceiverMerges(a: Block, b: Block)
    requires MergeBlocks(a, b).Ok?
    ensures var (primary, own) := Receiver(a, b);
            MergedDetails(MergeBlocks(a, b).value)
            == (primary, if Received(a, b).Some? then MergeDetails(primary, own, Received(a, b).value) else own)
  {
  }

  /** Revoked already, or by something taken in. */
  predicate RevokedByEither(primary: PublicKey, own: Details, received: Option<Details>, t: U32) {
    || RevokedAt(PrimaryRevocationState(primary, own), t)
    || (received.Some?
        && (|| SomeKeyRevocationKept(primary, own.revocations, received.value.revocations, t)
            || SomeKeyRevocationKept(primary, own.direct, received.value.direct, t)))
  }

  lemma RevokedPrimaryMeans(primary: PublicKey, details: Details, t: U32)
    ensures PrimaryVerdict(primary, details, t) == Revoked
            <==> && !Forbidden(primary.algorithm) && primary.created <= t
                 && RevokedAt(PrimaryRevocationState(primary, details), t)
  {
  }

  /** The same through whole blocks, in all four combinations, as a state and as a verdict. */
  lemma MergedKeyRevokedExactly(a: Block, b: Block, t: U32)
    requires MergeBlocks(a, b).Ok?
    ensures var (primary, details) := MergedDetails(MergeBlocks(a, b).value);
            var (receiver, own) := Receiver(a, b);
            var revoked := RevokedByEither(primary, own, Received(a, b), t);
            && primary == receiver
            && (RevokedAt(PrimaryRevocationState(primary, details), t) <==> revoked)
            && (PrimaryVerdict(primary, details, t) == Revoked
                <==> !Forbidden(primary.algorithm) && primary.created <= t && revoked)
  {
    var (primary, own) := Receiver(a, b);
    ReceiverMerges(a, b);
    RevokedPrimaryMeans(primary, MergedDetails(MergeBlocks(a, b).value).1, t);
    if Received(a, b).Some? {
      KeyRevokedExactly(primary, own, Received(a, b).value, t);
    }
  }

  // ----- subkey signatures, which nothing exempts from the cap

  lemma NothingIsSelfIssued(dst: seq<Signature>, src: seq<Signature>)
    ensures Wanted(NoGate, dst, src) == NewIn(dst, src)
  {
  }

  /** A subkey keeps every incoming signature exactly when all of them fit under the cap. */
  lemma SubkeySignaturesKeptExactly(dst: seq<Signature>, src: seq<Signature>)
    ensures (forall s :: s in src ==> s in MergeSigs(NoGate, dst, src))
            <==> NewIn(dst, src) == {} || |dst| + |NewIn(dst, src)| <= MAX_MERGED_SIGNATURES
  {
    var m := MergeSigs(NoGate, dst, src);
    var kept, wanted := NewIn(dst, m), NewIn(dst, src);
    SizeOfMerge(NoGate, dst, src);
    NothingIsSelfIssued(dst, src);
    MergeAbsorbs(NoGate, dst, src);
    SubsetIsSmaller(kept, wanted);
    CappedSize(dst, src);
    if forall s :: s in src ==> s in m {
      assert kept == wanted;
    } else {
      var s :| s in src && s !in m;
      MergeExtends(NoGate, dst, src);
      assert !Admits(NoGate, m, s);
      assert s in wanted && s !in kept;
    }
  }

  lemma {:induction false} CappedSize(dst: seq<Signature>, src: seq<Signature>)
    ensures |MergeSigs(NoGate, dst, src)| <= MAX_MERGED_SIGNATURES || MergeSigs(NoGate, dst, src) == dst
  {
    if src != [] {
      CappedSize(dst, src[..|src| - 1]);
    }
  }

  /** A revocation of the subkey that counts at `t`. */
  predicate RevokesSubkey(primary: PublicKey, subkey: PublicKey, s: Signature, t: U32) {
    Selected(primary, SubkeyRevocations(subkey), s) && RevokesAt(s, t)
  }

  lemma RevokedBySome(primary: PublicKey, subkey: PublicKey, sigs: seq<Signature>, t: U32)
    ensures RevokedAt(SubkeyRevocationState(primary, subkey, sigs), t)
            <==> exists s :: s in sigs && RevokesSubkey(primary, subkey, s, t)
  {
    SelectMembers(primary, SubkeyRevocations(subkey), sigs);
    StateRevokes(Select(primary, SubkeyRevocations(subkey), sigs), t);
  }

  /** Some incoming revocation comes while there is room. */
  predicate SomeRevocationFits(primary: PublicKey, subkey: PublicKey, dst: seq<Signature>, src: seq<Signature>, t: U32) {
    exists s :: s in src && RevokesSubkey(primary, subkey, s, t) && Fits(NoGate, dst, src, s)
  }

  /**
   * After a merge the subkey is revoked at `t` exactly when it was already, or a
   * revocation that counts at `t` comes before the new signatures fill the cap.
   */
  lemma SubkeyRevokedExactly(
    primary: PublicKey, subkey: PublicKey, dst: seq<Signature>, src: seq<Signature>, t: U32
  )
    ensures RevokedAt(SubkeyRevocationState(primary, subkey, MergeSigs(NoGate, dst, src)), t)
            <==> || RevokedAt(SubkeyRevocationState(primary, subkey, dst), t)
                 || SomeRevocationFits(primary, subkey, dst, src, t)
  {
    var m := MergeSigs(NoGate, dst, src);
    RevokedBySome(primary, subkey, dst, t);
    RevokedBySome(primary, subkey, m, t);
    forall s
      ensures s in m <==> s in dst || (s in src && Fits(NoGate, dst, src, s))
    {
      MergedExactly(NoGate, dst, src, s);
    }
  }

  /** Within the cap, merging never un-revokes a subkey. */
  lemma SubkeyStaysRevoked(
    primary: PublicKey, subkey: PublicKey, dst: seq<Signature>, src: seq<Signature>, t: U32
  )
    requires NewIn(dst, src) == {} || |dst| + |NewIn(dst, src)| <= MAX_MERGED_SIGNATURES
    requires || RevokedAt(SubkeyRevocationState(primary, subkey, dst), t)
             || RevokedAt(SubkeyRevocationState(primary, subkey, src), t)
    ensures RevokedAt(SubkeyRevocationState(primary, subkey, MergeSigs(NoGate, dst, src)), t)
  {
    var m := MergeSigs(NoGate, dst, src);
    SubkeySignaturesKeptExactly(dst, src);
    MergeExtends(NoGate, dst, src);
    RevokedBySome(primary, subkey, dst, t);
    RevokedBySome(primary, subkey, src, t);
    RevokedBySome(primary, subkey, m, t);
  }

  /** A subkey that already carries 256 signatures takes nothing in, so every verdict stays as it was. */
  lemma FullSubkeyTakesNothing(
    primary: PublicKey, details: Details, subkey: PublicKey, dst: seq<Signature>, src: seq<Signature>, t: U32
  )
    requires |dst| >= MAX_MERGED_SIGNATURES
    ensures MergeSigs(NoGate, dst, src) == dst
    ensures SubkeySigningVerdict(primary, details, subkey, MergeSigs(NoGate, dst, src), t)
            == SubkeySigningVerdict(primary, details, subkey, dst, t)
  {
    AbsorbedChangesNothing(NoGate, dst, src);
  }
}
