/** The merge as `rust/src/key.rs` runs it: loops over the incoming lists, updating the target in place. */
module MergeLoops {
  import opened Common
  import opened Certificates
  import opened Merging

  method MergeCheckedSignatures(target: seq<Signature>, src: seq<Signature>, gate: Gate)
    returns (dst: seq<Signature>)
    ensures dst == MergeSigs(gate, target, src)
  {
    dst := target;
    var seen := set s | s in target;
    for i := 0 to |src|
      invariant dst == MergeSigs(gate, target, src[..i])
      invariant seen == set s | s in dst
    {
      var sig := src[i];
      assert src[..i + 1][..i] == src[..i];
      if sig in seen {
        continue;
      }
      var selfIssued := gate.Gate? && NamesAsIssuer(sig, gate.primary);
      if selfIssued && !Verifies(sig, gate.primary, gate.target) {
        continue;
      }
      if !selfIssued && |dst| >= MAX_MERGED_SIGNATURES {
        continue;
      }
      seen := seen + {sig};
      dst := dst + [sig];
    }
    assert src[..|src|] == src;
  }

  method DedupSignatures(sigs: seq<Signature>) returns (out: seq<Signature>)
    ensures out == Dedup(sigs)
  {
    out := [];
    var seen: set<Signature> := {};
    for i := 0 to |sigs|
      invariant out == Dedup(sigs[..i])
      invariant seen == set s | s in out
    {
      assert sigs[..i + 1][..i] == sigs[..i];
      if sigs[i] !in seen {
        seen := seen + {sigs[i]};
        out := out + [sigs[i]];
      }
    }
    assert sigs[..|sigs|] == sigs;
  }

  lemma FirstWithKey(components: seq<Component>, key: ComponentKey, i: nat)
    requires i <= |components|
    requires forall j :: 0 <= j < i ==> KeyOf(components[j].id) != key
    requires i < |components| ==> KeyOf(components[i].id) == key
    ensures Find(components, key) == i
  {
  }

  method FindComponent(components: seq<Component>, key: ComponentKey) returns (i: nat)
    ensures i == Find(components, key)
  {
    i := 0;
    while i < |components| && KeyOf(components[i].id) != key
      invariant i <= |components|
      invariant forall j :: 0 <= j < i ==> KeyOf(components[j].id) != key
    {
      i := i + 1;
    }
    FirstWithKey(components, key, i);
  }

  /** User IDs and attributes with `primary`, subkeys without. */
  method MergeComponentLists(primary: Option<PublicKey>, target: seq<Component>, src: seq<Component>)
    returns (dst: seq<Component>)
    ensures dst == MergeComponents(primary, target, src)
  {
    dst := target;
    for k := 0 to |src|
      invariant dst == MergeComponents(primary, target, src[..k])
    {
      var c := src[k];
      assert src[..k + 1][..k] == src[..k];
      var i := FindComponent(dst, KeyOf(c.id));
      if i < |dst| {
        var merged := MergeCheckedSignatures(dst[i].signatures, c.signatures, GateFor(primary, dst[i].id));
        dst := dst[i := dst[i].(signatures := merged)];
      } else if Welcome(primary, c) {
        dst := dst + [c];
      }
    }
    assert src[..|src|] == src;
  }

  method MergeKeyComponents(primary: PublicKey, base: Details, incoming: Details) returns (merged: Details)
    ensures merged == MergeDetails(primary, base, incoming)
  {
    var gate := Gate(primary, KeyTarget);
    var direct := MergeCheckedSignatures(base.direct, incoming.direct, gate);
    var revocations := MergeCheckedSignatures(base.revocations, incoming.revocations, gate);
    var users := MergeComponentLists(Some(primary), base.users, incoming.users);
    var attributes := MergeComponentLists(Some(primary), base.attributes, incoming.attributes);
    direct := DedupSignatures(direct);
    revocations := DedupSignatures(revocations);
    merged := Details(direct, revocations, users, attributes);
  }

  class SignedSecretKey {
    const primary: PublicKey
    var details: Details
    var secretSubkeys: seq<Component>
    var publicSubkeys: seq<Component>

    constructor (cert: SecretCert)
      ensures View() == cert
    {
      primary := cert.primary;
      details := cert.details;
      secretSubkeys := cert.subkeys.secret;
      publicSubkeys := cert.subkeys.public;
    }

    function View(): SecretCert
      reads this
    {
      SecretCert(primary, details, Subkeys(secretSubkeys, publicSubkeys))
    }

    method MergeSubkeysIntoSecret(incoming: seq<Component>)
      modifies this`secretSubkeys, this`publicSubkeys
      ensures View().subkeys == MergeIntoSecret(old(View().subkeys), incoming)
    {
      for k := 0 to |incoming|
        invariant View().subkeys == MergeIntoSecret(old(View().subkeys), incoming[..k])
      {
        assert incoming[..k + 1][..k] == incoming[..k];
        var c := incoming[k];
        var i := FindComponent(secretSubkeys, KeyOf(c.id));
        if i < |secretSubkeys| {
          var sub := secretSubkeys[i];
          var merged := MergeCheckedSignatures(sub.signatures, c.signatures, NoGate);
          secretSubkeys := secretSubkeys[i := sub.(signatures := merged)];
        } else {
          assert [c][..0] == [];
          assert MergeComponents(None, publicSubkeys, [c]) == MergeComponent(None, publicSubkeys, c);
          publicSubkeys := MergeComponentLists(None, publicSubkeys, [c]);
        }
      }
      assert incoming[..|incoming|] == incoming;
    }

    /** Split the public subkeys by whether their secret part is now held. */
    method Demote() returns (demoted: seq<Component>)
      modifies this`publicSubkeys
      ensures demoted == Partition(old(publicSubkeys), secretSubkeys, true)
      ensures publicSubkeys == Partition(old(publicSubkeys), secretSubkeys, false)
    {
      var all := publicSubkeys;
      demoted := [];
      var kept := [];
      for i := 0 to |all|
        invariant demoted == Partition(all[..i], secretSubkeys, true)
        invariant kept == Partition(all[..i], secretSubkeys, false)
      {
        assert all[..i + 1][..i] == all[..i];
        if Holds(secretSubkeys, KeyOf(all[i].id)) {
          demoted := demoted + [all[i]];
        } else {
          kept := kept + [all[i]];
        }
      }
      assert all[..|all|] == all;
      publicSubkeys := kept;
    }

    method MergeSecret(source: SecretCert)
      modifies this
      ensures View() == MergeSecretIntoSecret(old(View()), source)
    {
      details := MergeKeyComponents(primary, details, source.details);
      secretSubkeys := MergeComponentLists(None, secretSubkeys, source.subkeys.secret);
      var demoted := Demote();
      MergeSubkeysIntoSecret(demoted);
      MergeSubkeysIntoSecret(source.subkeys.public);
    }

    method MergePublic(source: PublicCert)
      modifies this
      ensures View() == MergePublicIntoSecret(old(View()), source)
    {
      details := MergeKeyComponents(primary, details, source.details);
      MergeSubkeysIntoSecret(source.subkeys);
    }
  }

  method MergeKeyBlock(base: Block, incoming: Block) returns (r: Result<Merged, MergeError>)
    ensures r == MergeBlocks(base, incoming)
  {
    if base.secret.Some? && incoming.secret.Some? {
      var other := incoming.secret.value;
      if base.secret.value.primary.fingerprint != other.primary.fingerprint {
        return Err(InvalidInput);
      }
      var target := new SignedSecretKey(base.secret.value);
      target.MergeSecret(other);
      return Ok(MergedSecret(target.View()));
    }
    if base.secret.Some? || incoming.secret.Some? {
      var secret := if base.secret.Some? then base.secret.value else incoming.secret.value;
      var other := if base.secret.Some? then incoming.public else base.public;
      var target := new SignedSecretKey(secret);
      if other.Some? {
        if secret.primary.fingerprint != other.value.primary.fingerprint {
          return Err(InvalidInput);
        }
        target.MergePublic(other.value);
      }
      return Ok(MergedSecret(target.View()));
    }
    if base.public.None? || incoming.public.None? {
      return Err(InvalidInput);
    }
    var target, other := base.public.value, incoming.public.value;
    if target.primary.fingerprint != other.primary.fingerprint {
      return Err(InvalidInput);
    }
    var details := MergeKeyComponents(target.primary, target.details, other.details);
    var subkeys := MergeComponentLists(None, target.subkeys, other.subkeys);
    r := Ok(MergedPublic(PublicCert(target.primary, details, subkeys)));
  }
}
