# Verified core of GpgFrontend's OpenPGP engine and release tooling

This project models four parts of GpgFrontend in Dafny 4.11 and proves what they
promise:

1. **Certificates over time** (`rust/src/key.rs`). Which self-signature is in force
   at an instant, what a set of revocations amounts to, whether a key may vouch for
   a signature made at that instant, what merging two copies of a certificate does
   to all of that, how a re-issued self-signature changes an expiry, and how the
   passphrase of a whole key is changed.
2. **The packet walk** (`rust/src/inspect.rs`). Framing after section 4.2 of RFC 9580,
   the recursive walk through compressed containers under three budgets, and the
   armor checksum of section 6.1 of RFC 4880. The encoders of
   `rust/src/testutil.rs` and the second decoder of `rust/src/conformance_tests.rs`
   are modelled too and serve as the other side of the round trip.
3. **The passphrase cache** (`rust/src/cache.rs`), once as a sequential class that
   refines its operation history and once as interleaved atomic steps of any number
   of threads.
4. **Release tooling** (`scripts/release_candidate.py`, `scripts/release/semver.py`,
   `scripts/release/check_order.py`): staging and verifying a candidate, and version
   precedence.

Check the whole project with `dafny verify dfyconfig.toml`.

## How it is built

| files | content |
|---|---|
| `Common.dfy`, `Text.dfy` | options and results, numbers and octets; splitting, joining and comparing text |
| `Certificates.dfy`, `Verdicts.dfy` | signatures, selection, revocation states, verdicts; what they promise over time and how the listing agrees with them |
| `Governing.dfy`, `Authority.dfy` | which stored signature and which User ID speak for a key, and every verdict and offer, in the fields of what is stored |
| `Merging.dfy`, `MergeLoops.dfy` | the merge as recursive functions; the loops and the in-place class proved against them |
| `MergeRevocation.dfy`, `MergeIdempotence.dfy`, `MergeSubkeys.dfy` | what merging keeps: revocations, verified signatures, subkeys, and its own result |
| `MergeCap.dfy`, `MergeSubkeyVerdicts.dfy` | exactly which signatures the cap leaves out, and what that does to a key and to a subkey |
| `MergeLimits.dfy`, `MergeRepeats.dfy`, `MergeBlockRepeats.dfy` | exactly which User IDs survive, and exactly when repeating a merge changes nothing |
| `MergeFields.dfy` | what a merge keeps and takes over, in the fields of the two copies |
| `Counterexamples.dfy` | concrete keys and copies on which a promise fails |
| `Expiry.dfy`, `Reissuing.dfy` | re-issuing self-signatures; what a re-issue copies, drops and leaves, and which copy then speaks for the key |
| `Framing.dfy`, `SecondDecoder.dfy`, `Encoders.dfy`, `BrokenStreams.dfy` | two framing decoders, the encoders, and streams that do not end cleanly |
| `Walk.dfy`, `WalkTheorems.dfy`, `WalkMeaning.dfy`, `WalkLoop.dfy` | the walk, its bounds, the rules it alone satisfies, and the loop that spends the budget |
| `Crc24.dfy`, `Crc24Theorems.dfy` | the checksum as arithmetic of polynomials over GF(2) |
| `CacheHistory.dfy`, `CacheThreads.dfy`, `CacheOrder.dfy`, `CacheClamp.dfy` | the cache alone, under threads, how the two agree, and its two timeouts |
| `PassphraseRules.dfy`, `Passphrase.dfy` | what a passphrase change comes to, said of the user's answers, and the prompts, retries and cache evictions that do it |
| `SemVer.dfy`, `Precedence.dfy` | parsing and printing versions; their order and the release order check |
| `Manifest.dfy`, `ManifestGrammar.dfy`, `Candidate.dfy`, `StagingRules.dfy` | the manifest and the texts its reader accepts, the stage-then-verify protocol, and what staging accepts |

Code that the program writes with loops and in-place updates is a method or a class
whose postcondition names a function; the theorems are about that function. Code
that is an expression in the program is a function here.

What is abstract: a signature carries the set of (signer, object) pairs it verifies
over, and nothing is assumed about that set unless a lemma says so. Two signatures
are equal exactly when their serialisations are. The decompressor, the digest, the
Sigstore verdict, the build-info reader and the user who answers prompts are
arbitrary functions. Clock readings are parameters.

## What the proofs found

Where a promise does not hold on all inputs, the code is modelled as it is and the
exact condition is proved beside a concrete input that breaks it.

- A merge repeated with the same copy can change the result again if the target lists
  a signature twice (`RepeatedSignaturesBreakIdempotence`) or the incoming copy lists
  a User ID twice (`RepeatedUserIdBreaksIdempotence`). Exactly when it does is said of
  the two copies for a list of signatures (`RepeatedMergeExactly`), of components
  (`RepeatedComponentsExactly`), for the details (`RepeatedDetailsExactly`) and for
  whole blocks in all four combinations (`RepeatedBlocksExactly`).
- User IDs are matched by their lossy UTF-8 text, so of two different User IDs that
  read alike only one survives a merge, and which one depends on the order
  (`UserIdSurvivesExactly`, `MergeOrderKeepsUserIdExactly`,
  `LossyClashMakesOrderMatter`).
- The comment at `rust/src/key.rs:2617-2618` says that a revocation must never be what
  the cap leaves out. For subkeys it can be, because their signatures are merged
  without a primary key to check against, and for the key itself it can be when the
  revocation verifies but does not name its issuer. Such a revocation is lost exactly
  when the signatures wanted before it fill the cap (`ForeignKeptExactly`,
  `KeyRevokedExactly`, `MergedKeyRevokedExactly`, `KeyRevocationLostPastTheCap`,
  `SubkeyRevokedExactly`, `MergedSubkeyRevokedExactly`, `RevocationLostPastTheCap`).
- A certification dated before all others but after `t` changes the answer for `t`
  (`LaterCertificationExactly`, `BackfillChangesTheVerdict`).
- A trusted self-certification that does not name its issuer is not removed by a
  re-issue, and goes on speaking for some instants (`TakesOverNowExactly`,
  `TakesOverAlwaysExactly`, `UnnamedCertificationSpeaksOn`); the same goes for the
  Direct Key signature of a version 6 key and for subkey bindings
  (`DirectTakesOverExactly`, `BindingTakesOverExactly`).
- The listing and the signing verdict part ways on a key whose governing
  self-signature carries no key flags (`ListingAgreesWithVerdict`,
  `FlaglessKeyIsNotOffered`).
- The documentation of `set_ttl` says the cap can never be shorter than the idle
  window. It can when the call that stored the idle window last is not the one that
  stored the cap last, and only then (`ClampHeldExactly`,
  `OverlappingSetsLoseTheClamp`). Entries are unaffected, because `put` clamps again
  (`EveryRunIsSound`).
- The safe-name pattern of the release script accepts a name that ends in a newline.
  Such a deliverable is staged, and the staged candidate is then refused
  (`StagedCandidateVerifies`, `ManifestReadsBackExactly`, `NewlineNameExample`).

## Model

| member | source | states |
|---|---|---|
| Certificates.RevocationStateOf | rust/src/key.rs:579-599 | The accumulating loop with its early exit computes the state that `StateRevokes` and `StateDependsOnSet` characterise |
| Certificates.StateRevokes | rust/src/key.rs:566-609 | The accumulated state revokes at `t` exactly when some single revocation does: a hard one always, a soft one from its own date |
| Certificates.StateDependsOnSet | rust/src/key.rs:578-627 | The order and repetition of revocations do not matter to the state |
| Verdicts.InForceMeans | rust/src/key.rs:326-367 | The signature in force at `t` is the newest made by `t`, last among equals, else the oldest, first among equals, and none if that one has itself lapsed |
| Verdicts.SomeoneGoverns | rust/src/key.rs:350-358 | Some signature governs every instant unless there is none at all |
| Verdicts.RevokedPrimaryStaysRevoked | rust/src/key.rs:578-627 | A primary verdict Revoked at `t` is Revoked at every later instant |
| Verdicts.RevokedSubkeyNeverVouchesAgain | rust/src/key.rs:721-757 | A subkey verdict Revoked at `t` is Authorized at no later instant |
| Verdicts.LaterCertificationKeepsVerdict | rust/src/key.rs:350-423 | A signature of any type dated after `t` leaves the primary verdict at `t` unchanged, unless it is a trusted self-certification older than all the User ID has |
| Verdicts.BackfilledCertificationGoverns | rust/src/key.rs:340-358 | Such an older one becomes the one that governs `t` |
| Verdicts.LaterCertificationExactly | rust/src/key.rs:340-358 | A signature dated after `t` leaves a User ID's answer for `t` alone exactly when it is not such an older one |
| Counterexamples.BackfillChangesTheVerdict | rust/src/key.rs:340-358 | A certification dated 5 put beside one dated 10 turns the verdict at 2 from Authorized to Expired |
| Verdicts.ListingAgreesWithVerdict | rust/src/key.rs:465-525 | With no signature from the future, a primary key is offered for signing (can sign, not revoked, not expired) exactly when the verdict authorises it now and its governing self-signature states key flags |
| Verdicts.SubkeyListingAgreesWithVerdict | rust/src/key.rs:934-963 | For a subkey the verdict asks exactly two things more than the listing: an authorised primary key and a valid back-signature |
| Counterexamples.FlaglessKeyIsNotOffered | rust/src/key.rs:644-658 | A key without key flags is authorised to sign and never offered for signing |
| Governing.InForceExactly | rust/src/key.rs:350-367 | For any instant or the present: the signature in force is the last of the newest made by then among those whose own fields make them count, else the first of the oldest, unless it has lapsed |
| Governing.UserGovernsExactly | rust/src/key.rs:401-423 | By User ID: of those not revoked and with a certification in force, the governing one is marked primary if any is, then newest, then last; there is none exactly when no User ID speaks |
| Governing.KeySpeaksExactly | rust/src/key.rs:379-395 | The governing self-signature of a key: the governing User ID's, else the Direct Key signature, and always that one for version 6 |
| Authority.RevokedExactly | rust/src/key.rs:613-640 | Revoked at t exactly when a revocation made by the key over the object is stored, and is dated by t if its reason is superseded or retired |
| Authority.PrimaryVerdictExactly | rust/src/key.rs:695-715 | Each verdict on the primary key with its exact condition on algorithm, dates, revocations and what speaks for the key |
| Authority.PrimarySignsExactly | rust/src/key.rs:678-692 | The primary key vouches exactly when it is usable and unrevoked and what speaks for it has not ended and allows signing by its flags, or by the algorithm without flags |
| Authority.SubkeyVerdictExactly | rust/src/key.rs:721-757 | Each verdict on a subkey with its exact condition, the back-signature included |
| Authority.OfferedPrimaryExactly | rust/src/key.rs:465-525 | The listing offers a primary key exactly when nothing ever revoked it and what speaks now states the signing flag and has not ended |
| Authority.OfferedSubkeyExactly | rust/src/key.rs:934-963 | And a subkey likewise, by its binding |
| Merging.MergeExtends | rust/src/key.rs:2594-2631 | A merged signature list starts with the target's list and holds nothing from elsewhere |
| Merging.MergeAbsorbs | rust/src/key.rs:2594-2631 | After a merge every incoming signature is present, unverified or over the cap, so that merging it again admits nothing |
| Merging.VerifiedSelfSignatureAlwaysFits | rust/src/key.rs:2594-2631 | A self-signature that verifies is never left out, whatever the cap |
| Merging.MergeKeepsDistinct | rust/src/key.rs:2594-2631 | A list without repetitions stays one |
| Merging.DedupProperties | rust/src/key.rs:2727-2740 | Deduplication keeps the set of signatures, leaves no repetition, and changes nothing if there was none |
| MergeRevocation.MergeNeverUnrevokes | rust/src/key.rs:2823-2879 | In all four secret/public combinations, if the verified, primary-naming key revocations of either copy make the key Revoked at `t`, the merged key is Revoked at `t` |
| MergeRevocation.DetailsStayRevoked | rust/src/key.rs:2784-2812 | The same for the key-level details of any two copies, whatever the cap leaves out |
| MergeRevocation.MergeOrderKeepsRevocationState | rust/src/key.rs:2784-2812 | Whichever copy is merged into the other, the primary's revocation state is the same |
| MergeRevocation.EntryOfMerge | rust/src/key.rs:2633-2662 | Merging lists of distinct components merges them entry by entry |
| MergeRevocation.MergeOrderKeepsVerifiedSignatures | rust/src/key.rs:2633-2662 | Whichever copy is merged into the other, a certified User ID ends up with the same verified self-signatures: those of both copies |
| MergeIdempotence.MergeAllAbsorbs | rust/src/key.rs:2633-2725 | After merging a list of distinct components, each of them would change nothing if merged again |
| MergeIdempotence.AbsorbedComponentsChangeNothing | rust/src/key.rs:2633-2725 | Merging components that are absorbed already returns the target unchanged |
| MergeIdempotence.MergedDetailsAbsorb | rust/src/key.rs:2784-2812 | Merged details absorb the incoming copy, capped and dropped signatures included |
| MergeSubkeys.SecretMergePartitionsSubkeys | rust/src/key.rs:2881-2951 | Merging two secret keys: the secret fingerprints are the union of both secret sets, the public-only ones the rest of the union, none is in both lists and none is lost |
| MergeSubkeys.SecretMergeAgain | rust/src/key.rs:2911-2951 | Merging the same secret key's subkeys twice changes nothing |
| MergeSubkeys.OwnCopyAbsorbed | rust/src/key.rs:2784-2812 | Merging a copy with itself returns it |
| MergeSubkeys.MergeIsIdempotent | rust/src/key.rs:2823-2951 | merge(merge(a, b), b) = merge(a, b) for whole certificates in all four combinations, for a tidy target and distinct incoming components; `RepeatedBlocksExactly` has the exact condition |
| MergeRepeats.RepeatedMergeExactly | rust/src/key.rs:2594-2631 | Repeating a merge and deduplication of two signature lists changes nothing exactly when every foreign signature is in the target or comes while there is room, or what survives fills the cap without repetitions; said of the two lists |
| MergeRepeats.EntryIsFinal | rust/src/key.rs:2633-2725 | For lists with or without repetitions: the entry each key ends with, said of the two lists |
| MergeRepeats.RepeatedComponentsExactly | rust/src/key.rs:2633-2725 | Repeating a merge of component lists changes nothing exactly when every entry dropped before a later one of the same key was taken over would add nothing to that key's final entry |
| MergeRepeats.RepeatedDetailsExactly | rust/src/key.rs:2784-2812 | Repeating a merge of details changes nothing exactly when all four lists say so |
| MergeBlockRepeats.OwnSubkeysExactly | rust/src/key.rs:2881-2951 | A secret key's subkeys merged back into what grew from them change nothing exactly when no subkey is in both lists and no repeated one would add a signature |
| MergeBlockRepeats.RepeatedBlocksExactly | rust/src/key.rs:2823-2961 | merge(merge(a, b), b) = merge(a, b) exactly when the two blocks meet the condition of their combination, for all four |
| Counterexamples.RepeatedSignaturesBreakIdempotence | rust/src/key.rs:2784-2812 | A base that repeats one signature 256 times is changed by the second merge |
| Counterexamples.RepeatedUserIdBreaksIdempotence | rust/src/key.rs:2633-2662 | A copy that lists one User ID twice, first uncertified, is taken in differently by the second merge |
| MergeLimits.UserIdSurvivesExactly | rust/src/key.rs:2633-2662 | For any two lists: a User ID is stored after the merge exactly when the target had it, or had nothing that reads the same and the first certified incoming entry that does is this one |
| MergeLimits.MergeOrderKeepsUserIdExactly | rust/src/key.rs:2633-2662 | For any two lists: both merge orders keep the same User ID under a text exactly when both copies hold the same one, or the only one that holds one has it certified first |
| Counterexamples.LossyClashMakesOrderMatter | rust/src/key.rs:2633-2662 | Two User IDs of invalid UTF-8 that both read as U+FFFD: each merge order keeps a different one |
| MergeFields.SignaturesExactly | rust/src/key.rs:2594-2631 | A signature is on the merged list exactly when it was there, or is incoming and, naming the key by fingerprint or key id, was made by it over the object, or not naming it, comes while fewer than 256 are there |
| MergeFields.KeySignaturesExactly | rust/src/key.rs:2784-2812 | The same for the direct and the revocation signatures of a key, each of them once |
| MergeFields.StoredExactly | rust/src/key.rs:2633-2703 | A User ID or attribute is stored exactly when the target had it, or had none of its text or image and the first incoming one is it that carries a certification (0x10 to 0x13) made by the key over it with an acceptable hash and no unknown critical subpacket, or for an attribute a signature naming the key and made by it that is no revocation |
| MergeFields.OwnEntryExactly | rust/src/key.rs:2633-2703 | An entry of the target keeps its place and its signatures and gains exactly those that join it |
| MergeFields.NewEntryExactly | rust/src/key.rs:2633-2703 | An entry taken over gains exactly what later entries of its text or image offer and may join |
| MergeFields.RefusedExactly | rust/src/key.rs:2823-2878 | Blocks are refused exactly when their fingerprints differ, or there is no secret key and one copy is missing; the result is secret exactly when either is |
| MergeFields.MergedIdsExactly | rust/src/key.rs:2823-2878 | The rule for User IDs and attributes through whole blocks, in all four combinations |
| MergeFields.SubkeysByFingerprint | rust/src/key.rs:2881-2950 | By fingerprint: secret is the union of the secret ones, public the rest |
| MergeFields.PublicSubkeysByFingerprint | rust/src/key.rs:2911-2931 | By fingerprint: incoming public subkeys join the public ones unless the secret one is held |
| MergeCap.ForeignKeptExactly | rust/src/key.rs:2594-2631 | A foreign signature, where it first appears, is kept exactly when the target and the signatures wanted before it number less than 256 |
| MergeCap.MergedExactly | rust/src/key.rs:2594-2631 | What a merged list holds, said of the two lists alone |
| MergeCap.KeyRevokedExactly | rust/src/key.rs:2784-2812 | After a merge of details the key is revoked at `t` exactly when it was, or an incoming revocation that counts at `t` names its issuer or comes before the cap is full |
| MergeCap.MergedKeyRevokedExactly | rust/src/key.rs:2823-2961 | The same through whole blocks in all four combinations, as a state and as a verdict |
| Counterexamples.KeyRevocationLostPastTheCap | rust/src/key.rs:2594-2631 | One copy's key is revoked at every instant by a revocation that does not name its issuer, the other carries 256 direct signatures, and the merged key is authorised at every instant |
| MergeCap.SubkeySignaturesKeptExactly | rust/src/key.rs:2586-2588 | A subkey keeps every incoming signature exactly when all new ones fit under the cap |
| MergeCap.SubkeyRevokedExactly | rust/src/key.rs:2586-2631 | After a merge a subkey is revoked at `t` exactly when it was, or a revocation that counts at `t` comes before the new signatures fill the cap |
| MergeCap.SubkeyStaysRevoked | rust/src/key.rs:2707-2725 | Corollary: when all new signatures fit, a subkey revoked at `t` in either list is revoked at `t` after the merge |
| MergeCap.FullSubkeyTakesNothing | rust/src/key.rs:2707-2725 | A subkey that carries 256 signatures takes in nothing, revocations included, so every verdict stays as it was |
| Counterexamples.RevocationLostPastTheCap | rust/src/key.rs:2707-2725 | One copy's subkey is revoked at every instant, the other's carries 256 signatures, and the merged one is authorised at every instant |
| MergeSubkeyVerdicts.SubkeyOfMerge | rust/src/key.rs:2823-2961 | In all four combinations: the merged subkey is its first component topped up with everything else the two blocks offer, in order, up to the cap |
| MergeSubkeyVerdicts.MergedSubkeyRevokedExactly | rust/src/key.rs:2823-2961 | In all four combinations: exactly when the merged subkey is revoked at `t`, as a state and as a signing verdict |
| MergeSubkeyVerdicts.MergeNeverUnrevokesSubkeys | rust/src/key.rs:2823-2961 | In all four combinations: a subkey revoked at `t` in either block is never authorised at `t` after the merge if everything on offer fits |
| MergeLoops.MergeCheckedSignatures | rust/src/key.rs:2594-2631 | The loop over incoming signatures computes the merge the theorems are about |
| MergeLoops.DedupSignatures | rust/src/key.rs:2727-2740 | The loop with its set of seen signatures computes the deduplication |
| MergeLoops.MergeComponentLists | rust/src/key.rs:2633-2725 | The loop over User IDs, attributes or subkeys computes the component merge |
| MergeLoops.MergeKeyComponents | rust/src/key.rs:2784-2812 | The four lists of a certificate's details are merged as the theorems assume |
| MergeLoops.SignedSecretKey.MergeSubkeysIntoSecret | rust/src/key.rs:2911-2931 | Incoming public subkeys go onto the matching secret one or among the public ones, in place |
| MergeLoops.SignedSecretKey.Demote | rust/src/key.rs:2889-2901 | Splits the public subkeys in place by whether their secret part is now held |
| MergeLoops.SignedSecretKey.MergeSecret | rust/src/key.rs:2881-2906 | Another secret copy merged in place |
| MergeLoops.SignedSecretKey.MergePublic | rust/src/key.rs:2953-2961 | A public copy merged in place |
| MergeLoops.MergeKeyBlock | rust/src/key.rs:2823-2879 | The choice among the four combinations and its refusals |
| Expiry.ReissueUser | rust/src/key.rs:1997-2014 | A User ID gets a new self-signature exactly when it is neither revoked nor without a template |
| Expiry.ReissueUsers | rust/src/key.rs:1993-2021 | The loop re-issues every such User ID and reports whether there was one |
| Expiry.SigningKey.UpdatePrimaryExpiration | rust/src/key.rs:1968-2022 | The key's new details on success, and unchanged details on failure |
| Expiry.ReissuedUserSpeaks | rust/src/key.rs:1921-1960 | A re-issued User ID speaks with the new signature |
| Expiry.TakesOverNowExactly | rust/src/key.rs:2005-2013 | The new signature speaks for the present exactly when nothing the re-issue leaves behind is newer |
| Expiry.TakesOverAlwaysExactly | rust/src/key.rs:2005-2013 | It speaks for every instant, past ones too, exactly when nothing is left behind |
| Counterexamples.UnnamedCertificationSpeaksOn | rust/src/key.rs:2005-2013 | After a re-issue at 5 a certification dated 3 that does not name its issuer is in force at 4, and one dated 9 is in force now |
| Expiry.DirectTakesOverExactly | rust/src/key.rs:1976-1990 | For a version 6 key the new Direct Key signature governs the present, or every instant, exactly when nothing left behind is newer, or nothing is left behind |
| Expiry.UpdatedGoverns | rust/src/key.rs:1968-2022 | Whatever governs the key after the update carries the requested expiry and never lapses |
| Expiry.RevocationStateSurvives | rust/src/key.rs:1976-1990 | The update leaves the primary's revocation state alone |
| Expiry.ExpiryReadsBack | rust/src/key.rs:1889-1906 | Reading the expiry back gives min(requested, u32::MAX), or 0 for never, whichever User ID governs |
| Expiry.UpdatedVerdict | rust/src/key.rs:695-714 | After the update the verdict at every `t`, before the re-issue too, is decided by creation, revocations and the requested expiry alone |
| Expiry.SubkeyExpiryReadsBack | rust/src/key.rs:2050-2083 | A subkey's expiry reads back; flags, back-signature and revocations survive |
| Expiry.BindingTakesOverExactly | rust/src/key.rs:2050-2083 | The new binding is in force now, or at every instant, exactly when no binding left behind is newer, or none is left behind |
| Reissuing.KeyUpdatedExactly | rust/src/key.rs:1968-2022 | An update succeeds exactly when there is something to sign again, and then changes just that: every never revoked User ID with a trusted template keeps, in order, what does not name the key or states no properties, and gains one signature with the type, mark, flags, back-signature and other fields of the last newest trusted template, dated now, with the requested expiry and none of its own, and a new hash only for a weak one; for version 6 the Direct Key signature |
| Reissuing.BindingUpdatedExactly | rust/src/key.rs:2050-2088 | The same for a subkey's binding |
| Reissuing.RenewalGoverns | rust/src/key.rs:1911-1966 | After the update the key speaks through the last User ID renewed from a marked certification, or the last renewed if none is marked; it is marked exactly when some renewed certification was, and has the flags and type of the one it was copied from |
| Reissuing.DirectRenewalGoverns | rust/src/key.rs:1976-1994 | A version 6 key speaks through the renewal of its newest Direct Key signature |
| Reissuing.RenewalSigns | rust/src/key.rs:678-692 | After the update a key neither revoked nor expired may sign exactly when the copied certification allowed it |
| Passphrase.PassphraseChange.Ask | rust/src/utils.rs:121-195 | One prompt, and an answer only if a non-empty passphrase was provided |
| Passphrase.PassphraseChange.FetchOld | rust/src/utils.rs:201-229 | A cached passphrase costs no prompt and otherwise the one answer is taken; exactly what the cache is asked and told |
| Passphrase.PassphraseChange.RemoveWithRetry | rust/src/key.rs:1603-1634 | How it ends and how many prompts it takes is what the answers make of it: the passphrase at hand, then each answer in turn; the component is open exactly on success |
| Passphrase.PassphraseChange.UnlockAll | rust/src/key.rs:1697-1723 | How it ends and how many prompts it takes, component by component, is what the answers make of it; success means everything is open |
| Passphrase.PassphraseChange.SealAll | rust/src/key.rs:1733-1753 | Succeeds exactly when every component can be sealed, and then every component carries the new passphrase and nothing is cached for any of them |
| Passphrase.PassphraseChange.ChangeWholeKey | rust/src/key.rs:1666-1753 | The outcome and the number of prompts are those the answers, the cached passphrase and the seals make of it; at most 2 + 3(n+1) prompts for n subkeys, one for the new passphrase and only once everything is open; on success one passphrase for all, the one given last, and no cache lookup hits for any component under any scope or info |
| PassphraseRules.RetriesExactly | rust/src/key.rs:1615-1634 | Retries succeed exactly when one of three answers is the passphrase and only wrong, non-empty ones come before it; else the first other answer decides the error, and three wrong ones are a bad passphrase; the number of prompts follows |
| PassphraseRules.OpensExactly | rust/src/key.rs:1603-1634 | A component opens exactly when it is open, the passphrase at hand fits, or a retry does |
| PassphraseRules.OpenEachExactly | rust/src/key.rs:1697-1723 | All components open exactly when each does in its turn, its prompts numbered after those of the ones before it |
| PassphraseRules.ChangeSucceedsExactly | rust/src/key.rs:1666-1753 | The change succeeds exactly when every component opens in its turn, the next answer is a non-empty new passphrase, and every component can be sealed with it |
| PassphraseRules.NothingAtHand | rust/src/key.rs:1666-1695 | With something locked and neither a cached passphrase nor an answer it fails at once, and how |
| PassphraseRules.ChangeIsBounded | rust/src/key.rs:1666-1753 | At most 2 + 3(n+1) prompts for n subkeys |
| Passphrase.ForgottenMeansNoHit | rust/src/cache.rs:295-299 | With nothing filed under a fingerprint no lookup hits, in any spelling, scope, purpose or time |
| Framing.ReadChunks | rust/src/inspect.rs:485-545 | The cursor loop over partial chunks computes the recursive reading of a body |
| Framing.ReadFraming | rust/src/inspect.rs:485-545 | One packet's header and body read by the loop, or no packet, exactly as the recursive form says |
| Framing.PacketsTile | rust/src/inspect.rs:552-603 | The packets tile a prefix of the input without gap or overlap, and all of it when there is no note |
| SecondDecoder.WalkBody | rust/src/conformance_tests.rs:84-117 | The inner loop over the segments of a body computes its recursive form |
| SecondDecoder.WalkRaw | rust/src/conformance_tests.rs:71-145 | The outer loop over the packets computes the recursive form of the decoder |
| SecondDecoder.BodiesAgree | rust/src/conformance_tests.rs:84-117 | A body the second decoder accepts is the one the reader finds complete |
| SecondDecoder.DecodersAgree | rust/src/conformance_tests.rs:71-145 | On every input the second decoder succeeds exactly when the reader ends without a note on determinate lengths, with the same packets |
| SecondDecoder.ExpectedMeans | rust/src/conformance_tests.rs:71-145 | What that agreement says packet by packet: type, offsets and body |
| Encoders.MinimalIsShortest | rust/src/testutil.rs:1211-1223 | Among the encodings with a whole length of one, two or five octets, none is shorter than the one a complete packet is written with, and one of the same size is the same |
| Encoders.PartialCanBeShorter | rust/src/testutil.rs:1211-1258 | A partial encoding can still be shorter: 16384 octets take 16387 as one chunk and 16390 as a complete packet |
| Encoders.PartialBody | rust/src/testutil.rs:1236-1258 | The chunk loop writes the encoding that reads back |
| Encoders.ReadEncodedChunks | rust/src/testutil.rs:1236-1258 | A partial body reads back without its chunk headers |
| Encoders.ReadPacket | rust/src/testutil.rs:1163-1223 | A packet in any encoding, anywhere in a stream, reads back |
| Encoders.FramingRoundTrip | rust/src/inspect.rs:485-603 | Any list of packets in any mixture of encodings: every type, offset and body is recovered with no note, and both decoders agree |
| BrokenStreams.BrokenStreamExactly | rust/src/inspect.rs:485-603 | Any list of packets followed by one cut short in any encoding, one of indeterminate length, or something that is no packet: every complete packet is recovered, what is there of the last one too, and the note says how and where the stream ends |
| BrokenStreams.ReadTail | rust/src/testutil.rs:1195-1234 | A packet declared longer than its body, or cut in or after a chunk, reads as truncated with the octets that are there; one of indeterminate length runs to the end and is not truncated |
| Walk.StreamIsAffordable | rust/src/inspect.rs:552-650 | At every depth: packets, their number and their octets are paid for by input or decompressed octets, levels are bounded, raw octets come out of their budget |
| Walk.StreamConserves | rust/src/inspect.rs:606-650 | At every depth: the octets all containers were decompressed to plus the budget left is the budget there was |
| WalkTheorems.WalkIsBounded | rust/src/inspect.rs:552-650 | For any input and decompressor: octets decompressed plus budget left is 64 MiB, packets of all levels take no more octets than were read and decompressed and are no more in number, seven levels of children, and raw handed out plus raw left stays 4 MiB |
| WalkTheorems.RawRunsOutForGood | rust/src/inspect.rs:680-692 | Once a packet went short of raw octets every packet reached later carries none |
| WalkTheorems.StreamDrains | rust/src/inspect.rs:680-692 | The same as an invariant of the walk at every depth |
| WalkTheorems.WalkFollowsPackets | rust/src/inspect.rs:552-603 | One node per packet, in order, with its type, offsets, sizes and first octets, laid out without gap at every level |
| WalkTheorems.StreamIsLaid | rust/src/inspect.rs:552-650 | Children tile their own stream from 0 at every level |
| WalkMeaning.StreamIsExplained | rust/src/inspect.rs:552-650 | At every depth: one node per packet with its type, offsets, sizes, first octets and problem; a compressed packet that gives octets, not too deep, has for children the nodes of the packets in the first of those octets, as many as the budget left, which is charged; every other node has none |
| WalkMeaning.WalkedExactly | rust/src/inspect.rs:552-692 | Those rules have exactly one outcome for every input, decompressor, depth and budget, and it is the walk's |
| WalkMeaning.ExpandIsExplained | rust/src/inspect.rs:606-650 | The children of a container are the nodes of the packets in what it decompresses to, cut at the budget, and what is said of it follows from its header, its contents and the budget |
| WalkLoop.Spending.AttachOctets | rust/src/inspect.rs:680-692 | How many octets are handed over, and the budget after it |
| WalkLoop.Spending.WalkPacket | rust/src/inspect.rs:560-598 | One packet's node and the shared budget after it |
| WalkLoop.Spending.WalkPackets | rust/src/inspect.rs:552-603 | The loop with the shared mutable budget computes the recursive walk, and its note |
| WalkLoop.Spending.WalkCompressed | rust/src/inspect.rs:606-650 | A container's children or the reason it stayed shut, and the budget after it; `WalkMeaning.ExpandIsExplained` says which packets the children are |
| Crc24.ComputeCrc | rust/src/inspect.rs:714-726 | The nested bit loop computes the checksum and stays below 2^24 at every step |
| Crc24Theorems.CrcIsRemainder | rust/src/inspect.rs:714-726 | The checksum is the one polynomial below degree 24 congruent to the message modulo the generator |
| Crc24Theorems.ShortBurstIsDetected | rust/src/inspect.rs:714-726 | Inputs of equal length that differ only within three consecutive octets never share a checksum |
| Crc24Theorems.BitBurstIsDetected | rust/src/inspect.rs:714-726 | Nor do inputs of equal length whose bits differ only within 24 consecutive positions, aligned to octets or not |
| CacheHistory.LookupFollowsHistory | rust/src/cache.rs:250-305 | A lookup hits exactly when the latest put for the same scope, upper-cased fingerprint and info stands, every use since was in time and the cap has not passed; the value is that put's |
| CacheHistory.HistoryAgrees | rust/src/cache.rs:250-305 | The map holds, deadlines included, exactly what the history entitles each key to |
| CacheHistory.LivePutMeans | rust/src/cache.rs:270-305 | The latest standing put, read backwards, is the one nothing later replaces or removes |
| CacheHistory.PasswordCache.constructor | rust/src/cache.rs:221-228 | An empty cache whose cap is clamped up to the idle window |
| CacheHistory.PasswordCache.Configure | rust/src/cache.rs:243-248 | Reconfiguration is one event of the history |
| CacheHistory.PasswordCache.Fetch | rust/src/cache.rs:250-268 | A lookup's answer in terms of the history alone |
| CacheHistory.PasswordCache.Store | rust/src/cache.rs:270-286 | Storing is one event of the history |
| CacheHistory.PasswordCache.Evict | rust/src/cache.rs:288-293 | Removing is one event of the history |
| CacheHistory.PasswordCache.EvictByFpr | rust/src/cache.rs:295-299 | Removing by fingerprint is one event, and leaves nothing filed under it |
| CacheHistory.PasswordCache.EvictAll | rust/src/cache.rs:302-305 | Clearing is one event of the history |
| CacheThreads.EveryRunIsSound | rust/src/cache.rs:221-305 | Under every interleaving each entry keeps its idle deadline at or below its hard one and stems from a put that still stands, and everything served was sound |
| CacheThreads.NothingServedPastTheCap | rust/src/cache.rs:250-286 | Whatever is served was put earlier, not replaced or removed since, and the clock reading lies before that put's plus the cap it read |
| CacheThreads.GetKeepsHardDeadlines | rust/src/cache.rs:250-268 | No lookup moves a hard deadline or adds an entry |
| CacheOrder.EveryRunIsInOrder | rust/src/cache.rs:221-305 | Every interleaving has the outcome of the sequential cache on the operations in lock order, each with the clock and timeouts it had read: the same entries and the same answers |
| CacheOrder.ServedExactly | rust/src/cache.rs:250-305 | Under threads a lookup is served exactly when the latest put in lock order stands, every lookup since came within the idle window the access before it had read, and the cap that put had read has not passed; the value is that put's |
| CacheClamp.TimeoutsAfter | rust/src/cache.rs:221-248 | After any interleaving the two timeouts are those of the calls that stored them last |
| CacheClamp.ClampHeldExactly | rust/src/cache.rs:240-248 | A schedule keeps the cap at or above the idle window for all timeouts exactly when the call that stored the idle window last also stored the cap last |
| CacheClamp.CrossedStoresBreakTheClamp | rust/src/cache.rs:240-248 | When different calls stored them last, these timeouts leave the cap too short |
| CacheClamp.OverlappingSetsLoseTheClamp | rust/src/cache.rs:240-248 | Two overlapping reconfigurations can leave the cap below the idle window |
| CacheClamp.SerialisedSetsKeepTheClamp | rust/src/cache.rs:240-248 | Corollary: calls that do not overlap keep the cap at or above the idle window for all timeouts, once none is half done |
| SemVer.ParseRender | scripts/release/semver.py:39-65 | Parsing what was printed restores every field, with or without a leading v |
| SemVer.RenderParse | scripts/release/semver.py:17-65 | Whatever parses is well-formed and prints back as its own text, less space and a leading v |
| Precedence.Trichotomy | scripts/release/semver.py:67-85 | Exactly one of smaller, same and larger holds |
| Precedence.Transitive | scripts/release/semver.py:67-85 | The order is transitive |
| Precedence.OrderMeetsStandard | scripts/release/semver.py:67-85 | The key comparison is the precedence of section 11 of SemVer 2.0.0, clause by clause |
| Precedence.SameMeansSameText | scripts/release/semver.py:67-80 | Versions compare equal exactly when core and prerelease text agree |
| Precedence.LeadingZerosWouldCollide | scripts/release/semver.py:17-21 | Without the grammar's ban on leading zeros two different versions would compare equal |
| Precedence.BehindExactly | scripts/release/check_order.py:83-90 | Comparing with the newest tag is comparing with every tag |
| Precedence.CheckOrder | scripts/release/check_order.py:78-114 | No problem is reported exactly when the build is newer than every tag it must follow, equal only without build metadata, and in its series |
| Manifest.ReadManifest | scripts/release_candidate.py:230-254 | The strict reading loop computes the parse the theorems are about, refusals included |
| ManifestGrammar.AcceptedExactly | scripts/release_candidate.py:230-254 | The strict reader accepts a text as these digests exactly when it lists them, a line each, under distinct, plain and unreserved names |
| Manifest.PlainNamesReadBack | scripts/release_candidate.py:159-161 | Reading undoes writing for names without a newline |
| Manifest.NewlineNameIsRefused | scripts/release_candidate.py:230-254 | A name that ends in a newline breaks its line in two and the manifest is refused |
| Manifest.ManifestReadsBackExactly | scripts/release_candidate.py:159-161 | Reading undoes writing exactly when no name ends in a newline, and is refused otherwise |
| Manifest.NewlineNameExample | scripts/release_candidate.py:68-69 | A file called "a" and a newline passes the name check, and its own manifest is refused |
| Candidate.CollectLegs | scripts/release_candidate.py:109-133 | The legs, exactly when every artifact is a directory of a known kind and every leg has both kinds |
| Candidate.AddLeg | scripts/release_candidate.py:170-184 | One leg's files join exactly when its build info and names pass and no earlier leg delivers one of them |
| Candidate.GatherLegs | scripts/release_candidate.py:164-184 | All checks of staging, leg by leg |
| Candidate.Output.Stage | scripts/release_candidate.py:164-202 | Succeeds exactly on acceptable artifacts and a fresh output; a refused input writes nothing |
| StagingRules.StagingAcceptsExactly | scripts/release_candidate.py:109-184 | Staging accepts exactly the artifacts that are each a directory of deliverables with safe, unreserved names or of one build info file with its four fields, beside the other one of their leg, when no name is delivered twice |
| Candidate.StagedContents | scripts/release_candidate.py:182-198 | Every leg's every file is staged with that leg's own content |
| Candidate.StagedNames | scripts/release_candidate.py:164-202 | Exactly the delivered names are staged, all of them safe and unreserved |
| Candidate.Verify | scripts/release_candidate.py:257-282 | Lists what to publish exactly when the gate opens, and only if the signature check holds of that bundle, identity, commit and manifest |
| Candidate.GateOpensExactly | scripts/release_candidate.py:208-282 | The gate opens exactly when identity and commit are stated, the bundle signs the manifest under them, and the manifest lists every other file, all of them regular, with its digest and nothing else |
| Candidate.StagedCandidateVerifies | scripts/release_candidate.py:164-282 | A staged and signed candidate passes exactly when no delivered name ends in a newline, and publishes exactly what was delivered |
| Candidate.SameManifestSameFiles | scripts/release_candidate.py:257-282 | Two accepted directories with the same manifest hold the same files, barring a digest collision between them |
| Candidate.AcceptedIsWhatWasStaged | scripts/release_candidate.py:164-282 | An accepted directory with a staged manifest is the staged candidate, file for file, barring a digest collision |

## Left out

- Signature mathematics, armor, serialisation and its failures, and key generation: they belong to the rPGP crate.
- Signing is taken to succeed when a self-signature is re-issued, with a default hash that a re-issue may use.
- Secret key material of subkeys: the merge is about which list a subkey and its signatures end up in.
- Which primary User ID the listing names (`listed_user_ids`, `primary_user_index`), which depends on pointer identity, and the capabilities other than signing.
- `set_channel_scope` and `channel_scope`: a scope is a parameter of the cache key.
- Case folding beyond ASCII in fingerprints, and Unicode digits and spaces in version text.
- Overflow of clock arithmetic in the cache: clock readings and durations are unbounded.
- Weak memory: the two relaxed atomics of the cache are read and written in an interleaving.
- Armor regions, cleartext messages and the wording of notes in `rust/src/inspect.rs`; raw octets are octets, not their hexadecimal text.
- Which message a refusal carries, except where a theorem is about it.
- The cosign subprocess, file copying and hashing in `scripts/release_candidate.py`, and its command line.
- Tag discovery and git calls of `scripts/release/check_order.py`, and `check_tag`.
- Changing the passphrase of a single key, deleting and revoking subkeys, and revocation certificates in `rust/src/key.rs`: easy members beside the ones modelled.
- `rust/src/keygen.rs`, `rust/src/err.rs`, `rust/src/types.rs`, `rust/src/host.rs`, `rust/src/lib.rs`, `rust/src/cancel.rs`, `rust/src/tar.rs`, the other scripts and the C++ user interface: each would only add easy members.
- MergeIdempotence.MergedDetailsAbsorb: asks for a target without repeated key-level signatures and distinct incoming components; `RepeatedDetailsExactly` asks exactly what is needed.
- MergeSubkeys.OwnCopyAbsorbed: asks for a copy without repetitions; `RepeatedBlocksExactly` covers the others.
- Expiry.ReissuedUserSpeaks: asks that nothing left behind outrank the new signature; `TakesOverNowExactly` and `TakesOverAlwaysExactly` say exactly when it does.
- Expiry.UpdatedGoverns: asks the same of every self-certification of the key, because which User ID governs then depends on those left behind.
- Reissuing.RenewalGoverns: asks the same as `UpdatedGoverns`; `KeyUpdatedExactly` with `KeySpeaksExactly` covers the others.
- Reissuing.DirectRenewalGoverns: asks the same; `DirectTakesOverExactly` has the exact condition.
- Reissuing.RenewalSigns: asks the same as `UpdatedVerdict`.
- BrokenStreams.ReadTail: of what is no packet it names octets below 128 and new-format headers cut inside a first or a five-octet length.
- Expiry.ExpiryReadsBack: asks that no trusted self-signature that does not name its issuer be newer than the re-issue, since the program leaves it in place and it goes on governing (`UnnamedCertificationSpeaksOn`).
- Expiry.SubkeyExpiryReadsBack: asks the same of bindings; `BindingTakesOverExactly` has the exact condition.
- Expiry.UpdatedVerdict: asks that a User ID revoked at any time be revoked by `t`; one revoked after `t` keeps its old certification, which may still govern `t`.
- MergeRevocation.MergeOrderKeepsVerifiedSignatures: asks that verifying signatures name the primary key as issuer, since an unnamed one counts as foreign and is subject to the cap, and that no different User ID reads the same, for which `MergeOrderKeepsUserIdExactly` has the exact condition.
- MergeSubkeys.MergeIsIdempotent: asks for a target without repeated key-level signatures and an incoming copy with distinct components; `RepeatedBlocksExactly` asks exactly what is needed.
