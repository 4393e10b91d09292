/**
 * Staging and verifying a release candidate (`scripts/release_candidate.py`). A
 * directory is a map from names to files; hashing, reading build info and the
 * Sigstore verdict are parameters.
 */
module Candidate {
  import opened Common
  import opened Manifest
  import opened ManifestGrammar

  datatype File = Regular(content: string) | NotRegular

  type Directory = map<string, File>

  datatype Artifact = ArtifactDir(files: Directory) | NotADirectory

  type Artifacts = map<string, Artifact>

  const DELIVERABLE_PREFIX: string := "gpgfrontend-"
  const BUILD_INFO_PREFIX: string := "buildinfo-"
  const REQUIRED_FIELDS: set<string> := {"project_version", "build_id", "host_os", "modules"}

  /** The top-level fields of a build info file, or `None` if it is malformed. */
  type Fields = string -> Option<set<string>>

  type Digest = string -> string

  predicate StartsWith(s: string, prefix: string) {
    |prefix| <= |s| && s[..|prefix|] == prefix
  }

  // ----- staging

  predicate AllRegular(dir: Directory) {
    forall n :: n in dir ==> dir[n].Regular?
  }

  function Legs(root: Artifacts, prefix: string): set<string> {
    set n | n in root && StartsWith(n, prefix) :: n[|prefix|..]
  }

  predicate KnownArtifact(root: Artifacts, n: string)
    requires n in root
  {
    root[n].ArtifactDir? && (StartsWith(n, DELIVERABLE_PREFIX) || StartsWith(n, BUILD_INFO_PREFIX))
  }

  /** Every artifact is a directory of a known kind, and every leg has both kinds. */
  predicate Collectable(root: Artifacts) {
    && (forall n :: n in root ==> KnownArtifact(root, n))
    && Legs(root, DELIVERABLE_PREFIX) != {}
    && Legs(root, DELIVERABLE_PREFIX) == Legs(root, BUILD_INFO_PREFIX)
  }

  function DirOf(root: Artifacts, prefix: string, leg: string): Directory {
    if prefix + leg in root && root[prefix + leg].ArtifactDir? then root[prefix + leg].files else map[]
  }

  predicate InfoOk(dir: Directory, fields: Fields) {
    && dir.Keys == {BUILD_INFO} && dir[BUILD_INFO].Regular?
    && fields(dir[BUILD_INFO].content).Some?
    && REQUIRED_FIELDS <= fields(dir[BUILD_INFO].content).value
  }

  predicate NameOk(n: string) {
    IsSafeName(n) && !Reserved(n)
  }

  predicate NamesOk(dir: Directory) {
    forall n :: n in dir ==> NameOk(n)
  }

  predicate DeliverablesOk(dir: Directory) {
    AllRegular(dir) && dir != map[] && NamesOk(dir)
  }

  predicate LegOk(root: Artifacts, fields: Fields, leg: string) {
    && InfoOk(DirOf(root, BUILD_INFO_PREFIX, leg), fields)
    && DeliverablesOk(DirOf(root, DELIVERABLE_PREFIX, leg))
  }

  predicate NoSharedNames(root: Artifacts, legs: seq<string>) {
    forall i, j :: 0 <= i < j < |legs| ==>
      DirOf(root, DELIVERABLE_PREFIX, legs[i]).Keys !! DirOf(root, DELIVERABLE_PREFIX, legs[j]).Keys
  }

  /** What staging demands of its input. */
  predicate Acceptable(root: Artifacts, fields: Fields) {
    && Collectable(root)
    && (forall leg :: leg in Legs(root, DELIVERABLE_PREFIX) ==> LegOk(root, fields, leg))
    && NoSharedNames(root, Sorted(Legs(root, DELIVERABLE_PREFIX)))
  }

  type Sources = map<string, string>

  function Contents(dir: Directory): Sources {
    map n | n in dir && dir[n].Regular? :: dir[n].content
  }

  /** The deliverables of some legs, together. */
  function Gather(root: Artifacts, legs: seq<string>): Sources {
    if legs == [] then map[]
    else Gather(root, legs[..|legs| - 1]) + Contents(DirOf(root, DELIVERABLE_PREFIX, legs[|legs| - 1]))
  }

  function StagedSources(root: Artifacts): Sources {
    Gather(root, Sorted(Legs(root, DELIVERABLE_PREFIX)))
  }

  function HashesOf(sources: Sources, digest: Digest): Hashes {
    map n | n in sources :: digest(sources[n])
  }

  function Copied(sources: Sources): Directory {
    map n | n in sources :: Regular(sources[n])
  }

  /** The candidate directory: the deliverables and their manifest. */
  function CandidateOf(sources: Sources, digest: Digest): Directory {
    Copied(sources)[MANIFEST := Regular(RenderManifest(HashesOf(sources, digest)))]
  }

  /** Sort the artifacts into legs, refusing anything unknown or unpaired. */
  method CollectLegs(root: Artifacts) returns (legs: Option<set<string>>)
    ensures legs == if Collectable(root) then Some(Legs(root, DELIVERABLE_PREFIX)) else None
  {
    var left := root.Keys;
    var deliverables: set<string>, infos: set<string> := {}, {};
    while left != {}
      invariant left <= root.Keys
      invariant forall n :: n in root.Keys - left ==> KnownArtifact(root, n)
      invariant deliverables == set n | n in root.Keys - left && StartsWith(n, DELIVERABLE_PREFIX) :: n[|DELIVERABLE_PREFIX|..]
      invariant infos == set n | n in root.Keys - left && StartsWith(n, BUILD_INFO_PREFIX) :: n[|BUILD_INFO_PREFIX|..]
      decreases |left|
    {
      var n :| n in left;
      if !root[n].ArtifactDir? {
        return None;
      }
      if StartsWith(n, DELIVERABLE_PREFIX) {
        PrefixesDiffer(n);
        deliverables := deliverables + {n[|DELIVERABLE_PREFIX|..]};
      } else if StartsWith(n, BUILD_INFO_PREFIX) {
        infos := infos + {n[|BUILD_INFO_PREFIX|..]};
      } else {
        return None;
      }
      left := left - {n};
    }
    assert root.Keys - left == root.Keys;
    if deliverables == {} || deliverables != infos {
      return None;
    }
    return Some(deliverables);
  }

  lemma FirstOfPrefix(n: string, prefix: string)
    requires StartsWith(n, prefix) && prefix != []
    ensures n[0] == prefix[0]
  {
    assert n[..|prefix|][0] == n[0];
  }

  lemma PrefixesDiffer(n: string)
    requires StartsWith(n, DELIVERABLE_PREFIX)
    ensures !StartsWith(n, BUILD_INFO_PREFIX)
  {
    FirstOfPrefix(n, DELIVERABLE_PREFIX);
    if StartsWith(n, BUILD_INFO_PREFIX) {
      FirstOfPrefix(n, BUILD_INFO_PREFIX);
    }
  }

  lemma {:induction false} GatherKeys(root: Artifacts, legs: seq<string>, n: string)
    requires forall leg :: leg in legs ==> AllRegular(DirOf(root, DELIVERABLE_PREFIX, leg))
    ensures n in Gather(root, legs)
            <==> exists leg :: leg in legs && n in DirOf(root, DELIVERABLE_PREFIX, leg)
  {
    if legs != [] {
      var front, last := legs[..|legs| - 1], legs[|legs| - 1];
      GatherKeys(root, front, n);
      assert last in legs && legs == front + [last];
      assert n in Contents(DirOf(root, DELIVERABLE_PREFIX, last)) <==> n in DirOf(root, DELIVERABLE_PREFIX, last);
    }
  }

  /** The deliverables of one directory, checked one by one and added to those gathered so far. */
  method AddFiles(dir: Directory, names: seq<string>, sources: Sources) returns (r: Option<Sources>)
    requires AllRegular(dir) && Distinct(names) && forall n :: n in names <==> n in dir
    ensures r == if NamesOk(dir) && dir.Keys !! sources.Keys then Some(sources + Contents(dir)) else None
  {
    var gathered := sources;
    for i := 0 to |names|
      invariant gathered == Added(sources, dir, NameSet(names[..i]))
      invariant NameSet(names[..i]) !! sources.Keys && forall n :: n in NameSet(names[..i]) ==> NameOk(n)
    {
      var name := names[i];
      PrefixOneMore(names, i);
      assert name in names;
      AddedOneMore(sources, dir, NameSet(names[..i]), name);
      if !NameOk(name) || name in gathered {
        return None;
      }
      gathered := gathered[name := dir[name].content];
    }
    assert NameSet(names[..|names|]) == dir.Keys;
    AddedAll(sources, dir);
    return Some(gathered);
  }

  ghost function NameSet(names: seq<string>): set<string> {
    set n | n in names
  }

  lemma PrefixOneMore(names: seq<string>, i: nat)
    requires i < |names| && Distinct(names)
    ensures names[i] !in NameSet(names[..i])
    ensures NameSet(names[..i + 1]) == NameSet(names[..i]) + {names[i]}
  {
    assert names[..i + 1] == names[..i] + [names[i]];
  }

  /** Some files of a directory added to what was gathered before. */
  ghost function Added(sources: Sources, dir: Directory, names: set<string>): Sources
    requires AllRegular(dir)
  {
    sources + map n | n in dir && n in names :: dir[n].content
  }

  lemma AddedAll(sources: Sources, dir: Directory)
    requires AllRegular(dir)
    ensures Added(sources, dir, dir.Keys) == sources + Contents(dir)
  {
    assert Contents(dir) == map n | n in dir && n in dir.Keys :: dir[n].content;
  }

  lemma AddedOneMore(sources: Sources, dir: Directory, names: set<string>, name: string)
    requires AllRegular(dir) && name in dir && name !in names
    ensures name in Added(sources, dir, names) <==> name in sources
    ensures Added(sources, dir, names + {name}) == Added(sources, dir, names)[name := dir[name].content]
  {
  }

  method AddLeg(root: Artifacts, fields: Fields, leg: string, sources: Sources) returns (r: Option<Sources>)
    ensures var dir := DirOf(root, DELIVERABLE_PREFIX, leg);
            r == if LegOk(root, fields, leg) && dir.Keys !! sources.Keys then Some(sources + Contents(dir)) else None
  {
    var dir := DirOf(root, DELIVERABLE_PREFIX, leg);
    if !InfoOk(DirOf(root, BUILD_INFO_PREFIX, leg), fields) || !AllRegular(dir) || dir == map[] {
      return None;
    }
    SortedDistinct(dir.Keys);
    r := AddFiles(dir, Sorted(dir.Keys), sources);
  }

  lemma GatherOneMore(root: Artifacts, legs: seq<string>, i: nat)
    requires i < |legs|
    ensures Gather(root, legs[..i + 1])
            == Gather(root, legs[..i]) + Contents(DirOf(root, DELIVERABLE_PREFIX, legs[i]))
  {
    assert legs[..i + 1][..i] == legs[..i];
  }

  /** A leg may join exactly when it repeats no name of the legs before it. */
  lemma JoinsExactly(root: Artifacts, legs: seq<string>, i: nat)
    requires i < |legs|
    requires forall leg :: leg in legs[..i] ==> AllRegular(DirOf(root, DELIVERABLE_PREFIX, leg))
    ensures DirOf(root, DELIVERABLE_PREFIX, legs[i]).Keys !! Gather(root, legs[..i]).Keys
            <==> forall j :: 0 <= j < i ==>
                   DirOf(root, DELIVERABLE_PREFIX, legs[j]).Keys !! DirOf(root, DELIVERABLE_PREFIX, legs[i]).Keys
  {
    forall n ensures n in Gather(root, legs[..i])
                     <==> exists j :: 0 <= j < i && n in DirOf(root, DELIVERABLE_PREFIX, legs[j])
    {
      GatherKeys(root, legs[..i], n);
      forall j | 0 <= j < i
        ensures legs[j] in legs[..i]
      {
        assert legs[..i][j] == legs[j];
      }
    }
  }

  /** All the checks of staging, leg by leg. */
  method GatherLegs(root: Artifacts, fields: Fields) returns (r: Option<Sources>)
    ensures r == if Acceptable(root, fields) then Some(StagedSources(root)) else None
  {
    var collected := CollectLegs(root);
    if collected.None? {
      return None;
    }
    var legs := Sorted(collected.value);
    var sources: Sources := map[];
    for i := 0 to |legs|
      invariant sources == Gather(root, legs[..i])
      invariant LegsOk(root, fields, legs[..i])
    {
      LegJoins(root, fields, legs, i);
      GatherOneMore(root, legs, i);
      var added := AddLeg(root, fields, legs[i], sources);
      if added.None? {
        return None;
      }
      sources := added.value;
    }
    assert legs[..|legs|] == legs;
    return Some(sources);
  }

  predicate LegsOk(root: Artifacts, fields: Fields, legs: seq<string>) {
    && (forall leg :: leg in legs ==> LegOk(root, fields, leg))
    && NoSharedNames(root, legs)
  }

  lemma LegJoins(root: Artifacts, fields: Fields, legs: seq<string>, i: nat)
    requires i < |legs| && LegsOk(root, fields, legs[..i])
    ensures LegsOk(root, fields, legs[..i + 1])
            <==> && LegOk(root, fields, legs[i])
                 && DirOf(root, DELIVERABLE_PREFIX, legs[i]).Keys !! Gather(root, legs[..i]).Keys
    ensures LegsOk(root, fields, legs) ==> LegsOk(root, fields, legs[..i + 1])
  {
    JoinsExactly(root, legs, i);
    NamesJoin(root, legs, i);
    LegsSplit(root, fields, legs, i);
  }

  lemma LegsSplit(root: Artifacts, fields: Fields, legs: seq<string>, i: nat)
    requires i < |legs|
    ensures (forall leg :: leg in legs[..i + 1] ==> LegOk(root, fields, leg))
            <==> (forall leg :: leg in legs[..i] ==> LegOk(root, fields, leg)) && LegOk(root, fields, legs[i])
    ensures (forall leg :: leg in legs ==> LegOk(root, fields, leg)) ==>
              forall leg :: leg in legs[..i + 1] ==> LegOk(root, fields, leg)
  {
    assert forall leg :: leg in legs[..i + 1] <==> leg in legs[..i] || leg == legs[i] by {
      assert legs[..i + 1] == legs[..i] + [legs[i]];
    }
  }

  lemma NamesJoin(root: Artifacts, legs: seq<string>, i: nat)
    requires i < |legs|
    ensures NoSharedNames(root, legs[..i + 1])
            <==> && NoSharedNames(root, legs[..i])
                 && forall j :: 0 <= j < i ==>
                      DirOf(root, DELIVERABLE_PREFIX, legs[j]).Keys !! DirOf(root, DELIVERABLE_PREFIX, legs[i]).Keys
    ensures NoSharedNames(root, legs) ==> NoSharedNames(root, legs[..i + 1])
  {
    assert forall j :: 0 <= j < i ==> legs[..i][j] == legs[..i + 1][j] == legs[j];
  }

  /** The output path: `None` until a candidate directory is made there. */
  class Output {
    var dir: Option<Directory>

    /** Everything is checked before anything is written. */
    method Stage(root: Artifacts, fields: Fields, digest: Digest) returns (ok: bool)
      modifies this
      ensures ok <==> Acceptable(root, fields) && old(dir).None?
      ensures dir == if ok then Some(CandidateOf(StagedSources(root), digest)) else old(dir)
    {
      var sources := GatherLegs(root, fields);
      if sources.None? || dir.Some? {
        return false;
      }
      Write(sources.value, digest);
      return true;
    }

    /** Copies the files, hashes the copies, and writes the manifest last. */
    method Write(sources: Sources, digest: Digest)
      modifies this
      ensures dir == Some(CandidateOf(sources, digest))
    {
      dir := Some(map[]);
      var names := Sorted(sources.Keys);
      var hashes: Hashes := map[];
      for i := 0 to |names|
        invariant dir == Some(Copied(Taken(sources, names[..i])))
        invariant hashes == HashesOf(Taken(sources, names[..i]), digest)
      {
        var name := names[i];
        TakeOneMore(sources, names, i);
        CopyOneMore(Taken(sources, names[..i]), name, sources[name], digest);
        dir := Some(dir.value[name := Regular(sources[name])]);
        hashes := hashes[name := digest(sources[name])];
      }
      TakeAll(sources, names);
      dir := Some(dir.value[MANIFEST := Regular(RenderManifest(hashes))]);
    }
  }

  function Taken(sources: Sources, names: seq<string>): Sources {
    map n | n in sources && n in names :: sources[n]
  }

  lemma TakeOneMore(sources: Sources, names: seq<string>, i: nat)
    requires i < |names| && names[i] in sources
    ensures Taken(sources, names[..i + 1]) == Taken(sources, names[..i])[names[i] := sources[names[i]]]
  {
    assert names[..i + 1] == names[..i] + [names[i]];
  }

  lemma TakeAll(sources: Sources, names: seq<string>)
    requires forall n :: n in sources ==> n in names
    ensures Taken(sources, names[..|names|]) == sources
  {
    assert names[..|names|] == names;
  }

  lemma CopyOneMore(sources: Sources, name: string, content: string, digest: Digest)
    ensures Copied(sources[name := content]) == Copied(sources)[name := Regular(content)]
    ensures HashesOf(sources[name := content], digest) == HashesOf(sources, digest)[name := digest(content)]
  {
  }

  // ----- verifying

  /** Whether a bundle signs a manifest, under an identity and a commit. */
  type Cosign = (string, string, string, string) -> bool

  datatype Gate = Gate(identity: string, sha: string, cosign: Cosign, digest: Digest)

  function Published(dir: Directory): set<string> {
    dir.Keys - {MANIFEST, BUNDLE}
  }

  predicate HasFile(dir: Directory, name: string) {
    name in dir && dir[name].Regular?
  }

  predicate Signed(dir: Directory, gate: Gate) {
    && gate.identity != "" && gate.sha != ""
    && HasFile(dir, MANIFEST) && HasFile(dir, BUNDLE)
    && gate.cosign(dir[BUNDLE].content, gate.identity, gate.sha, dir[MANIFEST].content)
  }

  predicate HashesMatch(dir: Directory, entries: Hashes, digest: Digest)
    requires AllRegular(dir) && entries.Keys <= dir.Keys
  {
    forall n :: n in entries ==> digest(dir[n].content) == entries[n]
  }

  /** The whole publication gate. */
  predicate Verifies(dir: Directory, gate: Gate) {
    && Signed(dir, gate)
    && var entries := ParseManifest(dir[MANIFEST].content);
    && entries.Some? && AllRegular(dir)
    && Published(dir) == entries.value.Keys && entries.value.Keys <= dir.Keys
    && HashesMatch(dir, entries.value, gate.digest)
  }

  method CheckHashes(dir: Directory, entries: Hashes, digest: Digest) returns (ok: bool)
    requires AllRegular(dir) && entries.Keys <= dir.Keys
    ensures ok <==> HashesMatch(dir, entries, digest)
  {
    var names := Sorted(entries.Keys);
    for i := 0 to |names|
      invariant forall j :: 0 <= j < i ==> names[j] in entries && dir[names[j]].Regular?
      invariant forall j :: 0 <= j < i ==> digest(dir[names[j]].content) == entries[names[j]]
    {
      assert names[i] in entries.Keys;
      if digest(dir[names[i]].content) != entries[names[i]] {
        return false;
      }
    }
    assert forall n :: n in entries ==> n in names;
    return true;
  }

  /** Checks a directory and lists what may be published from it. */
  method Verify(dir: Directory, gate: Gate) returns (files: Option<seq<string>>)
    ensures files == if Verifies(dir, gate) then Some(Sorted(Published(dir)) + [MANIFEST, BUNDLE]) else None
    ensures files.Some? ==>
              && gate.identity != "" && gate.sha != ""
              && HasFile(dir, MANIFEST) && HasFile(dir, BUNDLE)
              && gate.cosign(dir[BUNDLE].content, gate.identity, gate.sha, dir[MANIFEST].content)
  {
    if !Signed(dir, gate) {
      return None;
    }
    var entries := ReadManifest(dir[MANIFEST].content);
    if entries.None? || !AllRegular(dir) || Published(dir) != entries.value.Keys {
      return None;
    }
    var same := CheckHashes(dir, entries.value, gate.digest);
    if !same {
      return None;
    }
    return Some(Sorted(entries.value.Keys) + [MANIFEST, BUNDLE]);
  }

  // ----- what staging and verifying promise together

  ghost predicate IsHash(digest: Digest) {
    forall s :: IsDigest(digest(s))
  }

  /** Some leg delivers a file of this name. */
  predicate Delivered(root: Artifacts, n: string) {
    exists leg :: leg in Legs(root, DELIVERABLE_PREFIX) && n in DirOf(root, DELIVERABLE_PREFIX, leg)
  }

  lemma StagedNames(root: Artifacts, fields: Fields, n: string)
    requires Acceptable(root, fields)
    ensures n in StagedSources(root) <==> Delivered(root, n)
    ensures Delivered(root, n) ==> IsSafeName(n) && !Reserved(n)
  {
    var legs := Sorted(Legs(root, DELIVERABLE_PREFIX));
    forall leg | leg in legs
      ensures DeliverablesOk(DirOf(root, DELIVERABLE_PREFIX, leg))
    {
      assert LegOk(root, fields, leg);
    }
    GatherKeys(root, legs, n);
  }

  lemma {:induction false} GatherKeeps(root: Artifacts, legs: seq<string>, k: nat, n: string)
    requires k < |legs| && NoSharedNames(root, legs)
    requires forall leg :: leg in legs ==> AllRegular(DirOf(root, DELIVERABLE_PREFIX, leg))
    requires n in DirOf(root, DELIVERABLE_PREFIX, legs[k])
    ensures n in Gather(root, legs)
    ensures DirOf(root, DELIVERABLE_PREFIX, legs[k])[n] == Regular(Gather(root, legs)[n])
    decreases |legs|
  {
    var front, last := legs[..|legs| - 1], legs[|legs| - 1];
    assert legs[k] in legs;
    if k < |front| {
      assert front[k] == legs[k];
      GatherKeeps(root, front, k, n);
      assert n !in DirOf(root, DELIVERABLE_PREFIX, last);
    }
  }

  /** Every leg's every file is staged, with that leg's own bytes. */
  lemma StagedContents(root: Artifacts, fields: Fields, leg: string, n: string)
    requires Acceptable(root, fields)
    requires leg in Legs(root, DELIVERABLE_PREFIX) && n in DirOf(root, DELIVERABLE_PREFIX, leg)
    ensures n in StagedSources(root)
    ensures DirOf(root, DELIVERABLE_PREFIX, leg)[n] == Regular(StagedSources(root)[n])
  {
    var legs := Sorted(Legs(root, DELIVERABLE_PREFIX));
    forall l | l in legs
      ensures AllRegular(DirOf(root, DELIVERABLE_PREFIX, l))
    {
      assert LegOk(root, fields, l);
    }
    assert leg in legs;
    var k :| 0 <= k < |legs| && legs[k] == leg;
    GatherKeeps(root, legs, k, n);
  }

  lemma SomethingStaged(root: Artifacts, fields: Fields) returns (n: string)
    requires Acceptable(root, fields)
    ensures n in StagedSources(root)
  {
    var leg :| leg in Legs(root, DELIVERABLE_PREFIX);
    assert LegOk(root, fields, leg);
    n :| n in DirOf(root, DELIVERABLE_PREFIX, leg);
    StagedContents(root, fields, leg, n);
  }

  /** The staged manifest reads back exactly when no delivered name ends in a newline. */
  lemma StagedManifestReadsBack(root: Artifacts, fields: Fields, digest: Digest)
    requires Acceptable(root, fields) && IsHash(digest)
    ensures var hashes := HashesOf(StagedSources(root), digest);
            var parsed := ParseManifest(RenderManifest(hashes));
            && (parsed == Some(hashes) <==> forall n :: Delivered(root, n) ==> !EndsInNewline(n))
            && (parsed.None? <==> exists n :: Delivered(root, n) && EndsInNewline(n))
  {
    var hashes := HashesOf(StagedSources(root), digest);
    forall n
      ensures n in hashes <==> Delivered(root, n)
      ensures n in hashes ==> IsSafeName(n) && !Reserved(n)
    {
      StagedNames(root, fields, n);
    }
    var n := SomethingStaged(root, fields);
    assert n in hashes;
    ManifestReadsBackExactly(hashes);
  }

  /** The candidate directory once the manifest's signature is put beside it. */
  function SignedCandidate(root: Artifacts, digest: Digest, bundle: string): Directory {
    CandidateOf(StagedSources(root), digest)[BUNDLE := Regular(bundle)]
  }

  lemma CandidateHolds(root: Artifacts, fields: Fields, digest: Digest, bundle: string)
    requires Acceptable(root, fields)
    ensures var dir := SignedCandidate(root, digest, bundle);
            && AllRegular(dir) && Published(dir) == StagedSources(root).Keys
            && HasFile(dir, MANIFEST) && HasFile(dir, BUNDLE)
            && dir[MANIFEST].content == RenderManifest(HashesOf(StagedSources(root), digest))
            && dir[BUNDLE].content == bundle
            && forall n :: n in StagedSources(root) ==> dir[n] == Regular(StagedSources(root)[n])
  {
    var sources := StagedSources(root);
    ManifestIsNotBundle();
    StagedNames(root, fields, MANIFEST);
    StagedNames(root, fields, BUNDLE);
    FilesBeside(sources, MANIFEST, RenderManifest(HashesOf(sources, digest)), BUNDLE, bundle);
  }

  lemma ManifestIsNotBundle()
    ensures MANIFEST != BUNDLE
  {
    assert |MANIFEST| < |BUNDLE|;
  }

  /** Two more files beside copied ones. */
  lemma FilesBeside(sources: Sources, m: string, manifest: string, b: string, bundle: string)
    requires m != b && m !in sources && b !in sources
    ensures var dir := Copied(sources)[m := Regular(manifest)][b := Regular(bundle)];
            && AllRegular(dir) && dir.Keys - {m, b} == sources.Keys
            && dir[m] == Regular(manifest) && dir[b] == Regular(bundle)
            && forall n :: n in sources ==> dir[n] == Regular(sources[n])
  {
    var dir := Copied(sources)[m := Regular(manifest)][b := Regular(bundle)];
    assert dir.Keys == sources.Keys + {m, b};
  }

  lemma ReadableVerifies(dir: Directory, gate: Gate, sources: Sources)
    requires Signed(dir, gate) && AllRegular(dir) && Published(dir) == sources.Keys
    requires forall n :: n in sources ==> dir[n] == Regular(sources[n])
    requires ParseManifest(dir[MANIFEST].content) in {None, Some(HashesOf(sources, gate.digest))}
    ensures Verifies(dir, gate) <==> ParseManifest(dir[MANIFEST].content).Some?
  {
    assert HashesOf(sources, gate.digest).Keys == sources.Keys;
  }

  /**
   * Stage, sign, verify: a candidate made from acceptable artifacts and properly
   * signed passes exactly when no delivered name ends in a newline, and then what
   * is published is exactly what was delivered, the manifest and the bundle.
   */
  lemma StagedCandidateVerifies(root: Artifacts, fields: Fields, gate: Gate, bundle: string)
    requires Acceptable(root, fields) && IsHash(gate.digest)
    requires Signed(SignedCandidate(root, gate.digest, bundle), gate)
    ensures var dir := SignedCandidate(root, gate.digest, bundle);
            && (Verifies(dir, gate) <==> forall n :: Delivered(root, n) ==> !EndsInNewline(n))
            && forall n :: n in Published(dir) <==> Delivered(root, n)
  {
    var dir := SignedCandidate(root, gate.digest, bundle);
    CandidateHolds(root, fields, gate.digest, bundle);
    StagedManifestReadsBack(root, fields, gate.digest);
    ReadableVerifies(dir, gate, StagedSources(root));
    forall n
      ensures n in Published(dir) <==> Delivered(root, n)
    {
      StagedNames(root, fields, n);
    }
  }

  /** Every other file of the directory is listed with its digest, and no more is listed. */
  predicate Covers(hashes: Hashes, dir: Directory, digest: Digest) {
    && (forall n :: n in dir && n != MANIFEST && n != BUNDLE ==> n in hashes)
    && forall n :: n in hashes ==>
         n != MANIFEST && n != BUNDLE && HasFile(dir, n) && digest(dir[n].content) == hashes[n]
  }

  /**
   * The gate opens exactly when the bundle signs the manifest under a stated
   * identity and commit, and the manifest lists every other file with its digest.
   */
  lemma GateOpensExactly(dir: Directory, gate: Gate)
    ensures Verifies(dir, gate)
            <==> && gate.identity != "" && gate.sha != ""
                 && HasFile(dir, MANIFEST) && HasFile(dir, BUNDLE)
                 && gate.cosign(dir[BUNDLE].content, gate.identity, gate.sha, dir[MANIFEST].content)
                 && exists hashes :: Lists(dir[MANIFEST].content, hashes) && Covers(hashes, dir, gate.digest)
  {
    if HasFile(dir, MANIFEST) && HasFile(dir, BUNDLE) {
      forall hashes
        ensures ParseManifest(dir[MANIFEST].content) == Some(hashes) <==> Lists(dir[MANIFEST].content, hashes)
        ensures Lists(dir[MANIFEST].content, hashes) ==>
                  (Covers(hashes, dir, gate.digest) <==> MatchesDirectory(hashes, dir, gate.digest))
      {
        AcceptedExactly(dir[MANIFEST].content, hashes);
        CoversExactly(hashes, dir, gate.digest);
      }
    }
  }

  predicate MatchesDirectory(hashes: Hashes, dir: Directory, digest: Digest) {
    AllRegular(dir) && Published(dir) == hashes.Keys && hashes.Keys <= dir.Keys && HashesMatch(dir, hashes, digest)
  }

  lemma CoversExactly(hashes: Hashes, dir: Directory, digest: Digest)
    requires HasFile(dir, MANIFEST) && HasFile(dir, BUNDLE)
    ensures Covers(hashes, dir, digest) <==> MatchesDirectory(hashes, dir, digest)
  {
    assert forall n :: n in Published(dir) <==> n in dir && n != MANIFEST && n != BUNDLE;
    if Covers(hashes, dir, digest) {
      assert Published(dir) == hashes.Keys;
      assert forall n :: n in dir ==> n == MANIFEST || n == BUNDLE || n in hashes;
    }
  }

  /** Two contents never stand under one name with one digest. */
  ghost predicate NoCollision(a: Directory, b: Directory, digest: Digest) {
    forall n :: HasFile(a, n) && HasFile(b, n) && digest(a[n].content) == digest(b[n].content) ==> a[n] == b[n]
  }

  /** Accepted directories with the same manifest publish the same files. */
  lemma SameManifestSameFiles(a: Directory, b: Directory, gateA: Gate, gateB: Gate)
    requires Verifies(a, gateA) && Verifies(b, gateB) && gateA.digest == gateB.digest
    requires a[MANIFEST] == b[MANIFEST] && NoCollision(a, b, gateA.digest)
    ensures a - {BUNDLE} == b - {BUNDLE}
  {
    var entries := ParseManifest(a[MANIFEST].content).value;
    ManifestIsNotBundle();
    SameEntriesSameFiles(a, b, MANIFEST, BUNDLE, entries, gateA.digest);
  }

  /** Directories that match the same digests are the same but for the bundle. */
  lemma SameEntriesSameFiles(
    a: Directory, b: Directory, manifest: string, bundle: string, entries: Hashes, digest: Digest
  )
    requires AllRegular(a) && AllRegular(b) && NoCollision(a, b, digest) && manifest != bundle
    requires a.Keys - {manifest, bundle} == entries.Keys == b.Keys - {manifest, bundle}
    requires HashesMatch(a, entries, digest) && HashesMatch(b, entries, digest)
    requires manifest in a && manifest in b && a[manifest] == b[manifest]
    ensures a - {bundle} == b - {bundle}
  {
    forall n | n in entries
      ensures a[n] == b[n]
    {
      assert HasFile(a, n) && HasFile(b, n);
    }
    assert (a - {bundle}).Keys == entries.Keys + {manifest} == (b - {bundle}).Keys;
  }

  lemma CandidateWithoutBundle(root: Artifacts, fields: Fields, digest: Digest, bundle: string)
    requires Acceptable(root, fields)
    ensures SignedCandidate(root, digest, bundle) - {BUNDLE} == CandidateOf(StagedSources(root), digest)
  {
    StagedNames(root, fields, BUNDLE);
    ManifestIsNotBundle();
  }

  /** An accepted directory that carries a staged manifest is the staged candidate. */
  lemma AcceptedIsWhatWasStaged(root: Artifacts, fields: Fields, dir: Directory, gate: Gate)
    requires Acceptable(root, fields) && IsHash(gate.digest) && Verifies(dir, gate)
    requires dir[MANIFEST].content == RenderManifest(HashesOf(StagedSources(root), gate.digest))
    requires NoCollision(dir, SignedCandidate(root, gate.digest, dir[BUNDLE].content), gate.digest)
    ensures dir - {BUNDLE} == CandidateOf(StagedSources(root), gate.digest)
  {
    var bundle := dir[BUNDLE].content;
    var signed := SignedCandidate(root, gate.digest, bundle);
    CandidateHolds(root, fields, gate.digest, bundle);
    StagedManifestReadsBack(root, fields, gate.digest);
    ReadableVerifies(signed, gate, StagedSources(root));
    SameManifestSameFiles(dir, signed, gate, gate);
    CandidateWithoutBundle(root, fields, gate.digest, bundle);
  }
}
