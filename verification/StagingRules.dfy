/** What staging accepts, artifact by artifact. */
module StagingRules {
  import opened Common
  import opened Manifest
  import opened Candidate

  predicate GoodName(n: string) {
    IsSafeName(n) && n !in {"SHA256SUMS.txt", "SHA256SUMS.txt.sigstore.json", "build-info.json"}
  }

  /** At least one file, all of them regular and well named. */
  predicate GoodDeliverables(dir: Directory) {
    dir.Keys != {} && forall n :: n in dir ==> dir[n].Regular? && GoodName(n)
  }

  /** One regular file that names the build. */
  predicate GoodInfo(dir: Directory, fields: Fields) {
    && dir.Keys == {"build-info.json"}
    && match dir["build-info.json"]
       case NotRegular => false
       case Regular(text) =>
         fields(text).Some? && {"project_version", "build_id", "host_os", "modules"} <= fields(text).value
  }

  /** A directory of deliverables or of build info, with the other one of its leg beside it. */
  predicate GoodArtifact(root: Artifacts, fields: Fields, a: string)
    requires a in root
  {
    && root[a].ArtifactDir?
    && if StartsWith(a, "gpgfrontend-") then
         "buildinfo-" + a[12..] in root && GoodDeliverables(root[a].files)
       else
         && StartsWith(a, "buildinfo-")
         && "gpgfrontend-" + a[10..] in root && GoodInfo(root[a].files, fields)
  }

  predicate Accepted(root: Artifacts, fields: Fields) {
    && root.Keys != {}
    && (forall a :: a in root ==> GoodArtifact(root, fields, a))
    && DeliversApart(root)
  }

  /** No file name is delivered by two artifacts. */
  predicate DeliversApart(root: Artifacts) {
    forall a, b :: a in root && b in root && Delivers(root, a) && Delivers(root, b) && a != b ==>
      root[a].files.Keys !! root[b].files.Keys
  }

  predicate Delivers(root: Artifacts, a: string)
    requires a in root
  {
    root[a].ArtifactDir? && StartsWith(a, "gpgfrontend-")
  }

  lemma InfoOkExactly(dir: Directory, fields: Fields)
    ensures InfoOk(dir, fields) <==> GoodInfo(dir, fields)
  {
  }

  lemma DeliverablesOkExactly(dir: Directory)
    ensures DeliverablesOk(dir) <==> GoodDeliverables(dir)
  {
    assert dir == map[] <==> dir.Keys == {};
  }

  lemma PrefixAndRest(prefix: string, leg: string)
    ensures StartsWith(prefix + leg, prefix) && (prefix + leg)[|prefix|..] == leg
  {
  }

  lemma RestAndPrefix(a: string, prefix: string)
    requires StartsWith(a, prefix)
    ensures prefix + a[|prefix|..] == a
  {
  }

  lemma LegsExactly(root: Artifacts, prefix: string, leg: string)
    ensures leg in Legs(root, prefix) <==> prefix + leg in root
  {
    PrefixAndRest(prefix, leg);
    forall a | a in root && StartsWith(a, prefix)
      ensures prefix + a[|prefix|..] == a
    {
      RestAndPrefix(a, prefix);
    }
  }

  lemma SharedExactly(root: Artifacts)
    ensures NoSharedNames(root, Sorted(Legs(root, DELIVERABLE_PREFIX)))
            <==> forall l, m :: l in Legs(root, DELIVERABLE_PREFIX) && m in Legs(root, DELIVERABLE_PREFIX) && l != m ==>
                   DirOf(root, DELIVERABLE_PREFIX, l).Keys !! DirOf(root, DELIVERABLE_PREFIX, m).Keys
  {
    var legs := Legs(root, DELIVERABLE_PREFIX);
    var sorted := Sorted(legs);
    SortedDistinct(legs);
    if NoSharedNames(root, sorted) {
      forall l, m | l in legs && m in legs && l != m
        ensures DirOf(root, DELIVERABLE_PREFIX, l).Keys !! DirOf(root, DELIVERABLE_PREFIX, m).Keys
      {
        assert l in sorted && m in sorted;
        var i :| 0 <= i < |sorted| && sorted[i] == l;
        var j :| 0 <= j < |sorted| && sorted[j] == m;
        assert i < j || j < i;
      }
    }
    assert forall i :: 0 <= i < |sorted| ==> sorted[i] in legs;
  }

  /** What an accepted set of artifacts is, leg by leg. */
  ghost predicate AcceptedLegs(root: Artifacts, fields: Fields) {
    && (forall a :: a in root ==>
          root[a].ArtifactDir? && (StartsWith(a, DELIVERABLE_PREFIX) || StartsWith(a, BUILD_INFO_PREFIX)))
    && (exists leg :: leg in Legs(root, DELIVERABLE_PREFIX))
    && (forall leg :: leg in Legs(root, DELIVERABLE_PREFIX) <==> leg in Legs(root, BUILD_INFO_PREFIX))
    && (forall leg :: leg in Legs(root, DELIVERABLE_PREFIX) ==> LegOk(root, fields, leg))
    && forall l, m :: l in Legs(root, DELIVERABLE_PREFIX) && m in Legs(root, DELIVERABLE_PREFIX) && l != m ==>
         DirOf(root, DELIVERABLE_PREFIX, l).Keys !! DirOf(root, DELIVERABLE_PREFIX, m).Keys
  }

  lemma AcceptableIsByLegs(root: Artifacts, fields: Fields)
    ensures Acceptable(root, fields) <==> AcceptedLegs(root, fields)
  {
    SharedExactly(root);
    assert Legs(root, DELIVERABLE_PREFIX) == Legs(root, BUILD_INFO_PREFIX)
           <==> forall leg :: leg in Legs(root, DELIVERABLE_PREFIX) <==> leg in Legs(root, BUILD_INFO_PREFIX);
  }

  lemma ArtifactOfLeg(root: Artifacts, fields: Fields, a: string)
    requires a in root && AcceptedLegs(root, fields)
    ensures GoodArtifact(root, fields, a)
  {
    if StartsWith(a, DELIVERABLE_PREFIX) {
      var leg := a[|DELIVERABLE_PREFIX|..];
      RestAndPrefix(a, DELIVERABLE_PREFIX);
      LegsExactly(root, DELIVERABLE_PREFIX, leg);
      LegsExactly(root, BUILD_INFO_PREFIX, leg);
      assert LegOk(root, fields, leg);
      DeliverablesOkExactly(root[a].files);
    } else {
      var leg := a[|BUILD_INFO_PREFIX|..];
      RestAndPrefix(a, BUILD_INFO_PREFIX);
      LegsExactly(root, DELIVERABLE_PREFIX, leg);
      LegsExactly(root, BUILD_INFO_PREFIX, leg);
      assert LegOk(root, fields, leg);
      InfoOkExactly(root[a].files, fields);
    }
  }

  lemma LegOfArtifact(root: Artifacts, fields: Fields, leg: string)
    requires Accepted(root, fields)
    ensures leg in Legs(root, DELIVERABLE_PREFIX) <==> leg in Legs(root, BUILD_INFO_PREFIX)
    ensures leg in Legs(root, DELIVERABLE_PREFIX) ==> LegOk(root, fields, leg)
  {
    LegsExactly(root, DELIVERABLE_PREFIX, leg);
    LegsExactly(root, BUILD_INFO_PREFIX, leg);
    PrefixAndRest(DELIVERABLE_PREFIX, leg);
    PrefixAndRest(BUILD_INFO_PREFIX, leg);
    var a, b := DELIVERABLE_PREFIX + leg, BUILD_INFO_PREFIX + leg;
    if a in root {
      assert GoodArtifact(root, fields, a);
    }
    if b in root {
      assert GoodArtifact(root, fields, b);
      if StartsWith(b, DELIVERABLE_PREFIX) {
        PrefixesDiffer(b);
      }
    }
    DeliverablesOkExactly(DirOf(root, DELIVERABLE_PREFIX, leg));
    InfoOkExactly(DirOf(root, BUILD_INFO_PREFIX, leg), fields);
  }

  lemma SomeLeg(root: Artifacts, fields: Fields)
    requires Accepted(root, fields)
    ensures exists leg :: leg in Legs(root, DELIVERABLE_PREFIX)
  {
    var a :| a in root;
    assert GoodArtifact(root, fields, a);
    if StartsWith(a, DELIVERABLE_PREFIX) {
      RestAndPrefix(a, DELIVERABLE_PREFIX);
      LegsExactly(root, DELIVERABLE_PREFIX, a[12..]);
    } else {
      LegsExactly(root, DELIVERABLE_PREFIX, a[10..]);
    }
  }

  lemma SharedByArtifact(root: Artifacts)
    requires forall a :: a in root ==> root[a].ArtifactDir?
    ensures DeliversApart(root)
            <==> forall l, m :: l in Legs(root, DELIVERABLE_PREFIX) && m in Legs(root, DELIVERABLE_PREFIX) && l != m ==>
                   DirOf(root, DELIVERABLE_PREFIX, l).Keys !! DirOf(root, DELIVERABLE_PREFIX, m).Keys
  {
    forall l, m | l in Legs(root, DELIVERABLE_PREFIX) && m in Legs(root, DELIVERABLE_PREFIX) && l != m
      ensures var a, b := DELIVERABLE_PREFIX + l, DELIVERABLE_PREFIX + m;
              && a in root && b in root && a != b && Delivers(root, a) && Delivers(root, b)
              && DirOf(root, DELIVERABLE_PREFIX, l) == root[a].files && DirOf(root, DELIVERABLE_PREFIX, m) == root[b].files
    {
      LegsExactly(root, DELIVERABLE_PREFIX, l);
      LegsExactly(root, DELIVERABLE_PREFIX, m);
      PrefixAndRest(DELIVERABLE_PREFIX, l);
      PrefixAndRest(DELIVERABLE_PREFIX, m);
    }
    forall a | a in root && Delivers(root, a)
      ensures a[12..] in Legs(root, DELIVERABLE_PREFIX) && DirOf(root, DELIVERABLE_PREFIX, a[12..]) == root[a].files
      ensures "gpgfrontend-" + a[12..] == a
    {
      RestAndPrefix(a, DELIVERABLE_PREFIX);
      LegsExactly(root, DELIVERABLE_PREFIX, a[12..]);
    }
  }

  lemma LegsMeanAccepted(root: Artifacts, fields: Fields)
    requires AcceptedLegs(root, fields)
    ensures Accepted(root, fields)
  {
    forall a | a in root
      ensures GoodArtifact(root, fields, a)
    {
      ArtifactOfLeg(root, fields, a);
    }
    var leg :| leg in Legs(root, DELIVERABLE_PREFIX);
    LegsExactly(root, DELIVERABLE_PREFIX, leg);
    assert DELIVERABLE_PREFIX + leg in root.Keys;
    SharedByArtifact(root);
  }

  lemma AcceptedMeansLegs(root: Artifacts, fields: Fields)
    requires Accepted(root, fields)
    ensures AcceptedLegs(root, fields)
  {
    forall leg
      ensures leg in Legs(root, DELIVERABLE_PREFIX) <==> leg in Legs(root, BUILD_INFO_PREFIX)
      ensures leg in Legs(root, DELIVERABLE_PREFIX) ==> LegOk(root, fields, leg)
    {
      LegOfArtifact(root, fields, leg);
    }
    SomeLeg(root, fields);
    assert forall a :: a in root ==> GoodArtifact(root, fields, a);
    SharedByArtifact(root);
  }

  /** Staging accepts exactly the artifacts that are good one by one and deliver no name twice. */
  lemma StagingAcceptsExactly(root: Artifacts, fields: Fields)
    ensures Acceptable(root, fields) <==> Accepted(root, fields)
  {
    AcceptableIsByLegs(root, fields);
    if AcceptedLegs(root, fields) {
      LegsMeanAccepted(root, fields);
    } else if Accepted(root, fields) {
      AcceptedMeansLegs(root, fields);
    }
  }
}
