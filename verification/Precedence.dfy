/**
 * Version precedence: the tuple comparison of `scripts/release/semver.py`, its
 * agreement with section 11 of SemVer 2.0.0, and the release order check of
 * `scripts/release/check_order.py`.
 */
module Precedence {
  import opened Common
  import opened Text
  import opened SemVer

  // ----- the sort key and tuple comparison

  datatype IdKey = IdKey(kind: nat, number: nat, word: string)

  function KeyOfId(p: string): IdKey {
    if AllDigits(p) then IdKey(0, Value(p), "") else IdKey(1, 0, p)
  }

  predicate IdLess(a: IdKey, b: IdKey) {
    if a.kind != b.kind then a.kind < b.kind
    else if a.number != b.number then a.number < b.number
    else StrLess(a.word, b.word)
  }

  function KeysOfIds(ids: seq<string>): (keys: seq<IdKey>)
    ensures |keys| == |ids|
    ensures forall i :: 0 <= i < |ids| ==> keys[i] == KeyOfId(ids[i])
  {
    if ids == [] then [] else [KeyOfId(ids[0])] + KeysOfIds(ids[1..])
  }

  predicate IdsLess(a: seq<IdKey>, b: seq<IdKey>) {
    if b == [] then false
    else if a == [] then true
    else if a[0] == b[0] then IdsLess(a[1..], b[1..])
    else IdLess(a[0], b[0])
  }

  datatype Key = Key(major: nat, minor: nat, patch: nat, final: nat, ids: seq<IdKey>)

  function KeyOf(v: Version): Key {
    if v.prerelease == [] then Key(v.major, v.minor, v.patch, 1, [])
    else Key(v.major, v.minor, v.patch, 0, KeysOfIds(v.prerelease))
  }

  predicate KeyLess(a: Key, b: Key) {
    if a.major != b.major then a.major < b.major
    else if a.minor != b.minor then a.minor < b.minor
    else if a.patch != b.patch then a.patch < b.patch
    else if a.final != b.final then a.final < b.final
    else IdsLess(a.ids, b.ids)
  }

  predicate Less(v: Version, w: Version) {
    KeyLess(KeyOf(v), KeyOf(w))
  }

  predicate Same(v: Version, w: Version) {
    KeyOf(v) == KeyOf(w)
  }

  // ----- a total order

  lemma IdTrichotomy(a: IdKey, b: IdKey)
    ensures IdLess(a, b) || a == b || IdLess(b, a)
    ensures !(IdLess(a, b) && IdLess(b, a))
    ensures IdLess(a, b) ==> a != b
  {
    StrTrichotomy(a.word, b.word);
  }

  lemma IdTransitive(a: IdKey, b: IdKey, c: IdKey)
    requires IdLess(a, b) && IdLess(b, c)
    ensures IdLess(a, c)
  {
    if StrLess(a.word, b.word) && StrLess(b.word, c.word) {
      StrTransitive(a.word, b.word, c.word);
    }
  }

  lemma {:induction false} IdsTrichotomy(a: seq<IdKey>, b: seq<IdKey>)
    ensures IdsLess(a, b) || a == b || IdsLess(b, a)
    ensures !(IdsLess(a, b) && IdsLess(b, a))
    ensures IdsLess(a, b) ==> a != b
  {
    if a != [] && b != [] {
      IdTrichotomy(a[0], b[0]);
      if a[0] == b[0] {
        IdsTrichotomy(a[1..], b[1..]);
        assert a == [a[0]] + a[1..] && b == [b[0]] + b[1..];
      }
    }
  }

  lemma {:induction false} IdsTransitive(a: seq<IdKey>, b: seq<IdKey>, c: seq<IdKey>)
    requires IdsLess(a, b) && IdsLess(b, c)
    ensures IdsLess(a, c)
  {
    if a != [] {
      if a[0] == b[0] == c[0] {
        IdsTransitive(a[1..], b[1..], c[1..]);
      } else if a[0] != b[0] && b[0] != c[0] {
        IdTransitive(a[0], b[0], c[0]);
        IdTrichotomy(a[0], c[0]);
      }
    }
  }

  /** Exactly one of smaller, same and larger holds. */
  lemma Trichotomy(v: Version, w: Version)
    ensures Less(v, w) || Same(v, w) || Less(w, v)
    ensures !(Less(v, w) && Less(w, v)) && !(Less(v, w) && Same(v, w))
  {
    IdsTrichotomy(KeyOf(v).ids, KeyOf(w).ids);
  }

  lemma Transitive(v: Version, w: Version, x: Version)
    requires Less(v, w) && Less(w, x)
    ensures Less(v, x)
  {
    if IdsLess(KeyOf(v).ids, KeyOf(w).ids) && IdsLess(KeyOf(w).ids, KeyOf(x).ids) {
      IdsTransitive(KeyOf(v).ids, KeyOf(w).ids, KeyOf(x).ids);
    }
  }

  // ----- section 11 of SemVer 2.0.0, clause by clause

  /** 11.4.1 to 11.4.3: numbers numerically, words in ASCII order, numbers below words. */
  predicate IdentifierPrecedes(x: string, y: string) {
    if AllDigits(x) && AllDigits(y) then Value(x) < Value(y)
    else if AllDigits(x) != AllDigits(y) then AllDigits(x)
    else LexicallyLower(x, y)
  }

  /** 11.4 and 11.4.4: the first identifier that differs decides; a prefix comes first. */
  predicate PrereleasePrecedes(a: seq<string>, b: seq<string>) {
    || (|a| < |b| && a == b[..|a|])
    || (exists i :: 0 <= i < |a| && i < |b| && a[..i] == b[..i] && a[i] != b[i] && IdentifierPrecedes(a[i], b[i]))
  }

  /** 11.2 and 11.3: the core numbers in turn, then a prerelease below its release. */
  predicate Precedes(v: Version, w: Version) {
    || v.major < w.major
    || (v.major == w.major && v.minor < w.minor)
    || (v.major == w.major && v.minor == w.minor && v.patch < w.patch)
    || (v.major == w.major && v.minor == w.minor && v.patch == w.patch
        && ((v.prerelease != [] && w.prerelease == [])
            || (v.prerelease != [] && w.prerelease != [] && PrereleasePrecedes(v.prerelease, w.prerelease))))
  }

  predicate AllPrereleaseIds(ids: seq<string>) {
    forall p :: p in ids ==> IsPrereleaseId(p)
  }

  /** Without leading zeros, identifiers with equal keys are equal text. */
  lemma KeyOfIdInjective(x: string, y: string)
    requires IsPrereleaseId(x) && IsPrereleaseId(y)
    ensures KeyOfId(x) == KeyOfId(y) <==> x == y
  {
    if AllDigits(x) && AllDigits(y) {
      DecimalOfValue(x);
      DecimalOfValue(y);
    }
  }

  lemma IdLessIsPrecedence(x: string, y: string)
    ensures IdLess(KeyOfId(x), KeyOfId(y)) <==> IdentifierPrecedes(x, y)
  {
    StrLessIsLexical(x, y);
    StrLessIsLexical("", "");
  }

  lemma {:induction false} IdsLessIsPrecedence(a: seq<string>, b: seq<string>)
    requires AllPrereleaseIds(a) && AllPrereleaseIds(b)
    ensures IdsLess(KeysOfIds(a), KeysOfIds(b)) <==> PrereleasePrecedes(a, b)
  {
    if a != [] && b != [] {
      assert a[0] in a && b[0] in b;
      KeyOfIdInjective(a[0], b[0]);
      IdLessIsPrecedence(a[0], b[0]);
      assert KeysOfIds(a)[1..] == KeysOfIds(a[1..]) && KeysOfIds(b)[1..] == KeysOfIds(b[1..]);
      if a[0] == b[0] {
        IdsLessIsPrecedence(a[1..], b[1..]);
        IdentifierTailsDecide(a, b);
      } else {
        assert forall k :: 0 < k <= |a| && k <= |b| ==> a[..k][0] != b[..k][0];
        assert a[..0] == b[..0];
      }
    }
  }

  lemma IdentifierTailsDecide(a: seq<string>, b: seq<string>)
    requires a != [] && b != [] && a[0] == b[0]
    ensures PrereleasePrecedes(a, b) <==> PrereleasePrecedes(a[1..], b[1..])
  {
    var a', b' := a[1..], b[1..];
    assert a == [a[0]] + a' && b == [b[0]] + b';
    if i :| 0 <= i < |a| && i < |b| && a[..i] == b[..i] && a[i] != b[i] && IdentifierPrecedes(a[i], b[i]) {
      assert a'[..i - 1] == a[..i][1..] && b'[..i - 1] == b[..i][1..];
      assert a'[i - 1] == a[i] && b'[i - 1] == b[i];
    }
    if i :| 0 <= i < |a'| && i < |b'| && a'[..i] == b'[..i] && a'[i] != b'[i] && IdentifierPrecedes(a'[i], b'[i]) {
      assert a[..i + 1] == [a[0]] + a'[..i] && b[..i + 1] == [b[0]] + b'[..i];
      assert a[i + 1] == a'[i] && b[i + 1] == b'[i];
    }
    if |a| < |b| && a == b[..|a|] {
      assert a' == b'[..|a'|];
    }
    if |a'| < |b'| && a' == b'[..|a'|] {
      assert b[..|a|] == [b[0]] + b'[..|a'|];
    }
  }

  /** The key comparison is the precedence of the standard. */
  lemma OrderMeetsStandard(v: Version, w: Version)
    requires WellFormed(v) && WellFormed(w)
    ensures Less(v, w) <==> Precedes(v, w)
  {
    IdsLessIsPrecedence(v.prerelease, w.prerelease);
  }

  /** Versions compare equal exactly when core and prerelease text agree; build metadata never matters. */
  lemma SameMeansSameText(v: Version, w: Version)
    requires WellFormed(v) && WellFormed(w)
    ensures Same(v, w)
            <==> && v.major == w.major && v.minor == w.minor && v.patch == w.patch
                 && v.prerelease == w.prerelease
  {
    if Same(v, w) {
      assert |v.prerelease| == |w.prerelease|;
      forall i | 0 <= i < |v.prerelease|
        ensures v.prerelease[i] == w.prerelease[i]
      {
        assert v.prerelease[i] in v.prerelease && w.prerelease[i] in w.prerelease;
        assert KeyOf(v).ids[i] == KeyOf(w).ids[i];
        KeyOfIdInjective(v.prerelease[i], w.prerelease[i]);
      }
    }
  }

  /** Without the grammar's ban on leading zeros two different versions would compare equal. */
  lemma LeadingZerosWouldCollide()
    ensures var v, w := Version(1, 0, 0, ["1"], ""), Version(1, 0, 0, ["01"], "");
            Same(v, w) && v.prerelease != w.prerelease && !WellFormed(w)
  {
    assert "1"[..0] == "" && "01"[..1] == "0" && "0"[..0] == "";
    assert Value("1") == 1 && Value("0") == 0 && Value("01") == 1;
    assert !IsPrereleaseId("01");
    assert "01" in ["01"];
  }

  // ----- the release order check

  /** `max(tags)`, or none of no tags. */
  function Newest(tags: seq<Version>): (r: Option<Version>)
    ensures r.None? <==> tags == []
    ensures r.Some? ==> r.value in tags
  {
    if tags == [] then None
    else
      var best := Newest(tags[..|tags| - 1]);
      var last := tags[|tags| - 1];
      if best.Some? && !Less(best.value, last) then best else Some(last)
  }

  lemma {:induction false} NewestIsLargest(tags: seq<Version>, t: Version)
    requires t in tags
    ensures Newest(tags).Some? && !Less(Newest(tags).value, t)
  {
    var front, last := tags[..|tags| - 1], tags[|tags| - 1];
    assert tags == front + [last];
    var best := Newest(tags).value;
    Trichotomy(best, best);
    if t in front {
      NewestIsLargest(front, t);
      var before := Newest(front).value;
      if Less(before, last) && Less(last, t) {
        Transitive(before, last, t);
      }
    }
  }

  predicate Behind(v: Version, newest: Option<Version>) {
    newest.Some? && !(Less(newest.value, v) || (Same(v, newest.value) && v.build == ""))
  }

  function Series(v: Version): string {
    Decimal(v.major) + "." + Decimal(v.minor)
  }

  function InSeries(tags: seq<Version>, series: string): seq<Version> {
    if tags == [] then []
    else if Series(tags[0]) == series then [tags[0]] + InSeries(tags[1..], series)
    else InSeries(tags[1..], series)
  }

  lemma {:induction false} InSeriesMembers(tags: seq<Version>, series: string, t: Version)
    ensures t in InSeries(tags, series) <==> t in tags && Series(t) == series
  {
    if tags != [] {
      InSeriesMembers(tags[1..], series, t);
      assert tags == [tags[0]] + tags[1..];
    }
  }

  datatype Ref = MainBranch | ReleaseBranch(series: string) | OtherRef

  datatype Complaint = NotNewer(newest: Version) | WrongSeries

  method CheckOrder(v: Version, ref: Ref, tags: seq<Version>, mainline: string)
    returns (problems: seq<Complaint>)
    ensures problems == [] <==> InOrder(v, ref, tags, mainline)
  {
    problems := [];
    match ref {
      case MainBranch =>
        var newest := Newest(tags);
        if Behind(v, newest) {
          problems := problems + [NotNewer(newest.value)];
        }
        if mainline != "" && Series(v) != mainline {
          problems := problems + [WrongSeries];
        }
        BehindExactly(v, tags);
      case ReleaseBranch(series) =>
        if Series(v) != series {
          problems := problems + [WrongSeries];
        }
        var mine := InSeries(tags, series);
        var newest := Newest(mine);
        if Behind(v, newest) {
          problems := problems + [NotNewer(newest.value)];
        }
        BehindExactly(v, mine);
        forall t {
          InSeriesMembers(tags, series, t);
        }
      case OtherRef =>
    }
  }

  /** The build may follow the release: it is newer, or it is that very release. */
  predicate MayFollow(v: Version, t: Version) {
    Less(t, v) || (Same(v, t) && v.build == "")
  }

  /** What a clean check certifies. */
  predicate InOrder(v: Version, ref: Ref, tags: seq<Version>, mainline: string) {
    match ref
    case MainBranch =>
      && (forall t :: t in tags ==> MayFollow(v, t))
      && (mainline == "" || Series(v) == mainline)
    case ReleaseBranch(series) =>
      && Series(v) == series
      && (forall t :: t in tags && Series(t) == series ==> MayFollow(v, t))
    case OtherRef => true
  }

  /** Comparing with the newest tag is comparing with every tag. */
  lemma BehindExactly(v: Version, tags: seq<Version>)
    ensures !Behind(v, Newest(tags)) <==> forall t :: t in tags ==> MayFollow(v, t)
  {
    if tags != [] {
      var newest := Newest(tags).value;
      if MayFollow(v, newest) {
        forall t | t in tags
          ensures MayFollow(v, t)
        {
          NewestIsLargest(tags, t);
          Trichotomy(newest, t);
          if Less(t, newest) && Less(newest, v) {
            Transitive(t, newest, v);
          }
        }
      }
    }
  }
}
