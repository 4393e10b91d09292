/**
 * SemVer 2.0.0 as `scripts/release/semver.py` parses, prints and orders it. Text
 * is ASCII.
 */
module SemVer {
  import opened Common
  import opened Text

  datatype Version = Version(major: nat, minor: nat, patch: nat, prerelease: seq<string>, build: string)

  // ----- decimal numbers

  predicate IsDigit(c: char) {
    '0' <= c <= '9'
  }

  predicate AllDigits(s: string) {
    s != [] && forall i :: 0 <= i < |s| ==> IsDigit(s[i])
  }

  function DigitOf(n: nat): char
    requires n < 10
  {
    ('0' as int + n) as char
  }

  function DigitValue(c: char): (r: nat)
    requires IsDigit(c)
    ensures r < 10
  {
    c as int - '0' as int
  }

  lemma DigitReadsBack(c: char, n: nat)
    ensures IsDigit(c) ==> DigitOf(DigitValue(c)) == c
    ensures n < 10 ==> IsDigit(DigitOf(n)) && DigitValue(DigitOf(n)) == n
  {
  }

  function Decimal(n: nat): string {
    if n < 10 then [DigitOf(n)] else Decimal(n / 10) + [DigitOf(n % 10)]
  }

  /** `int(s)` for a string of digits. */
  function Value(s: string): nat
    requires forall i :: 0 <= i < |s| ==> IsDigit(s[i])
  {
    if s == [] then 0 else 10 * Value(s[..|s| - 1]) + DigitValue(s[|s| - 1])
  }

  /** No leading zero: `0|[1-9]\d*`. */
  predicate NumericId(s: string) {
    AllDigits(s) && (s[0] == '0' ==> |s| == 1)
  }

  lemma {:induction false} DecimalReadsBack(n: nat)
    ensures NumericId(Decimal(n)) && Value(Decimal(n)) == n
    ensures n > 0 ==> Decimal(n)[0] != '0'
  {
    if n < 10 {
      assert [DigitOf(n)][..0] == [];
    } else {
      DecimalReadsBack(n / 10);
      assert Decimal(n)[..|Decimal(n)| - 1] == Decimal(n / 10);
    }
  }

  lemma DecimalAppends(a: nat, d: nat)
    requires 0 < a && d < 10
    ensures Decimal(10 * a + d) == Decimal(a) + [DigitOf(d)]
  {
    assert (10 * a + d) / 10 == a && (10 * a + d) % 10 == d;
  }

  lemma ValueOfFront(s: string)
    requires AllDigits(s)
    ensures Value(s) == 10 * Value(s[..|s| - 1]) + DigitValue(s[|s| - 1])
    ensures |s| == 1 ==> Value(s) == DigitValue(s[0])
  {
    assert |s| == 1 ==> s[..0] == [];
  }

  lemma {:induction false} DecimalOfValue(s: string)
    requires NumericId(s)
    ensures Decimal(Value(s)) == s
    ensures s[0] != '0' ==> Value(s) > 0
  {
    var front, last := s[..|s| - 1], s[|s| - 1];
    assert s == front + [last];
    ValueOfFront(s);
    DigitReadsBack(last, 0);
    if |s| > 1 {
      assert front[0] == s[0];
      DecimalOfValue(front);
      DecimalAppends(Value(front), DigitValue(last));
    }
  }

  // ----- grammar

  predicate IsIdChar(c: char) {
    IsDigit(c) || 'A' <= c <= 'Z' || 'a' <= c <= 'z' || c == '-'
  }

  predicate IsIdentifier(s: string) {
    s != [] && forall i :: 0 <= i < |s| ==> IsIdChar(s[i])
  }

  /** A prerelease identifier: a number has no leading zero. */
  predicate IsPrereleaseId(s: string) {
    IsIdentifier(s) && (AllDigits(s) ==> NumericId(s))
  }

  predicate IsBuild(s: string) {
    forall p :: p in Split(s, '.') ==> IsIdentifier(p)
  }

  predicate WellFormed(v: Version) {
    && (forall p :: p in v.prerelease ==> IsPrereleaseId(p))
    && (v.build != "" ==> IsBuild(v.build))
  }

  function Strip(s: string): string {
    if s == [] then []
    else if IsSpace(s[0]) then Strip(s[1..])
    else if IsSpace(s[|s| - 1]) then Strip(s[..|s| - 1])
    else s
  }

  function StripV(s: string): string {
    if s != [] && s[0] == 'v' then s[1..] else s
  }

  function ParseBare(text: string): Option<Version> {
    var (head, build) := Cut(text, '+');
    var (core, pre) := Cut(head, '-');
    var nums := Split(core, '.');
    if |nums| != 3 || !(forall n :: n in nums ==> NumericId(n)) then None
    else if pre.Some? && !(forall p :: p in Split(pre.value, '.') ==> IsPrereleaseId(p)) then None
    else if build.Some? && !IsBuild(build.value) then None
    else
      assert nums[0] in nums && nums[1] in nums && nums[2] in nums;
      Some(Version(
        Value(nums[0]), Value(nums[1]), Value(nums[2]),
        if pre.Some? then Split(pre.value, '.') else [],
        if build.Some? then build.value else ""))
  }

  function Parse(text: string): Option<Version> {
    ParseBare(StripV(Strip(text)))
  }

  function RenderCore(v: Version): string {
    Join([Decimal(v.major), Decimal(v.minor), Decimal(v.patch)], '.')
  }

  function RenderHead(v: Version): string {
    RenderCore(v) + (if v.prerelease != [] then "-" + Join(v.prerelease, '.') else "")
  }

  function Render(v: Version): string {
    RenderHead(v) + (if v.build != "" then "+" + v.build else "")
  }

  // ----- printing and parsing undo each other

  lemma {:induction false} JoinLacks(parts: seq<string>, sep: char, c: char)
    requires parts != [] && c != sep
    requires forall p :: p in parts ==> c !in p
    ensures c !in Join(parts, sep)
  {
    assert parts[0] in parts;
    if |parts| > 1 {
      JoinLacks(parts[1..], sep, c);
    }
  }

  lemma NumericLacks(n: nat)
    ensures NumericId(Decimal(n))
    ensures '.' !in Decimal(n) && '-' !in Decimal(n) && '+' !in Decimal(n)
  {
    DecimalReadsBack(n);
  }

  lemma CoreParts(v: Version)
    ensures var parts := [Decimal(v.major), Decimal(v.minor), Decimal(v.patch)];
            && (forall n :: n in parts ==> NumericId(n))
            && Split(RenderCore(v), '.') == parts
    ensures '-' !in RenderCore(v) && '+' !in RenderCore(v)
  {
    var parts := [Decimal(v.major), Decimal(v.minor), Decimal(v.patch)];
    NumericLacks(v.major);
    NumericLacks(v.minor);
    NumericLacks(v.patch);
    SplitJoin(parts, '.');
    JoinLacks(parts, '.', '-');
    JoinLacks(parts, '.', '+');
  }

  lemma HeadParts(v: Version)
    requires WellFormed(v)
    ensures '+' !in RenderHead(v)
    ensures Cut(RenderHead(v), '-')
            == (RenderCore(v), if v.prerelease != [] then Some(Join(v.prerelease, '.')) else None)
  {
    CoreParts(v);
    if v.prerelease == [] {
      CutWhole(RenderCore(v), '-');
      assert RenderHead(v) == RenderCore(v);
    } else {
      JoinLacks(v.prerelease, '.', '+');
      CutFirst(RenderCore(v), Join(v.prerelease, '.'), '-');
      assert RenderHead(v) == RenderCore(v) + ['-'] + Join(v.prerelease, '.');
    }
  }

  lemma ParseBareRender(v: Version)
    requires WellFormed(v)
    ensures ParseBare(Render(v)) == Some(v)
  {
    CoreParts(v);
    HeadParts(v);
    if v.build == "" {
      assert Render(v) == RenderHead(v);
      CutWhole(RenderHead(v), '+');
    } else {
      assert Render(v) == RenderHead(v) + ['+'] + v.build;
      CutFirst(RenderHead(v), v.build, '+');
    }
    if v.prerelease != [] {
      SplitJoin(v.prerelease, '.');
    }
    DecimalReadsBack(v.major);
    DecimalReadsBack(v.minor);
    DecimalReadsBack(v.patch);
  }

  lemma RenderStartsWithDigit(v: Version)
    ensures Render(v) != [] && IsDigit(Render(v)[0])
  {
    DecimalReadsBack(v.major);
    assert RenderCore(v)[0] == Decimal(v.major)[0];
  }

  lemma {:induction false} LastOfJoin(parts: seq<string>, sep: char)
    requires parts != [] && parts[|parts| - 1] != []
    ensures Join(parts, sep) != []
    ensures var last := parts[|parts| - 1];
            Join(parts, sep)[|Join(parts, sep)| - 1] == last[|last| - 1]
  {
    if |parts| > 1 {
      LastOfJoin(parts[1..], sep);
    }
  }

  lemma RenderEndsInIdentifier(v: Version)
    requires WellFormed(v)
    ensures Render(v) != [] && IsIdChar(Render(v)[|Render(v)| - 1])
  {
    RenderStartsWithDigit(v);
    if v.build != "" {
      JoinSplit(v.build, '.');
      var parts := Split(v.build, '.');
      assert parts[|parts| - 1] in parts;
      LastOfJoin(parts, '.');
    } else if v.prerelease != [] {
      assert v.prerelease[|v.prerelease| - 1] in v.prerelease;
      LastOfJoin(v.prerelease, '.');
    } else {
      DecimalReadsBack(v.patch);
      LastOfJoin([Decimal(v.major), Decimal(v.minor), Decimal(v.patch)], '.');
    }
  }

  /** Parsing what was printed restores every field, with or without a leading `v`. */
  lemma ParseRender(v: Version)
    requires WellFormed(v)
    ensures Parse(Render(v)) == Some(v) && Parse("v" + Render(v)) == Some(v)
  {
    ParseBareRender(v);
    RenderStartsWithDigit(v);
    RenderEndsInIdentifier(v);
    assert Strip(Render(v)) == Render(v);
    assert ("v" + Render(v))[1..] == Render(v);
    assert Strip("v" + Render(v)) == "v" + Render(v);
  }

  lemma CoreReadsBack(core: string, nums: seq<string>)
    requires nums == Split(core, '.') && |nums| == 3 && forall n :: n in nums ==> NumericId(n)
    ensures NumericId(nums[0]) && NumericId(nums[1]) && NumericId(nums[2])
    ensures Join([Decimal(Value(nums[0])), Decimal(Value(nums[1])), Decimal(Value(nums[2]))], '.') == core
  {
    assert nums[0] in nums && nums[1] in nums && nums[2] in nums;
    DecimalOfValue(nums[0]);
    DecimalOfValue(nums[1]);
    DecimalOfValue(nums[2]);
    assert nums == [nums[0], nums[1], nums[2]];
    JoinSplit(core, '.');
  }

  lemma RenderParseBare(bare: string)
    requires ParseBare(bare).Some?
    ensures WellFormed(ParseBare(bare).value)
    ensures Render(ParseBare(bare).value) == bare
  {
    var v := ParseBare(bare).value;
    var (head, build) := Cut(bare, '+');
    var (core, pre) := Cut(head, '-');
    CutMeans(bare, '+');
    CutMeans(head, '-');
    CoreReadsBack(core, Split(core, '.'));
    assert RenderCore(v) == core;
    if pre.Some? {
      JoinSplit(pre.value, '.');
    }
    assert RenderHead(v) == head;
    if build.Some? {
      BuildNotEmpty(build.value);
    }
  }

  /** Whatever parses is well-formed and prints back as its own text, less space and a leading `v`. */
  lemma {:induction false} RenderParse(text: string)
    requires Parse(text).Some?
    ensures WellFormed(Parse(text).value)
    ensures Render(Parse(text).value) == StripV(Strip(text))
  {
    RenderParseBare(StripV(Strip(text)));
  }

  lemma BuildNotEmpty(build: string)
    requires IsBuild(build)
    ensures build != ""
  {
    assert Split("", '.') == [""];
    assert "" in Split("", '.');
  }
}
