/**
 * The release manifest of `scripts/release_candidate.py`: how it is written, how
 * strictly it is read, and exactly when reading undoes writing. File contents
 * are strings of characters that stand for octets.
 */
module Manifest {
  import opened Common
  import opened Text

  const MANIFEST: string := "SHA256SUMS.txt"
  const BUNDLE: string := "SHA256SUMS.txt.sigstore.json"
  const BUILD_INFO: string := "build-info.json"

  predicate Reserved(name: string) {
    name == MANIFEST || name == BUNDLE || name == BUILD_INFO
  }

  // ----- names, sorted

  predicate IsLeast(m: string, names: set<string>) {
    m in names && forall n :: n in names ==> n == m || StrLess(m, n)
  }

  lemma {:induction false} LeastExists(names: set<string>)
    requires names != {}
    ensures exists m :: IsLeast(m, names)
    decreases |names|
  {
    var n :| n in names;
    var rest := names - {n};
    if rest == {} {
      assert names == {n};
      assert IsLeast(n, names);
    } else {
      LeastExists(rest);
      var m :| IsLeast(m, rest);
      StrTrichotomy(m, n);
      if StrLess(n, m) {
        forall x | x in names
          ensures x == n || StrLess(n, x)
        {
          if x != n && x != m {
            StrTransitive(n, m, x);
          }
        }
        assert IsLeast(n, names);
      } else {
        assert IsLeast(m, names);
      }
    }
  }

  lemma LeastUnique(names: set<string>)
    ensures forall x, y :: IsLeast(x, names) && IsLeast(y, names) ==> x == y
  {
    forall x, y | IsLeast(x, names) && IsLeast(y, names)
      ensures x == y
    {
      StrTrichotomy(x, y);
    }
  }

  /** `sorted(names)` */
  function Sorted(names: set<string>): (r: seq<string>)
    ensures forall n :: n in r <==> n in names
    ensures forall i, j :: 0 <= i < j < |r| ==> StrLess(r[i], r[j])
    decreases |names|
  {
    if names == {} then []
    else
      LeastExists(names);
      LeastUnique(names);
      var m :| IsLeast(m, names);
      [m] + Sorted(names - {m})
  }

  predicate Distinct(names: seq<string>) {
    forall i, j :: 0 <= i < j < |names| ==> names[i] != names[j]
  }

  lemma SortedDistinct(names: set<string>)
    ensures Distinct(Sorted(names))
  {
    var r := Sorted(names);
    forall i, j | 0 <= i < j < |r|
      ensures r[i] != r[j]
    {
      StrTrichotomy(r[i], r[j]);
    }
  }

  // ----- the grammar of a line

  predicate IsHex(c: char) {
    '0' <= c <= '9' || 'a' <= c <= 'f'
  }

  predicate IsDigest(s: string) {
    |s| == 64 && forall i :: 0 <= i < |s| ==> IsHex(s[i])
  }

  predicate IsLetterOrDigit(c: char) {
    'A' <= c <= 'Z' || 'a' <= c <= 'z' || '0' <= c <= '9'
  }

  predicate IsNameChar(c: char) {
    IsLetterOrDigit(c) || c == '.' || c == '_' || c == '+' || c == '-'
  }

  /** A name of the safe alphabet throughout. */
  predicate IsPlainName(s: string) {
    s != [] && IsLetterOrDigit(s[0]) && forall i :: 0 <= i < |s| ==> IsNameChar(s[i])
  }

  /** What the pattern accepts: its `$` also matches before one final newline. */
  predicate IsSafeName(s: string) {
    IsPlainName(s) || (s != [] && s[|s| - 1] == '\n' && IsPlainName(s[..|s| - 1]))
  }

  function Line(digest: string, name: string): string {
    digest + "  " + name
  }

  /** The digest and name of a manifest line. */
  function ParseLine(line: string): (r: Option<(string, string)>)
    ensures r.Some? ==> line == Line(r.value.0, r.value.1) && IsDigest(r.value.0) && IsSafeName(r.value.1)
  {
    if |line| > 66 && IsDigest(line[..64]) && line[64] == ' ' && line[65] == ' '
       && (forall i :: 66 <= i < |line| ==> !IsSpace(line[i]))
       && IsSafeName(line[66..]) && !Reserved(line[66..])
    then
      assert line == line[..64] + "  " + line[66..];
      Some((line[..64], line[66..]))
    else None
  }

  type Hashes = map<string, string>

  /** A line as it was read: digest and name, or malformed. */
  type Parsed = Option<(string, string)>

  function ParseAll(lines: seq<string>): (parsed: seq<Parsed>)
    ensures |parsed| == |lines|
    ensures forall i :: 0 <= i < |lines| ==> parsed[i] == ParseLine(lines[i])
  {
    if lines == [] then [] else ParseAll(lines[..|lines| - 1]) + [ParseLine(lines[|lines| - 1])]
  }

  /** One more line; a malformed one or a repeated name refuses the whole. */
  function Listed(entries: Option<Hashes>, line: Parsed): Option<Hashes> {
    if entries.None? || line.None? || line.value.1 in entries.value then None
    else Some(entries.value[line.value.1 := line.value.0])
  }

  function ListAll(parsed: seq<Parsed>): Option<Hashes> {
    if parsed == [] then Some(map[]) else Listed(ListAll(parsed[..|parsed| - 1]), parsed[|parsed| - 1])
  }

  function ParseLines(lines: seq<string>): Option<Hashes> {
    ListAll(ParseAll(lines))
  }

  predicate IsAscii(text: string) {
    forall i :: 0 <= i < |text| ==> text[i] < '\U{80}'
  }

  function ParseManifest(text: string): Option<Hashes> {
    if !IsAscii(text) || '\r' in text then None
    else if text == [] || text[|text| - 1] != '\n' then None
    else ParseLines(Split(text[..|text| - 1], '\n'))
  }

  /** The strict reader's loop over the lines. */
  method ReadManifest(text: string) returns (r: Option<Hashes>)
    ensures r == ParseManifest(text)
  {
    if !IsAscii(text) || '\r' in text {
      return None;
    }
    if text == [] || text[|text| - 1] != '\n' {
      return None;
    }
    var lines := Split(text[..|text| - 1], '\n');
    r := ListLines(lines);
  }

  method ListLines(lines: seq<string>) returns (r: Option<Hashes>)
    ensures r == ParseLines(lines)
  {
    ghost var parsed := ParseAll(lines);
    var entries: Hashes := map[];
    for i := 0 to |lines|
      invariant ListAll(parsed[..i]) == Some(entries)
    {
      ListOneMore(parsed, i);
      var line := ParseLine(lines[i]);
      assert line == parsed[i];
      if line.None? || line.value.1 in entries {
        StaysRefused(parsed, i + 1);
        return None;
      }
      entries := entries[line.value.1 := line.value.0];
    }
    assert parsed[..|lines|] == parsed;
    return Some(entries);
  }

  lemma ListOneMore(parsed: seq<Parsed>, i: nat)
    requires i < |parsed|
    ensures ListAll(parsed[..i + 1]) == Listed(ListAll(parsed[..i]), parsed[i])
  {
    assert parsed[..i + 1][..i] == parsed[..i];
  }

  lemma {:induction false} StaysRefused(parsed: seq<Parsed>, i: nat)
    requires i <= |parsed| && ListAll(parsed[..i]).None?
    ensures ListAll(parsed).None?
    decreases |parsed|
  {
    if i == |parsed| {
      assert parsed[..i] == parsed;
    } else {
      assert parsed[..|parsed| - 1][..i] == parsed[..i];
      StaysRefused(parsed[..|parsed| - 1], i);
    }
  }

  lemma BadLineRefuses(parsed: seq<Parsed>, i: nat)
    requires i < |parsed| && parsed[i].None?
    ensures ListAll(parsed).None?
  {
    ListOneMore(parsed, i);
    StaysRefused(parsed, i + 1);
  }

  // ----- writing

  function RenderLines(hashes: Hashes, names: seq<string>): string
    requires forall n :: n in names ==> n in hashes
  {
    if names == [] then ""
    else Line(hashes[names[0]], names[0]) + "\n" + RenderLines(hashes, names[1..])
  }

  function RenderManifest(hashes: Hashes): string {
    RenderLines(hashes, Sorted(hashes.Keys))
  }

  function Lines(hashes: Hashes, names: seq<string>): (lines: seq<string>)
    requires forall n :: n in names ==> n in hashes
    ensures |lines| == |names|
    ensures forall i :: 0 <= i < |names| ==> lines[i] == Line(hashes[names[i]], names[i])
  {
    if names == [] then [] else [Line(hashes[names[0]], names[0])] + Lines(hashes, names[1..])
  }

  lemma {:induction false} RenderIsJoin(hashes: Hashes, names: seq<string>)
    requires forall n :: n in names ==> n in hashes
    requires names != []
    ensures RenderLines(hashes, names) == Join(Lines(hashes, names), '\n') + "\n"
  {
    var lines := Lines(hashes, names);
    assert lines[1..] == Lines(hashes, names[1..]);
    if |names| == 1 {
      assert names[1..] == [];
      assert RenderLines(hashes, names) == Line(hashes[names[0]], names[0]) + "\n" + "";
    } else {
      RenderIsJoin(hashes, names[1..]);
    }
  }

  predicate Digests(hashes: Hashes) {
    forall n :: n in hashes ==> IsDigest(hashes[n])
  }

  /** Every name could be a deliverable's: what staging lets through. */
  predicate Names(hashes: Hashes) {
    forall n :: n in hashes ==> IsSafeName(n) && !Reserved(n)
  }

  predicate EndsInNewline(s: string) {
    s != [] && s[|s| - 1] == '\n'
  }

  lemma LineReadsBack(digest: string, name: string)
    requires IsDigest(digest) && IsPlainName(name) && !Reserved(name)
    ensures ParseLine(Line(digest, name)) == Some((digest, name))
  {
    var line := Line(digest, name);
    assert line[..64] == digest && line[66..] == name;
    assert forall i :: 66 <= i < |line| ==> line[i] == name[i - 66];
  }

  function Restricted(hashes: Hashes, names: seq<string>): Hashes {
    map n | n in names && n in hashes :: hashes[n]
  }

  /** A name whose line reads back. */
  predicate Readable(hashes: Hashes, n: string) {
    n in hashes && IsDigest(hashes[n]) && IsPlainName(n) && !Reserved(n)
  }

  lemma RestrictedFront(hashes: Hashes, names: seq<string>)
    requires names != [] && names[|names| - 1] in hashes
    ensures var last := names[|names| - 1];
            Restricted(hashes, names) == Restricted(hashes, names[..|names| - 1])[last := hashes[last]]
  {
    var front, last := names[..|names| - 1], names[|names| - 1];
    assert names == front + [last];
    assert forall n :: n in names <==> n in front || n == last;
  }

  /** Lines that read as the digest and name they were written from are listed as such. */
  lemma {:induction false} ListedAsWritten(hashes: Hashes, names: seq<string>, parsed: seq<Parsed>)
    requires Distinct(names) && |parsed| == |names|
    requires forall i :: 0 <= i < |names| ==> names[i] in hashes && parsed[i] == Some((hashes[names[i]], names[i]))
    ensures ListAll(parsed) == Some(Restricted(hashes, names))
    decreases |names|
  {
    if names == [] {
      assert Restricted(hashes, names) == map[];
    } else {
      var front, last := names[..|names| - 1], names[|names| - 1];
      ListedAsWritten(hashes, front, parsed[..|parsed| - 1]);
      RestrictedFront(hashes, names);
      assert last !in front;
    }
  }

  lemma LinesReadBack(hashes: Hashes, names: seq<string>)
    requires forall n :: n in names ==> n in hashes && Readable(hashes, n)
    requires Distinct(names)
    ensures ParseLines(Lines(hashes, names)) == Some(Restricted(hashes, names))
  {
    var lines := Lines(hashes, names);
    var parsed := ParseAll(lines);
    forall i | 0 <= i < |names|
      ensures parsed[i] == Some((hashes[names[i]], names[i]))
    {
      assert Readable(hashes, names[i]);
      LineReadsBack(hashes[names[i]], names[i]);
    }
    ListedAsWritten(hashes, names, parsed);
  }

  lemma PlainLine(digest: string, name: string)
    requires IsDigest(digest) && IsPlainName(name)
    ensures '\n' !in Line(digest, name) && '\r' !in Line(digest, name) && IsAscii(Line(digest, name))
  {
  }

  /** Nothing but ASCII and no carriage return. */
  predicate Clean(text: string) {
    IsAscii(text) && '\r' !in text
  }

  lemma CleanConcat(a: string, b: string)
    requires Clean(a) && Clean(b)
    ensures Clean(a + b)
  {
  }

  lemma NameIsClean(name: string)
    requires IsSafeName(name)
    ensures Clean(name)
  {
    if !IsPlainName(name) {
      var front := name[..|name| - 1];
      assert forall i :: 0 <= i < |front| ==> name[i] == front[i];
    }
  }

  lemma LineIsClean(digest: string, name: string)
    requires IsDigest(digest) && IsSafeName(name)
    ensures Clean(Line(digest, name) + "\n")
  {
    NameIsClean(name);
    CleanConcat(digest, "  ");
    CleanConcat(digest + "  ", name);
    CleanConcat(Line(digest, name), "\n");
  }

  lemma {:induction false} RenderIsAscii(hashes: Hashes, names: seq<string>)
    requires forall n :: n in names ==> n in hashes && IsDigest(hashes[n]) && IsSafeName(n)
    ensures Clean(RenderLines(hashes, names))
    ensures names != [] ==> EndsInNewline(RenderLines(hashes, names))
  {
    if names != [] {
      var line, rest := Line(hashes[names[0]], names[0]) + "\n", RenderLines(hashes, names[1..]);
      RenderIsAscii(hashes, names[1..]);
      LineIsClean(hashes[names[0]], names[0]);
      CleanConcat(line, rest);
      LastOfConcat(line, rest);
    }
  }

  lemma LastOfConcat(line: string, rest: string)
    requires EndsInNewline(line) && (rest == "" || EndsInNewline(rest))
    ensures EndsInNewline(line + rest)
  {
  }

  lemma LinesHaveNoNewline(hashes: Hashes, names: seq<string>)
    requires forall n :: n in names ==> n in hashes && Readable(hashes, n)
    ensures forall line :: line in Lines(hashes, names) ==> '\n' !in line
  {
    forall i | 0 <= i < |names|
      ensures '\n' !in Lines(hashes, names)[i]
    {
      assert Readable(hashes, names[i]);
      PlainLine(hashes[names[i]], names[i]);
    }
  }

  lemma WithoutFinalNewline(body: string)
    ensures (body + "\n")[..|body + "\n"| - 1] == body
  {
  }

  lemma RenderedLinesReadBack(hashes: Hashes, names: seq<string>)
    requires names != [] && Distinct(names)
    requires forall n :: n in names ==> n in hashes && Readable(hashes, n)
    ensures ParseManifest(RenderLines(hashes, names)) == Some(Restricted(hashes, names))
  {
    RenderIsAscii(hashes, names);
    RenderIsJoin(hashes, names);
    LinesHaveNoNewline(hashes, names);
    SplitJoin(Lines(hashes, names), '\n');
    WithoutFinalNewline(Join(Lines(hashes, names), '\n'));
    LinesReadBack(hashes, names);
  }

  /** Reading back what was written, for names without a newline. */
  lemma PlainNamesReadBack(hashes: Hashes)
    requires Digests(hashes) && Names(hashes) && hashes != map[]
    requires forall n :: n in hashes ==> !EndsInNewline(n)
    ensures ParseManifest(RenderManifest(hashes)) == Some(hashes)
  {
    var names := Sorted(hashes.Keys);
    SortedDistinct(hashes.Keys);
    var n :| n in hashes;
    assert n in names;
    forall x | x in names
      ensures x in hashes && Readable(hashes, x)
    {
      assert x in hashes.Keys;
    }
    RenderedLinesReadBack(hashes, names);
    AllRestricted(hashes, names);
  }

  lemma AllRestricted(hashes: Hashes, names: seq<string>)
    requires forall n :: n in hashes ==> n in names
    ensures Restricted(hashes, names) == hashes
  {
  }

  // ----- a name that ends in a newline

  lemma {:induction false} RenderAround(hashes: Hashes, names: seq<string>, k: nat) returns (before: string, after: string)
    requires forall n :: n in names ==> n in hashes
    requires k < |names|
    ensures RenderLines(hashes, names) == before + Line(hashes[names[k]], names[k]) + "\n" + after
    ensures after == RenderLines(hashes, names[k + 1..])
  {
    if k == 0 {
      before, after := "", RenderLines(hashes, names[1..]);
      assert "" + Line(hashes[names[0]], names[0]) == Line(hashes[names[0]], names[0]);
    } else {
      before, after := RenderAround(hashes, names[1..], k - 1);
      var first := Line(hashes[names[0]], names[0]) + "\n";
      assert names[1..][k..] == names[k + 1..];
      assert first + (before + Line(hashes[names[k]], names[k]) + "\n" + after)
          == first + before + Line(hashes[names[k]], names[k]) + "\n" + after;
      before := first + before;
    }
  }

  lemma EmptyLineRefuses(text: string)
    requires "" in Split(text, '\n')
    ensures ParseLines(Split(text, '\n')).None?
  {
    var lines := Split(text, '\n');
    var i :| 0 <= i < |lines| && lines[i] == "";
    BadLineRefuses(ParseAll(lines), i);
  }

  /** What follows a blank line's first newline, without the last newline of all. */
  function BlankThen(after: string): string {
    if after == "" then "" else ['\n'] + after[..|after| - 1]
  }

  lemma BlankIsEmptyLine(after: string)
    ensures "" in Split(BlankThen(after), '\n')
  {
    assert Split("", '\n') == [""];
    if after != "" {
      var rest := after[..|after| - 1];
      assert BlankThen(after) == "" + ['\n'] + rest;
      SplitConcat("", rest, '\n');
      assert ([""] + Split(rest, '\n'))[0] == "";
    }
  }

  lemma WithoutLastNewline(core: string, after: string)
    requires after == "" || EndsInNewline(after)
    ensures var text := core + "\n" + "\n" + after;
            EndsInNewline(text) && text[..|text| - 1] == core + ['\n'] + BlankThen(after)
  {
    var text := core + "\n" + "\n" + after;
    if after != "" {
      assert text == core + ['\n'] + (['\n'] + after);
    }
  }

  lemma DoubleNewlineRefuses(core: string, after: string)
    requires after == "" || EndsInNewline(after)
    ensures ParseManifest(core + "\n" + "\n" + after).None?
  {
    var text := core + "\n" + "\n" + after;
    WithoutLastNewline(core, after);
    BlankIsEmptyLine(after);
    SplitConcat(core, BlankThen(after), '\n');
    BlankLineRefuses(text, core + ['\n'] + BlankThen(after));
  }

  lemma BlankLineRefuses(text: string, body: string)
    requires EndsInNewline(text) && body == text[..|text| - 1] && "" in Split(body, '\n')
    ensures ParseManifest(text).None?
  {
    EmptyLineRefuses(body);
  }

  lemma LineBreaksInTwo(before: string, digest: string, name: string, after: string)
    requires EndsInNewline(name)
    ensures before + Line(digest, name) + "\n" + after
            == before + Line(digest, name[..|name| - 1]) + "\n" + "\n" + after
  {
    assert name == name[..|name| - 1] + "\n";
    assert Line(digest, name) == Line(digest, name[..|name| - 1]) + "\n";
  }

  lemma RestEndsInNewline(hashes: Hashes, names: seq<string>, k: nat)
    requires k < |names|
    requires forall n :: n in names ==> n in hashes && IsDigest(hashes[n]) && IsSafeName(n)
    ensures var after := RenderLines(hashes, names[k + 1..]);
            after == "" || EndsInNewline(after)
  {
    RenderIsAscii(hashes, names[k + 1..]);
  }

  /** Such a name breaks its own line in two, and the manifest is refused. */
  lemma NewlineNameIsRefused(hashes: Hashes, name: string)
    requires Digests(hashes) && Names(hashes)
    requires name in hashes && EndsInNewline(name)
    ensures ParseManifest(RenderManifest(hashes)).None?
  {
    var names := Sorted(hashes.Keys);
    assert name in names;
    var k :| 0 <= k < |names| && names[k] == name;
    RestEndsInNewline(hashes, names, k);
    var before, after := RenderAround(hashes, names, k);
    LineBreaksInTwo(before, hashes[name], name, after);
    DoubleNewlineRefuses(before + Line(hashes[name], name[..|name| - 1]), after);
  }

  /** A file called "a" and a newline passes the name check, and its own manifest is refused. */
  lemma NewlineNameExample()
    ensures var name, digest := "a\n", seq(64, _ => '0');
            && IsSafeName(name) && !Reserved(name) && IsDigest(digest)
            && ParseManifest(RenderManifest(map[name := digest])).None?
  {
    var name, digest := "a\n", seq(64, _ => '0');
    assert name[..|name| - 1] == "a" && IsPlainName("a");
    NewlineNameIsRefused(map[name := digest], name);
  }

  /** Reading undoes writing exactly when no name ends in a newline. */
  lemma ManifestReadsBackExactly(hashes: Hashes)
    requires Digests(hashes) && Names(hashes) && hashes != map[]
    ensures ParseManifest(RenderManifest(hashes)) == Some(hashes)
            <==> forall n :: n in hashes ==> !EndsInNewline(n)
    ensures ParseManifest(RenderManifest(hashes)).None?
            <==> exists n :: n in hashes && EndsInNewline(n)
  {
    if n :| n in hashes && EndsInNewline(n) {
      NewlineNameIsRefused(hashes, n);
    } else {
      PlainNamesReadBack(hashes);
    }
  }
}
