/** Exactly which texts the strict manifest reader accepts, and as what. */
module ManifestGrammar {
  import opened Common
  import opened Text
  import opened Manifest

  /** Line by line these names were given these digests, each name once, and no other is there. */
  predicate Gives(parsed: seq<Parsed>, names: seq<string>, hashes: Hashes) {
    && |names| == |parsed| && Distinct(names)
    && (forall i :: 0 <= i < |names| ==> names[i] in hashes && parsed[i] == Some((hashes[names[i]], names[i])))
    && forall n :: n in hashes ==> n in names
  }

  lemma DistinctMore(names: seq<string>, last: string)
    requires Distinct(names) && last !in names
    ensures Distinct(names + [last])
  {
  }

  lemma GivesMore(front: seq<Parsed>, names: seq<string>, hashes: Hashes, digest: string, name: string)
    requires Gives(front, names, hashes) && name !in hashes
    ensures Gives(front + [Some((digest, name))], names + [name], hashes[name := digest])
  {
    DistinctMore(names, name);
    var more := names + [name];
    assert forall i :: 0 <= i < |names| ==> more[i] == names[i] && names[i] != name;
  }

  lemma {:induction false} ListAllGives(parsed: seq<Parsed>) returns (names: seq<string>)
    requires ListAll(parsed).Some?
    ensures Gives(parsed, names, ListAll(parsed).value)
  {
    if parsed == [] {
      names := [];
    } else {
      var front, last := parsed[..|parsed| - 1], parsed[|parsed| - 1];
      names := ListAllGives(front);
      GivesMore(front, names, ListAll(front).value, last.value.0, last.value.1);
      names := names + [last.value.1];
      assert parsed == front + [Some((last.value.0, last.value.1))];
    }
  }

  /** A line that reads has a plain, unreserved name: white space ends the match. */
  lemma LineMeans(line: string)
    requires ParseLine(line).Some?
    ensures var (digest, name) := ParseLine(line).value;
            line == Line(digest, name) && IsDigest(digest) && IsPlainName(name) && !Reserved(name)
  {
  }

  /** The names of `hashes` in some order, all of them fit for a line. */
  predicate Enumerates(names: seq<string>, hashes: Hashes) {
    && names != [] && Distinct(names)
    && (forall n :: n in hashes ==> n in names)
    && (forall n :: n in names ==> n in hashes && Readable(hashes, n))
  }

  /** The text lists exactly these digests, a line each, under distinct plain and unreserved names. */
  ghost predicate Lists(text: string, hashes: Hashes) {
    exists names :: Enumerates(names, hashes) && text == RenderLines(hashes, names)
  }

  lemma LinesAreRendered(lines: seq<string>, hashes: Hashes) returns (names: seq<string>)
    requires lines != [] && ParseLines(lines) == Some(hashes)
    ensures Enumerates(names, hashes) && lines == Lines(hashes, names)
  {
    var parsed := ParseAll(lines);
    names := ListAllGives(parsed);
    forall i | 0 <= i < |lines|
      ensures names[i] in hashes && lines[i] == Line(hashes[names[i]], names[i]) && Readable(hashes, names[i])
    {
      assert parsed[i] == ParseLine(lines[i]);
      LineMeans(lines[i]);
    }
  }

  lemma AcceptedIsListed(text: string, hashes: Hashes)
    requires ParseManifest(text) == Some(hashes)
    ensures Lists(text, hashes)
  {
    var body := text[..|text| - 1];
    assert text == body + "\n";
    JoinSplit(body, '\n');
    var names := LinesAreRendered(Split(body, '\n'), hashes);
    RenderIsJoin(hashes, names);
  }

  lemma ListedIsAccepted(text: string, hashes: Hashes)
    requires Lists(text, hashes)
    ensures ParseManifest(text) == Some(hashes)
  {
    var names :| Enumerates(names, hashes) && text == RenderLines(hashes, names);
    RenderedLinesReadBack(hashes, names);
    AllRestricted(hashes, names);
  }

  /** A text is accepted exactly when it lists what it is accepted as. */
  lemma AcceptedExactly(text: string, hashes: Hashes)
    ensures ParseManifest(text) == Some(hashes) <==> Lists(text, hashes)
  {
    if ParseManifest(text) == Some(hashes) {
      AcceptedIsListed(text, hashes);
    } else if Lists(text, hashes) {
      ListedIsAccepted(text, hashes);
    }
  }
}
