/** Splitting, joining and comparing text, as the release scripts use them. */
module Text {
  import opened Common

  /** ASCII white space, as `str.strip` and `\S` see it. */
  predicate IsSpace(c: char) {
    c == ' ' || '\t' <= c <= '\r' || '\U{1c}' <= c <= '\U{1f}'
  }

  // ----- splitting

  /** `text.split(sep)` for a one-character separator. */
  function Split(text: string, sep: char): (parts: seq<string>)
    ensures parts != []
  {
    if text == [] then [""]
    else
      var rest := Split(text[1..], sep);
      if text[0] == sep then [""] + rest
      else [[text[0]] + rest[0]] + rest[1..]
  }

  /** `sep.join(parts)`. */
  function Join(parts: seq<string>, sep: char): string
    requires parts != []
  {
    if |parts| == 1 then parts[0] else parts[0] + [sep] + Join(parts[1..], sep)
  }

  lemma JoinExtended(c: char, parts: seq<string>, sep: char)
    requires parts != []
    ensures Join([[c] + parts[0]] + parts[1..], sep) == [c] + Join(parts, sep)
  {
    var longer := [[c] + parts[0]] + parts[1..];
    if |parts| > 1 {
      assert longer[1..] == parts[1..];
      assert [c] + parts[0] + [sep] + Join(parts[1..], sep) == [c] + (parts[0] + [sep] + Join(parts[1..], sep));
    }
  }

  lemma {:induction false} JoinSplit(text: string, sep: char)
    ensures Join(Split(text, sep), sep) == text
    ensures forall p :: p in Split(text, sep) ==> sep !in p
  {
    if text != [] {
      var rest := Split(text[1..], sep);
      JoinSplit(text[1..], sep);
      if text[0] == sep {
        assert ([""] + rest)[1..] == rest;
        assert Join([""] + rest, sep) == "" + [sep] + Join(rest, sep);
      } else {
        JoinExtended(text[0], rest, sep);
        assert forall p :: p in rest[1..] ==> p in rest;
        assert rest[0] in rest;
      }
    }
  }

  lemma {:induction false} SplitWhole(text: string, sep: char)
    requires sep !in text
    ensures Split(text, sep) == [text]
  {
    if text != [] {
      assert text[0] in text && text == [text[0]] + text[1..];
      SplitWhole(text[1..], sep);
    }
  }

  lemma {:induction false} SplitFirst(first: string, rest: string, sep: char)
    requires sep !in first
    ensures Split(first + [sep] + rest, sep) == [first] + Split(rest, sep)
  {
    var text := first + [sep] + rest;
    if first == [] {
      assert text[1..] == rest;
    } else {
      assert first[0] in first && first == [first[0]] + first[1..];
      SplitFirst(first[1..], rest, sep);
      assert text[1..] == first[1..] + [sep] + rest;
    }
  }

  lemma {:induction false} SplitJoin(parts: seq<string>, sep: char)
    requires parts != []
    requires forall p :: p in parts ==> sep !in p
    ensures Split(Join(parts, sep), sep) == parts
  {
    assert parts[0] in parts;
    if |parts| == 1 {
      SplitWhole(parts[0], sep);
    } else {
      SplitFirst(parts[0], Join(parts[1..], sep), sep);
      SplitJoin(parts[1..], sep);
    }
  }

  lemma {:induction false} JoinConcat(a: seq<string>, b: seq<string>, sep: char)
    requires a != [] && b != []
    ensures Join(a + b, sep) == Join(a, sep) + [sep] + Join(b, sep)
  {
    assert (a + b)[1..] == a[1..] + b;
    if |a| == 1 {
      assert a[1..] + b == b;
    } else {
      JoinConcat(a[1..], b, sep);
    }
  }

  lemma SplitConcat(a: string, b: string, sep: char)
    ensures Split(a + [sep] + b, sep) == Split(a, sep) + Split(b, sep)
  {
    JoinSplit(a, sep);
    JoinSplit(b, sep);
    JoinConcat(Split(a, sep), Split(b, sep), sep);
    SplitJoin(Split(a, sep) + Split(b, sep), sep);
  }

  /** The text before the first `sep`, and the text after it if there is one. */
  function Cut(text: string, sep: char): (string, Option<string>) {
    if text == [] then ("", None)
    else if text[0] == sep then ("", Some(text[1..]))
    else
      var (left, right) := Cut(text[1..], sep);
      ([text[0]] + left, right)
  }

  lemma {:induction false} CutMeans(text: string, sep: char)
    ensures var (left, right) := Cut(text, sep);
            && sep !in left
            && text == left + (if right.Some? then [sep] + right.value else [])
  {
    if text != [] {
      CutMeans(text[1..], sep);
    }
  }

  lemma {:induction false} CutWhole(text: string, sep: char)
    requires sep !in text
    ensures Cut(text, sep) == (text, None)
  {
    if text != [] {
      assert text[0] in text && text == [text[0]] + text[1..];
      CutWhole(text[1..], sep);
    }
  }

  lemma {:induction false} CutFirst(left: string, right: string, sep: char)
    requires sep !in left
    ensures Cut(left + [sep] + right, sep) == (left, Some(right))
  {
    var text := left + [sep] + right;
    if left == [] {
      assert text[1..] == right;
    } else {
      assert left[0] in left && left == [left[0]] + left[1..];
      CutFirst(left[1..], right, sep);
      assert text[1..] == left[1..] + [sep] + right;
    }
  }

  // ----- order

  /** Code-point order on strings. */
  predicate StrLess(a: string, b: string) {
    if b == [] then false
    else if a == [] then true
    else if a[0] == b[0] then StrLess(a[1..], b[1..])
    else a[0] < b[0]
  }

  lemma {:induction false} StrTrichotomy(a: string, b: string)
    ensures StrLess(a, b) || a == b || StrLess(b, a)
    ensures !(StrLess(a, b) && StrLess(b, a))
    ensures StrLess(a, b) ==> a != b
  {
    if a != [] && b != [] && a[0] == b[0] {
      StrTrichotomy(a[1..], b[1..]);
      assert a == [a[0]] + a[1..] && b == [b[0]] + b[1..];
    }
  }

  lemma {:induction false} StrTransitive(a: string, b: string, c: string)
    requires StrLess(a, b) && StrLess(b, c)
    ensures StrLess(a, c)
  {
    if a != [] && a[0] == b[0] == c[0] {
      StrTransitive(a[1..], b[1..], c[1..]);
    }
  }

  /** The first place where two strings differ decides; a proper prefix comes first. */
  predicate LexicallyLower(a: string, b: string) {
    || (|a| < |b| && a == b[..|a|])
    || (exists k :: 0 <= k < |a| && k < |b| && DiffersAt(a, b, k))
  }

  /** Equal up to `k`, and smaller there. */
  predicate DiffersAt(a: string, b: string, k: nat)
    requires k < |a| && k < |b|
  {
    a[..k] == b[..k] && a[k] < b[k]
  }

  lemma {:induction false} StrLessIsLexical(a: string, b: string)
    ensures StrLess(a, b) <==> LexicallyLower(a, b)
  {
    if a != [] && b != [] {
      if a[0] == b[0] {
        StrLessIsLexical(a[1..], b[1..]);
        TailsDecide(a, b);
      } else if a[0] < b[0] {
        assert DiffersAt(a, b, 0);
      } else {
        assert forall k :: 0 < k <= |a| && k <= |b| ==> a[..k][0] != b[..k][0];
      }
    }
  }

  lemma PrefixTails(a: string, b: string, k: nat)
    requires 0 < k <= |a| && k <= |b| && a[0] == b[0]
    ensures a[..k] == b[..k] <==> a[1..][..k - 1] == b[1..][..k - 1]
  {
    assert a[1..][..k - 1] == a[..k][1..] && b[1..][..k - 1] == b[..k][1..];
    assert a[..k] == [a[0]] + a[..k][1..] && b[..k] == [b[0]] + b[..k][1..];
  }

  lemma TailsDecide(a: string, b: string)
    requires a != [] && b != [] && a[0] == b[0]
    ensures LexicallyLower(a, b) <==> LexicallyLower(a[1..], b[1..])
  {
    if |a| <= |b| {
      PrefixTails(a, b, |a|);
      assert a[..|a|] == a && a[1..][..|a| - 1] == a[1..];
    }
    if k :| 0 <= k < |a| && k < |b| && DiffersAt(a, b, k) {
      PrefixTails(a, b, k);
      assert DiffersAt(a[1..], b[1..], k - 1);
    }
    if k :| 0 <= k < |a| - 1 && k < |b| - 1 && DiffersAt(a[1..], b[1..], k) {
      PrefixTails(a, b, k + 1);
      assert DiffersAt(a, b, k + 1);
    }
  }
}
