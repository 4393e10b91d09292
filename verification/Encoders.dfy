/**
 * The packet encoders of `rust/src/testutil.rs`, and the round trip: the reader
 * recovers every packet they write, in any mixture of length encodings.
 */
module Encoders {
  import opened Common
  import opened Framing
  import opened SecondDecoder

  /** How a packet's length is written. */
  datatype Wire =
    | NewPacket(tag: nat, body: Octets, octets: nat)
    | OldPacket(tag: nat, body: Octets, lengthType: nat)
    | PartialPacket(tag: nat, chunks: seq<Octets>, last: Octets)

  const LIMIT32: nat := 0x1_0000_0000

  predicate PartialChunk(chunk: Octets) {
    exists k :: 0 <= k <= 30 && |chunk| == Pow2(k)
  }

  /** What each encoder demands of its arguments. */
  predicate Valid(w: Wire) {
    match w
    case NewPacket(tag, body, octets) =>
      && tag < 64
      && ((octets == 1 && |body| < 192)
          || (octets == 2 && 192 <= |body| < 8384)
          || (octets == 5 && |body| < LIMIT32))
    case OldPacket(tag, body, lengthType) =>
      && tag < 16
      && ((lengthType == 0 && |body| < 256)
          || (lengthType == 1 && |body| < 65536)
          || (lengthType == 2 && |body| < LIMIT32))
    case PartialPacket(tag, chunks, last) =>
      && tag < 64 && |last| < LIMIT32
      && forall c :: c in chunks ==> PartialChunk(c)
  }

  /** A number without its low octet, and that octet: recursive, to keep division out of the proofs below. */
  function High(n: nat): nat {
    if n < 256 then 0 else 1 + High(n - 256)
  }

  function Low(n: nat): (r: Octet) {
    if n < 256 then n else Low(n - 256)
  }

  lemma {:induction false} HighLow(n: nat)
    ensures n == 256 * High(n) + Low(n)
  {
    if n >= 256 {
      HighLow(n - 256);
    }
  }

  /** The `width` low octets of a number, first octet most significant. */
  function Bytes(n: nat, width: nat): (octets: Octets)
    ensures |octets| == width
    decreases width
  {
    if width == 0 then [] else Bytes(High(n), width - 1) + [Low(n)]
  }

  function Pow256(k: nat): nat {
    if k == 0 then 1 else 256 * Pow256(k - 1)
  }

  lemma {:induction false} BytesReadBack(n: nat, width: nat)
    requires n < Pow256(width)
    ensures BigEndian(Bytes(n, width)) == n
    decreases width
  {
    if width > 0 {
      HighLow(n);
      BytesReadBack(High(n), width - 1);
      assert Bytes(n, width)[..width - 1] == Bytes(High(n), width - 1);
    }
  }

  lemma Widths()
    ensures Pow256(1) == 256 && Pow256(2) == 65536 && Pow256(4) == LIMIT32
  {
    assert Pow256(3) == 256 * 65536;
  }

  function Half(n: nat): nat {
    if n < 2 then 0 else 1 + Half(n - 2)
  }

  lemma {:induction false} TwiceHalf(n: nat)
    ensures n == 2 * Half(n) || n == 2 * Half(n) + 1
  {
    if n >= 2 {
      TwiceHalf(n - 2);
    }
  }

  lemma {:induction false} HalfOfTwice(n: nat)
    ensures Half(2 * n) == n
  {
    if n > 0 {
      HalfOfTwice(n - 1);
    }
  }

  /** The index of the lowest set bit. */
  function TrailingZeros(n: nat): (r: nat)
    requires n > 0
  {
    TwiceHalf(n);
    if n != 2 * Half(n) then 0 else 1 + TrailingZeros(Half(n))
  }

  lemma {:induction false} TrailingZerosOfPow2(k: nat)
    ensures TrailingZeros(Pow2(k)) == k
  {
    if k > 0 {
      TrailingZerosOfPow2(k - 1);
      HalfOfTwice(Pow2(k - 1));
    }
  }

  function NewLength(n: nat, octets: nat): Octets
    requires (octets == 1 && n < 192) || (octets == 2 && 192 <= n < 8384) || (octets == 5 && n < LIMIT32)
  {
    if octets == 1 then [n]
    else if octets == 2 then HighLow(n - 192); [High(n - 192) + 192, Low(n - 192)]
    else [255] + Bytes(n, 4)
  }

  function OldLength(n: nat, lengthType: nat): Octets
    requires (lengthType == 0 && n < 256) || (lengthType == 1 && n < 65536) || (lengthType == 2 && n < LIMIT32)
  {
    if lengthType == 0 then [n] else if lengthType == 1 then Bytes(n, 2) else Bytes(n, 4)
  }

  /** Partial chunks and the last segment, each with its length in front. */
  function EncodeChunks(chunks: seq<Octets>, last: Octets): Octets
    requires |last| < LIMIT32
    requires forall c :: c in chunks ==> PartialChunk(c)
  {
    if chunks == [] then NewLength(|last|, if |last| < 192 then 1 else 5) + last
    else
      assert chunks[0] in chunks;
      [ChunkMark(chunks[0])] + chunks[0] + EncodeChunks(chunks[1..], last)
  }

  /** The octet that announces a partial chunk. */
  function ChunkMark(chunk: Octets): (mark: Octet)
    requires PartialChunk(chunk)
    ensures 224 <= mark < 255 && Pow2(mark - 224) == |chunk|
  {
    ChunkExponent(chunk);
    224 + TrailingZeros(|chunk|)
  }

  lemma ChunkExponent(chunk: Octets)
    requires PartialChunk(chunk)
    ensures |chunk| > 0 && TrailingZeros(|chunk|) <= 30 && Pow2(TrailingZeros(|chunk|)) == |chunk|
  {
    var k :| 0 <= k <= 30 && |chunk| == Pow2(k);
    TrailingZerosOfPow2(k);
  }

  function Encode(w: Wire): Octets
    requires Valid(w)
  {
    match w
    case NewPacket(tag, body, octets) => [192 + tag] + NewLength(|body|, octets) + body
    case OldPacket(tag, body, lengthType) => [128 + 4 * tag + lengthType] + OldLength(|body|, lengthType) + body
    case PartialPacket(tag, chunks, last) => [192 + tag] + EncodeChunks(chunks, last)
  }

  /** The encoding of a complete packet: the shortest length field of one, two or five octets that holds the length. */
  function Minimal(tag: nat, body: Octets): (w: Wire)
    requires tag < 64 && |body| < LIMIT32
    ensures Valid(w)
  {
    NewPacket(tag, body, if |body| < 192 then 1 else if |body| < 8384 then 2 else 5)
  }

  /**
   * Among the encodings with a whole length of one, two or five octets, none is
   * shorter, and one of the same size is the same.
   */
  lemma MinimalIsShortest(tag: nat, body: Octets, octets: nat)
    requires tag < 64 && |body| < LIMIT32
    requires Valid(NewPacket(tag, body, octets))
    ensures |Encode(Minimal(tag, body))| <= |Encode(NewPacket(tag, body, octets))|
    ensures |Encode(Minimal(tag, body))| == |Encode(NewPacket(tag, body, octets))|
            ==> Minimal(tag, body) == NewPacket(tag, body, octets)
  {
  }

  /** A partial length can still be shorter: 16384 octets as one chunk and an empty last segment. */
  lemma PartialCanBeShorter(tag: nat, body: Octets)
    requires tag < 64 && |body| == 16384
    ensures Valid(PartialPacket(tag, [body], []))
    ensures BodyOf(PartialPacket(tag, [body], [])) == BodyOf(Minimal(tag, body))
    ensures |Encode(PartialPacket(tag, [body], []))| == 16387 < |Encode(Minimal(tag, body))| == 16390
  {
    assert Pow2(14) == 16384 by {
      assert Pow2(4) == 16 && Pow2(8) == 256 && Pow2(12) == 4096;
    }
    assert PartialChunk(body);
    assert [body][1..] == [];
    assert |EncodeChunks([], [])| == 1;
    assert Flatten([body]) == body + Flatten([]);
    assert body + [] + [] == body;
  }

  /** The encoder's loop over the chunks. */
  method PartialBody(tag: nat, chunks: seq<Octets>, last: Octets) returns (v: Octets)
    requires Valid(PartialPacket(tag, chunks, last))
    ensures v == Encode(PartialPacket(tag, chunks, last))
  {
    v := [192 + tag];
    for i := 0 to |chunks|
      invariant v + EncodeChunks(chunks[i..], last) == [192 + tag] + EncodeChunks(chunks, last)
    {
      ChunkExponent(chunks[i]);
      var front := [ChunkMark(chunks[i])] + chunks[i];
      assert chunks[i..][1..] == chunks[i + 1..];
      assert v + (front + EncodeChunks(chunks[i + 1..], last)) == v + front + EncodeChunks(chunks[i + 1..], last);
      v := v + front;
    }
    var size := NewLength(|last|, if |last| < 192 then 1 else 5);
    assert v + (size + last) == v + size + last;
    v := v + size + last;
  }

  // ----- reading back

  /** `s` stands at index `i` of `data`. */
  predicate At(data: Octets, i: nat, s: Octets) {
    i + |s| <= |data| && data[i..i + |s|] == s
  }

  lemma AtParts(data: Octets, i: nat, a: Octets, b: Octets)
    requires At(data, i, a + b)
    ensures At(data, i, a) && At(data, i + |a|, b)
  {
    var s := a + b;
    assert a == s[..|a|] && b == s[|a|..];
    assert data[i..i + |a|] == data[i..i + |s|][..|a|];
    assert data[i + |a|..i + |s|] == data[i..i + |s|][|a|..];
  }

  lemma AtIndex(data: Octets, i: nat, s: Octets, k: nat)
    requires At(data, i, s) && k < |s|
    ensures data[i + k] == s[k]
  {
    assert data[i..i + |s|][k] == data[i + k];
  }

  lemma ReadBytes(data: Octets, i: nat, n: nat, width: nat)
    requires At(data, i, Bytes(n, width)) && n < Pow256(width)
    ensures BigEndian(data[i..i + width]) == n
  {
    BytesReadBack(n, width);
  }

  lemma ReadNewLength(data: Octets, i: nat, n: nat, octets: nat)
    requires (octets == 1 && n < 192) || (octets == 2 && 192 <= n < 8384) || (octets == 5 && n < LIMIT32)
    requires At(data, i, NewLength(n, octets))
    ensures ReadLength(data, i) == Some(Field(Fixed(n), i + octets))
  {
    var s := NewLength(n, octets);
    AtIndex(data, i, s, 0);
    if octets == 2 {
      HighLow(n - 192);
      AtIndex(data, i, s, 1);
    } else if octets == 5 {
      Widths();
      AtParts(data, i, [255], Bytes(n, 4));
      ReadBytes(data, i + 1, n, 4);
    }
  }

  lemma ReadLegacyLength(data: Octets, i: nat, n: nat, lengthType: nat)
    requires (lengthType == 0 && n < 256) || (lengthType == 1 && n < 65536) || (lengthType == 2 && n < LIMIT32)
    requires At(data, i, OldLength(n, lengthType))
    ensures ReadOldLength(lengthType, data, i) == Some(Field(Fixed(n), i + |OldLength(n, lengthType)|))
  {
    Widths();
    if lengthType == 0 {
      AtIndex(data, i, [n], 0);
    } else {
      ReadBytes(data, i, n, if lengthType == 1 then 2 else 4);
    }
  }

  function Flatten(chunks: seq<Octets>): Octets {
    if chunks == [] then [] else chunks[0] + Flatten(chunks[1..])
  }

  lemma AtThree(data: Octets, i: nat, first: Octet, a: Octets, b: Octets)
    requires At(data, i, [first] + a + b)
    ensures i < |data| && data[i] == first && At(data, i + 1, a) && At(data, i + 1 + |a|, b)
  {
    AtParts(data, i, [first] + a, b);
    AtParts(data, i, [first], a);
    AtIndex(data, i, [first], 0);
  }

  /** A partial chunk joins what is read behind it. */
  lemma ReadChunk(data: Octets, i: nat, mark: Octet, chunk: Octets, rest: Octets, tail: Octets)
    requires 224 <= mark < 255 && Pow2(mark - 224) == |chunk|
    requires i < |data| && data[i] == mark && At(data, i + 1, chunk)
    requires ReadLength(data, i + 1 + |chunk|).Some?
    requires ReadBody(data, ReadLength(data, i + 1 + |chunk|).value) == Body(tail, i + 1 + |chunk| + |rest|, false)
    ensures ReadLength(data, i) == Some(Field(Partial(|chunk|), i + 1))
    ensures ReadBody(data, ReadLength(data, i).value) == Body(chunk + tail, i + |[mark] + chunk + rest|, false)
  {
    var field := Field(Partial(|chunk|), i + 1);
    assert ReadBody(data, field) == Joined(chunk, ReadBody(data, ReadLength(data, i + 1 + |chunk|).value));
  }

  lemma FlattenFirst(chunks: seq<Octets>, last: Octets)
    requires chunks != []
    ensures Flatten(chunks) + last == chunks[0] + (Flatten(chunks[1..]) + last)
  {
  }

  lemma ReadLastSegment(data: Octets, i: nat, last: Octets)
    requires |last| < LIMIT32
    requires At(data, i, EncodeChunks([], last))
    ensures ReadLength(data, i).Some?
    ensures ReadBody(data, ReadLength(data, i).value) == Body(last, i + |EncodeChunks([], last)|, false)
  {
    var octets := if |last| < 192 then 1 else 5;
    AtParts(data, i, NewLength(|last|, octets), last);
    ReadNewLength(data, i, |last|, octets);
  }

  /** The partial body at `i` reads back without its chunk headers. */
  lemma {:induction false} ReadEncodedChunks(data: Octets, i: nat, chunks: seq<Octets>, last: Octets)
    requires |last| < LIMIT32
    requires forall c :: c in chunks ==> PartialChunk(c)
    requires At(data, i, EncodeChunks(chunks, last))
    ensures ReadLength(data, i).Some?
    ensures ReadBody(data, ReadLength(data, i).value)
            == Body(Flatten(chunks) + last, i + |EncodeChunks(chunks, last)|, false)
    decreases |chunks|
  {
    if chunks == [] {
      ReadLastSegment(data, i, last);
      assert [] + last == last;
    } else {
      var chunk, rest := chunks[0], chunks[1..];
      assert chunk in chunks;
      AtThree(data, i, ChunkMark(chunk), chunk, EncodeChunks(rest, last));
      ReadEncodedChunks(data, i + 1 + |chunk|, rest, last);
      ReadChunk(data, i, ChunkMark(chunk), chunk, EncodeChunks(rest, last), Flatten(rest) + last);
      FlattenFirst(chunks, last);
    }
  }

  function TagOf(w: Wire): nat { w.tag }

  function BodyOf(w: Wire): Octets {
    match w
    case NewPacket(_, body, _) => body
    case OldPacket(_, body, _) => body
    case PartialPacket(_, chunks, last) => Flatten(chunks) + last
  }

  /** The frame says what was encoded: type, position, and the body without chunk headers. */
  predicate Recovers(f: Frame, w: Wire, i: nat)
    requires Valid(w)
  {
    && f.offset == i
    && f.header.tag == TagOf(w)
    && !Indefinite(f)
    && f.body == Body(BodyOf(w), i + |Encode(w)|, false)
  }

  /** A whole body of fixed length behind its length field. */
  lemma ReadFixedBody(data: Octets, field: Field, body: Octets)
    requires field.length == Fixed(|body|) && At(data, field.next, body)
    ensures ReadBody(data, field) == Body(body, field.next + |body|, false)
  {
  }

  lemma ReadNewHeader(data: Octets, i: nat, field: Field)
    requires i < |data| && data[i] >= 192 && ReadLength(data, i + 1) == Some(field)
    ensures ReadHeader(data, i) == Some(Header(NewFormat, data[i] - 192, field))
  {
  }

  lemma ReadNewPacket(data: Octets, i: nat, w: Wire)
    requires Valid(w) && w.NewPacket? && At(data, i, Encode(w))
    ensures ReadFrame(data, i).Some? && Recovers(ReadFrame(data, i).value, w, i)
  {
    var size := NewLength(|w.body|, w.octets);
    AtThree(data, i, 192 + w.tag, size, w.body);
    ReadNewLength(data, i + 1, |w.body|, w.octets);
    ReadNewHeader(data, i, Field(Fixed(|w.body|), i + 1 + |size|));
    ReadFixedBody(data, Field(Fixed(|w.body|), i + 1 + |size|), w.body);
  }

  lemma OldHeaderBits(tag: nat, lengthType: nat)
    requires lengthType < 4
    ensures (128 + 4 * tag + lengthType) % 4 == lengthType
    ensures (4 * tag + lengthType) / 4 == tag
  {
  }

  lemma ReadOldHeader(data: Octets, i: nat, tag: nat, lengthType: nat, field: Field)
    requires i < |data| && tag < 16 && lengthType < 4 && data[i] == 128 + 4 * tag + lengthType
    requires ReadOldLength(lengthType, data, i + 1) == Some(field)
    ensures ReadHeader(data, i) == Some(Header(OldFormat, tag, field))
  {
    OldHeaderBits(tag, lengthType);
  }

  lemma ReadOldPacket(data: Octets, i: nat, w: Wire)
    requires Valid(w) && w.OldPacket? && At(data, i, Encode(w))
    ensures ReadFrame(data, i).Some? && Recovers(ReadFrame(data, i).value, w, i)
  {
    var ctb := 128 + 4 * w.tag + w.lengthType;
    var size := OldLength(|w.body|, w.lengthType);
    AtThree(data, i, ctb, size, w.body);
    ReadLegacyLength(data, i + 1, |w.body|, w.lengthType);
    ReadOldHeader(data, i, w.tag, w.lengthType, Field(Fixed(|w.body|), i + 1 + |size|));
    ReadFixedBody(data, Field(Fixed(|w.body|), i + 1 + |size|), w.body);
  }

  lemma ReadPartialPacket(data: Octets, i: nat, w: Wire)
    requires Valid(w) && w.PartialPacket? && At(data, i, Encode(w))
    ensures ReadFrame(data, i).Some? && Recovers(ReadFrame(data, i).value, w, i)
  {
    AtParts(data, i, [192 + w.tag], EncodeChunks(w.chunks, w.last));
    AtIndex(data, i, [192 + w.tag], 0);
    ReadEncodedChunks(data, i + 1, w.chunks, w.last);
  }

  function EncodeAll(ws: seq<Wire>): Octets
    requires forall w :: w in ws ==> Valid(w)
  {
    if ws == [] then [] else Encode(ws[0]) + EncodeAll(ws[1..])
  }

  /** Frame by frame, the list of packets is recovered from `i` on. */
  predicate RecoversAll(frames: seq<Frame>, ws: seq<Wire>, i: nat)
    requires forall w :: w in ws ==> Valid(w)
  {
    if ws == [] then frames == []
    else
      && frames != []
      && Recovers(frames[0], ws[0], i)
      && RecoversAll(frames[1..], ws[1..], i + |Encode(ws[0])|)
  }

  lemma ReadPacket(data: Octets, i: nat, w: Wire)
    requires Valid(w) && At(data, i, Encode(w))
    ensures ReadFrame(data, i).Some? && Recovers(ReadFrame(data, i).value, w, i)
  {
    match w {
      case NewPacket(_, _, _) => ReadNewPacket(data, i, w);
      case OldPacket(_, _, _) => ReadOldPacket(data, i, w);
      case PartialPacket(_, _, _) => ReadPartialPacket(data, i, w);
    }
  }

  lemma EncodeOneMore(w: Wire, ws: seq<Wire>)
    requires Valid(w) && forall x :: x in ws ==> Valid(x)
    ensures EncodeAll([w] + ws) == Encode(w) + EncodeAll(ws)
  {
    assert ([w] + ws)[1..] == ws;
  }

  lemma RecoversOneMore(f: Frame, frames: seq<Frame>, w: Wire, ws: seq<Wire>, i: nat)
    requires Valid(w) && forall x :: x in ws ==> Valid(x)
    requires Recovers(f, w, i) && RecoversAll(frames, ws, i + |Encode(w)|)
    ensures RecoversAll([f] + frames, [w] + ws, i)
  {
    assert ([f] + frames)[1..] == frames && ([w] + ws)[1..] == ws;
  }

  /** The stream ends cleanly, holds these packets, and says how long each of them is. */
  predicate ReadsBack(s: Stream, ws: seq<Wire>, i: nat)
    requires forall w :: w in ws ==> Valid(w)
  {
    s.note.None? && RecoversAll(s.packets, ws, i) && forall p :: p in s.packets ==> !Indefinite(p)
  }

  lemma ReadsBackOneMore(data: Octets, i: nat, f: Frame, w: Wire, ws: seq<Wire>)
    requires i < |data| && ReadFrame(data, i) == Some(f) && !f.body.truncated
    requires Valid(w) && forall x :: x in ws ==> Valid(x)
    requires Recovers(f, w, i) && f.body.end == i + |Encode(w)|
    requires ReadsBack(Packets(data, f.body.end), ws, f.body.end)
    ensures ReadsBack(Packets(data, i), [w] + ws, i)
  {
    PacketsOneMore(data, i, f);
    ReadsBackCons(f, Packets(data, f.body.end), Packets(data, i), w, ws, i, f.body.end);
  }

  lemma ReadsBackCons(f: Frame, rest: Stream, all: Stream, w: Wire, ws: seq<Wire>, i: nat, next: nat)
    requires Valid(w) && forall x :: x in ws ==> Valid(x)
    requires Recovers(f, w, i) && next == i + |Encode(w)| && ReadsBack(rest, ws, next)
    requires all.note == rest.note && all.packets == [f] + rest.packets
    ensures ReadsBack(all, [w] + ws, i)
  {
    RecoversOneMore(f, rest.packets, w, ws, i);
  }

  lemma PacketsOneMore(data: Octets, i: nat, f: Frame)
    requires i < |data| && ReadFrame(data, i) == Some(f) && !f.body.truncated
    ensures Packets(data, i).note == Packets(data, f.body.end).note
    ensures Packets(data, i).packets == [f] + Packets(data, f.body.end).packets
  {
  }

  lemma EncodedIsNotEmpty(w: Wire)
    requires Valid(w)
    ensures 0 < |Encode(w)|
  {
  }

  lemma {:induction false} ReadAll(data: Octets, i: nat, ws: seq<Wire>)
    requires forall w :: w in ws ==> Valid(w)
    requires At(data, i, EncodeAll(ws)) && i + |EncodeAll(ws)| == |data|
    ensures ReadsBack(Packets(data, i), ws, i)
    decreases |ws|
  {
    if ws == [] {
      assert i == |data|;
    } else {
      var w, rest := ws[0], ws[1..];
      assert ws == [w] + rest;
      EncodeOneMore(w, rest);
      ReadFirst(data, i, w, rest);
      var f := ReadFrame(data, i).value;
      ReadAll(data, f.body.end, rest);
      ReadsBackOneMore(data, i, f, w, rest);
    }
  }

  lemma ReadFirst(data: Octets, i: nat, w: Wire, ws: seq<Wire>)
    requires Valid(w) && forall x :: x in ws ==> Valid(x)
    requires At(data, i, Encode(w) + EncodeAll(ws)) && i + |Encode(w) + EncodeAll(ws)| == |data|
    ensures i < |data| && ReadFrame(data, i).Some?
    ensures var f := ReadFrame(data, i).value;
            Recovers(f, w, i) && !f.body.truncated && f.body.end == i + |Encode(w)|
    ensures var next := ReadFrame(data, i).value.body.end;
            At(data, next, EncodeAll(ws)) && next + |EncodeAll(ws)| == |data|
  {
    AtParts(data, i, Encode(w), EncodeAll(ws));
    EncodedIsNotEmpty(w);
    ReadPacket(data, i, w);
  }

  /**
   * Any list of packets, in any mixture of encodings: the reader recovers every
   * type, offset and body with no note, and the second decoder agrees packet by
   * packet.
   */
  lemma FramingRoundTrip(ws: seq<Wire>)
    requires forall w :: w in ws ==> Valid(w)
    ensures var s := Packets(EncodeAll(ws), 0);
            && s.note.None?
            && RecoversAll(s.packets, ws, 0)
            && RawPackets(EncodeAll(ws), 0).Some?
            && var raws := RawPackets(EncodeAll(ws), 0).value;
            && |raws| == |s.packets|
            && forall k :: 0 <= k < |raws| ==> raws[k] == ToRaw(s.packets[k])
  {
    var data := EncodeAll(ws);
    assert data[0..|data|] == data;
    ReadAll(data, 0, ws);
    DecodersAgree(data, 0);
    ExpectedMeans(Packets(data, 0).packets, Packets(data, 0).note);
  }
}
