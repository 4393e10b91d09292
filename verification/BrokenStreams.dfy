/**
 * Streams that do not end cleanly: complete packets followed by one that is cut
 * short, one without a length, or something that is no packet.
 */
module BrokenStreams {
  import opened Common
  import opened Framing
  import opened Encoders

  /** What stands behind the last complete packet. */
  datatype Tail =
    | CutNew(tag: nat, declared: nat, octets: nat, body: Octets)
    | CutOld(tag: nat, declared: nat, lengthType: nat, body: Octets)
    | CutChunk(tag: nat, chunks: seq<Octets>, exponent: nat, body: Octets)
    | CutAfterChunk(tag: nat, chunks: seq<Octets>, last: Octets)
    | OpenEnded(tag: nat, body: Octets)
    | NoPacket(stray: Octets)

  /** Shorter than declared, without a length, or no header at all: below 128, or cut inside the length. */
  predicate ValidTail(t: Tail) {
    match t
    case CutNew(tag, declared, octets, body) =>
      && tag < 64 && |body| < declared
      && ((octets == 1 && declared < 192) || (octets == 2 && 192 <= declared < 8384)
          || (octets == 5 && declared < LIMIT32))
    case CutOld(tag, declared, lengthType, body) =>
      && tag < 16 && |body| < declared
      && ((lengthType == 0 && declared < 256) || (lengthType == 1 && declared < 65536)
          || (lengthType == 2 && declared < LIMIT32))
    case CutChunk(tag, chunks, exponent, body) =>
      tag < 64 && exponent <= 30 && |body| < Pow2(exponent) && AllChunks(chunks)
    case CutAfterChunk(tag, chunks, last) => tag < 64 && AllChunks(chunks) && PartialChunk(last)
    case OpenEnded(tag, _) => tag < 16
    case NoPacket(stray) =>
      && stray != []
      && (|| stray[0] < 128
          || (stray[0] >= 192 && (|stray| == 1 || (stray[1] == 255 && |stray| < 6))))
  }

  predicate AllChunks(chunks: seq<Octets>) {
    forall c :: c in chunks ==> PartialChunk(c)
  }

  function OpenChunks(chunks: seq<Octets>): Octets
    requires AllChunks(chunks)
  {
    if chunks == [] then [] else [ChunkMark(chunks[0])] + chunks[0] + OpenChunks(chunks[1..])
  }

  function EncodeTail(t: Tail): Octets
    requires ValidTail(t)
  {
    match t
    case CutNew(tag, declared, octets, body) => [192 + tag] + NewLength(declared, octets) + body
    case CutOld(tag, declared, lengthType, body) => [128 + 4 * tag + lengthType] + OldLength(declared, lengthType) + body
    case CutChunk(tag, chunks, exponent, body) => [192 + tag] + (OpenChunks(chunks) + ([224 + exponent] + body))
    case CutAfterChunk(tag, chunks, last) => [192 + tag] + (OpenChunks(chunks) + ([ChunkMark(last)] + last))
    case OpenEnded(tag, body) => [128 + 4 * tag + 3] + body
    case NoPacket(stray) => stray
  }

  /** The octets of its body that are there. */
  function TailBody(t: Tail): Octets {
    match t
    case CutNew(_, _, _, body) => body
    case CutOld(_, _, _, body) => body
    case CutChunk(_, chunks, _, body) => Flatten(chunks) + body
    case CutAfterChunk(_, chunks, last) => Flatten(chunks) + last
    case OpenEnded(_, body) => body
    case NoPacket(_) => []
  }

  /** The frame says what is there, up to the end of the input, and whether it was cut. */
  predicate Salvages(f: Frame, t: Tail, i: nat, end: nat) {
    && !t.NoPacket? && f.offset == i && f.header.tag == t.tag
    && f.body == Body(TailBody(t), end, !t.OpenEnded?)
  }

  // ----- reading the tail

  lemma ReadShortBody(data: Octets, field: Field, body: Octets)
    requires !field.length.Indeterminate? && |body| < field.length.n
    requires At(data, field.next, body) && field.next + |body| == |data|
    ensures ReadBody(data, field) == Body(body, |data|, true)
  {
  }

  lemma ReadCutNew(data: Octets, i: nat, t: Tail)
    requires ValidTail(t) && t.CutNew? && At(data, i, EncodeTail(t)) && i + |EncodeTail(t)| == |data|
    ensures ReadFrame(data, i).Some? && Salvages(ReadFrame(data, i).value, t, i, |data|)
  {
    var size := NewLength(t.declared, t.octets);
    AtThree(data, i, 192 + t.tag, size, t.body);
    ReadNewLength(data, i + 1, t.declared, t.octets);
    ReadNewHeader(data, i, Field(Fixed(t.declared), i + 1 + |size|));
    ReadShortBody(data, Field(Fixed(t.declared), i + 1 + |size|), t.body);
  }

  lemma ReadShortFrame(data: Octets, i: nat, header: Header, body: Octets)
    requires ReadHeader(data, i) == Some(header) && header.field.length.Fixed? && |body| < header.field.length.n
    requires At(data, header.field.next, body) && header.field.next + |body| == |data|
    ensures ReadFrame(data, i) == Some(Frame(i, header, Body(body, |data|, true)))
  {
    ReadShortBody(data, header.field, body);
  }

  lemma ReadOldHeaderAt(data: Octets, i: nat, tag: nat, declared: nat, lengthType: nat, body: Octets)
    returns (header: Header)
    requires tag < 16
    requires (lengthType == 0 && declared < 256) || (lengthType == 1 && declared < 65536)
             || (lengthType == 2 && declared < LIMIT32)
    requires At(data, i, [128 + 4 * tag + lengthType] + OldLength(declared, lengthType) + body)
    ensures ReadHeader(data, i) == Some(header) && header.tag == tag && header.field.length == Fixed(declared)
    ensures At(data, header.field.next, body) && header.field.next == i + 1 + |OldLength(declared, lengthType)|
  {
    var size := OldLength(declared, lengthType);
    AtThree(data, i, 128 + 4 * tag + lengthType, size, body);
    ReadLegacyLength(data, i + 1, declared, lengthType);
    ReadOldHeader(data, i, tag, lengthType, Field(Fixed(declared), i + 1 + |size|));
    header := Header(OldFormat, tag, Field(Fixed(declared), i + 1 + |size|));
  }

  lemma ReadCutOld(data: Octets, i: nat, t: Tail)
    requires ValidTail(t) && t.CutOld? && At(data, i, EncodeTail(t)) && i + |EncodeTail(t)| == |data|
    ensures ReadFrame(data, i).Some? && Salvages(ReadFrame(data, i).value, t, i, |data|)
  {
    var header := ReadOldHeaderAt(data, i, t.tag, t.declared, t.lengthType, t.body);
    ReadShortFrame(data, i, header, t.body);
  }

  lemma ReadOpenEnded(data: Octets, i: nat, t: Tail)
    requires ValidTail(t) && t.OpenEnded? && At(data, i, EncodeTail(t)) && i + |EncodeTail(t)| == |data|
    ensures ReadFrame(data, i).Some? && Salvages(ReadFrame(data, i).value, t, i, |data|)
  {
    AtParts(data, i, [128 + 4 * t.tag + 3], t.body);
    AtIndex(data, i, [128 + 4 * t.tag + 3], 0);
    ReadOldHeader(data, i, t.tag, 3, Field(Indeterminate, i + 1));
  }

  lemma ReadNoPacket(data: Octets, i: nat, t: Tail)
    requires ValidTail(t) && t.NoPacket? && At(data, i, t.stray) && i + |t.stray| == |data|
    ensures ReadFrame(data, i).None?
  {
    AtIndex(data, i, t.stray, 0);
    if |t.stray| > 1 {
      AtIndex(data, i, t.stray, 1);
    }
  }

  /** A mark and the chunk it announces. */
  predicate ChunkAt(data: Octets, i: nat, chunk: Octets) {
    i < |data| && 224 <= data[i] < 255 && Pow2(data[i] - 224) == |chunk| && At(data, i + 1, chunk)
  }

  /** What is read from the length at `i` on. */
  predicate BodyAt(data: Octets, i: nat, body: Body) {
    var field := ReadLength(data, i);
    field.Some? && ReadBody(data, field.value) == body
  }

  lemma ReadChunkLength(data: Octets, i: nat, chunk: Octets)
    requires ChunkAt(data, i, chunk)
    ensures ReadLength(data, i) == Some(Field(Partial(|chunk|), i + 1))
    ensures i + 1 + |chunk| <= |data| && data[i + 1..i + 1 + |chunk|] == chunk
  {
  }

  lemma JoinNext(data: Octets, field: Field, next: Field, chunk: Octets)
    requires field.length == Partial(|chunk|) && field.next + |chunk| <= |data|
    requires data[field.next..field.next + |chunk|] == chunk
    requires ReadLength(data, field.next + |chunk|) == Some(next)
    ensures ReadBody(data, field) == Joined(chunk, ReadBody(data, next))
  {
    ReadOn(data, field, next);
  }

  /** A chunk with another length behind it, whatever that leads to. */
  lemma ReadChunkThen(data: Octets, i: nat, chunk: Octets, next: nat, rest: Body)
    requires ChunkAt(data, i, chunk) && next == i + 1 + |chunk| && BodyAt(data, next, rest)
    ensures BodyAt(data, i, Joined(chunk, rest))
  {
    ReadChunkLength(data, i, chunk);
    JoinNext(data, Field(Partial(|chunk|), i + 1), ReadLength(data, next).value, chunk);
  }

  /** A chunk where the input ends instead of going on with a length. */
  lemma ReadLastChunk(data: Octets, i: nat, chunk: Octets)
    requires ChunkAt(data, i, chunk) && i + 1 + |chunk| == |data|
    ensures BodyAt(data, i, Body(chunk, |data|, true))
  {
  }

  /** A chunk shorter than its mark says. */
  lemma ReadShortChunk(data: Octets, i: nat, exponent: nat, body: Octets)
    requires exponent <= 30 && |body| < Pow2(exponent)
    requires i < |data| && data[i] == 224 + exponent && At(data, i + 1, body) && i + 1 + |body| == |data|
    ensures BodyAt(data, i, Body(body, |data|, true))
  {
    ReadShortBody(data, Field(Partial(Pow2(exponent)), i + 1), body);
  }

  /** Chunks one behind the other from `i` up to `next`. */
  predicate ChunksAt(data: Octets, i: nat, chunks: seq<Octets>, next: nat)
    decreases |chunks|
  {
    if chunks == [] then i == next
    else ChunkAt(data, i, chunks[0]) && ChunksAt(data, i + 1 + |chunks[0]|, chunks[1..], next)
  }

  lemma OpenChunksStep(chunks: seq<Octets>)
    requires AllChunks(chunks) && chunks != []
    ensures AllChunks(chunks[1..]) && PartialChunk(chunks[0])
    ensures OpenChunks(chunks) == [ChunkMark(chunks[0])] + chunks[0] + OpenChunks(chunks[1..])
  {
  }

  lemma MarkedChunkAt(data: Octets, i: nat, chunk: Octets, rest: Octets)
    requires PartialChunk(chunk) && At(data, i, [ChunkMark(chunk)] + chunk + rest)
    ensures ChunkAt(data, i, chunk) && At(data, i + 1 + |chunk|, rest)
  {
    AtThree(data, i, ChunkMark(chunk), chunk, rest);
  }

  lemma {:induction false} OpenChunksAt(data: Octets, i: nat, chunks: seq<Octets>, next: nat)
    requires AllChunks(chunks) && At(data, i, OpenChunks(chunks)) && next == i + |OpenChunks(chunks)|
    ensures ChunksAt(data, i, chunks, next)
    decreases |chunks|
  {
    if chunks != [] {
      OpenChunksStep(chunks);
      MarkedChunkAt(data, i, chunks[0], OpenChunks(chunks[1..]));
      OpenChunksAt(data, i + 1 + |chunks[0]|, chunks[1..], next);
    }
  }

  lemma FlattenStep(chunks: seq<Octets>, rest: Body)
    requires chunks != []
    ensures Joined(chunks[0], Joined(Flatten(chunks[1..]), rest)) == Joined(Flatten(chunks), rest)
  {
    JoinedAgain(chunks[0], Flatten(chunks[1..]), rest);
  }

  /** Chunks in front of anything that reads as a body. */
  lemma {:induction false} ReadChunksThen(data: Octets, i: nat, chunks: seq<Octets>, next: nat, rest: Body)
    requires ChunksAt(data, i, chunks, next) && BodyAt(data, next, rest)
    ensures BodyAt(data, i, Joined(Flatten(chunks), rest))
    decreases |chunks|
  {
    if chunks == [] {
      JoinedAgain([], [], rest);
    } else {
      var second := i + 1 + |chunks[0]|;
      ReadChunksThen(data, second, chunks[1..], next, rest);
      ReadChunkThen(data, i, chunks[0], second, Joined(Flatten(chunks[1..]), rest));
      FlattenStep(chunks, rest);
    }
  }

  lemma ReadPartialHeader(data: Octets, i: nat, tag: nat, body: Body)
    requires tag < 64 && i < |data| && data[i] == 192 + tag && BodyAt(data, i + 1, body)
    ensures ReadFrame(data, i) == Some(Frame(i, Header(NewFormat, tag, ReadLength(data, i + 1).value), body))
  {
    ReadNewHeader(data, i, ReadLength(data, i + 1).value);
  }

  /** A tag, chunks and a last chunk: where each of them stands. */
  lemma PartsAt(data: Octets, i: nat, tag: nat, chunks: seq<Octets>, mark: Octet, last: Octets) returns (next: nat)
    requires tag < 64 && AllChunks(chunks)
    requires At(data, i, [192 + tag] + (OpenChunks(chunks) + ([mark] + last)))
    ensures i < |data| && data[i] == 192 + tag && ChunksAt(data, i + 1, chunks, next)
    ensures next < |data| && data[next] == mark && At(data, next + 1, last)
    ensures next + 1 + |last| == i + |[192 + tag] + (OpenChunks(chunks) + ([mark] + last))|
  {
    AtParts(data, i, [192 + tag], OpenChunks(chunks) + ([mark] + last));
    AtIndex(data, i, [192 + tag], 0);
    AtParts(data, i + 1, OpenChunks(chunks), [mark] + last);
    next := i + 1 + |OpenChunks(chunks)|;
    AtParts(data, next, [mark], last);
    AtIndex(data, next, [mark], 0);
    OpenChunksAt(data, i + 1, chunks, next);
  }

  lemma ReadCutChunk(data: Octets, i: nat, t: Tail)
    requires ValidTail(t) && t.CutChunk? && At(data, i, EncodeTail(t)) && i + |EncodeTail(t)| == |data|
    ensures ReadFrame(data, i).Some? && Salvages(ReadFrame(data, i).value, t, i, |data|)
  {
    var next := PartsAt(data, i, t.tag, t.chunks, 224 + t.exponent, t.body);
    ReadShortChunk(data, next, t.exponent, t.body);
    ReadChunksThen(data, i + 1, t.chunks, next, Body(t.body, |data|, true));
    ReadPartialHeader(data, i, t.tag, Joined(Flatten(t.chunks), Body(t.body, |data|, true)));
  }

  lemma ReadCutAfterChunk(data: Octets, i: nat, t: Tail)
    requires ValidTail(t) && t.CutAfterChunk? && At(data, i, EncodeTail(t)) && i + |EncodeTail(t)| == |data|
    ensures ReadFrame(data, i).Some? && Salvages(ReadFrame(data, i).value, t, i, |data|)
  {
    var next := PartsAt(data, i, t.tag, t.chunks, ChunkMark(t.last), t.last);
    ReadLastChunk(data, next, t.last);
    ReadChunksThen(data, i + 1, t.chunks, next, Body(t.last, |data|, true));
    ReadPartialHeader(data, i, t.tag, Joined(Flatten(t.chunks), Body(t.last, |data|, true)));
  }

  lemma ReadTail(data: Octets, i: nat, t: Tail)
    requires ValidTail(t) && At(data, i, EncodeTail(t)) && i + |EncodeTail(t)| == |data|
    ensures if t.NoPacket? then ReadFrame(data, i).None?
            else ReadFrame(data, i).Some? && Salvages(ReadFrame(data, i).value, t, i, |data|)
  {
    match t {
      case CutNew(_, _, _, _) => ReadCutNew(data, i, t);
      case CutOld(_, _, _, _) => ReadCutOld(data, i, t);
      case CutChunk(_, _, _, _) => ReadCutChunk(data, i, t);
      case CutAfterChunk(_, _, _) => ReadCutAfterChunk(data, i, t);
      case OpenEnded(_, _) => ReadOpenEnded(data, i, t);
      case NoPacket(_) => ReadNoPacket(data, i, t);
    }
  }

  // ----- the packets in front of it

  /** The stream from the tail on. */
  predicate Ends(s: Stream, t: Tail, i: nat, end: nat) {
    if t.NoPacket? then s == Stream([], Some(if i == 0 then NotOpenPgp else StoppedAt(i)))
    else
      && |s.packets| == 1 && Salvages(s.packets[0], t, i, end)
      && s.note == if t.OpenEnded? then None else Some(EndsInside(i))
  }

  /**
   * Every complete packet from `i` on is recovered; then comes what is left of the
   * last one, which starts at `at`, and the note says how the stream ends.
   */
  predicate Broken(s: Stream, ws: seq<Wire>, t: Tail, i: nat, at: nat, end: nat)
    requires forall w :: w in ws ==> Valid(w)
  {
    && |ws| <= |s.packets| && RecoversAll(s.packets[..|ws|], ws, i)
    && Ends(Stream(s.packets[|ws|..], s.note), t, at, end)
  }

  lemma TailIsNotEmpty(t: Tail)
    requires ValidTail(t)
    ensures 0 < |EncodeTail(t)|
  {
  }

  lemma TailStream(data: Octets, i: nat, t: Tail)
    requires ValidTail(t) && At(data, i, EncodeTail(t)) && i + |EncodeTail(t)| == |data|
    ensures Ends(Packets(data, i), t, i, |data|)
  {
    TailIsNotEmpty(t);
    ReadTail(data, i, t);
    if t.OpenEnded? {
      PacketsOneMore(data, i, ReadFrame(data, i).value);
      assert Packets(data, |data|) == Stream([], None);
    }
  }

  lemma SplitOneMore(f: Frame, frames: seq<Frame>, n: nat)
    requires n <= |frames|
    ensures ([f] + frames)[..n + 1] == [f] + frames[..n]
    ensures ([f] + frames)[n + 1..] == frames[n..]
  {
  }

  lemma BrokenOneMore(
    f: Frame, rest: Stream, all: Stream, w: Wire, ws: seq<Wire>, t: Tail, i: nat, next: nat, at: nat, end: nat
  )
    requires Valid(w) && forall x :: x in ws ==> Valid(x)
    requires Recovers(f, w, i) && next == i + |Encode(w)| && Broken(rest, ws, t, next, at, end)
    requires all.note == rest.note && all.packets == [f] + rest.packets
    ensures Broken(all, [w] + ws, t, i, at, end)
  {
    SplitOneMore(f, rest.packets, |ws|);
    RecoversOneMore(f, rest.packets[..|ws|], w, ws, i);
  }

  lemma BrokenNoMore(s: Stream, t: Tail, at: nat, end: nat)
    requires Ends(s, t, at, end)
    ensures Broken(s, [], t, at, at, end)
  {
    assert s.packets[0..] == s.packets;
  }

  /** The first packet is read, and the others stand behind it. */
  lemma ReadFrontFirst(data: Octets, i: nat, w: Wire, rest: Octets) returns (f: Frame)
    requires Valid(w) && At(data, i, Encode(w) + rest)
    ensures i < |data| && ReadFrame(data, i) == Some(f) && !f.body.truncated
    ensures Recovers(f, w, i) && f.body.end == i + |Encode(w)|
    ensures At(data, f.body.end, rest)
  {
    AtParts(data, i, Encode(w), rest);
    EncodedIsNotEmpty(w);
    ReadPacket(data, i, w);
    f := ReadFrame(data, i).value;
  }

  lemma BrokenFirst(data: Octets, i: nat, f: Frame, w: Wire, ws: seq<Wire>, t: Tail, at: nat)
    requires i < |data| && ReadFrame(data, i) == Some(f) && !f.body.truncated
    requires Valid(w) && forall x :: x in ws ==> Valid(x)
    requires Recovers(f, w, i) && f.body.end == i + |Encode(w)|
    requires Broken(Packets(data, f.body.end), ws, t, f.body.end, at, |data|)
    ensures Broken(Packets(data, i), [w] + ws, t, i, at, |data|)
  {
    PacketsOneMore(data, i, f);
    BrokenOneMore(f, Packets(data, f.body.end), Packets(data, i), w, ws, t, i, f.body.end, at, |data|);
  }

  lemma {:induction false} ReadBroken(data: Octets, i: nat, ws: seq<Wire>, t: Tail, at: nat)
    requires forall w :: w in ws ==> Valid(w)
    requires At(data, i, EncodeAll(ws)) && at == i + |EncodeAll(ws)|
    requires Ends(Packets(data, at), t, at, |data|)
    ensures Broken(Packets(data, i), ws, t, i, at, |data|)
    decreases |ws|
  {
    if ws != [] {
      var w, rest := ws[0], ws[1..];
      assert ws == [w] + rest;
      EncodeOneMore(w, rest);
      var f := ReadFrontFirst(data, i, w, EncodeAll(rest));
      ReadBroken(data, f.body.end, rest, t, at);
      BrokenFirst(data, i, f, w, rest, t, at);
    } else {
      BrokenNoMore(Packets(data, i), t, at, |data|);
    }
  }

  lemma FrontAndTail(data: Octets, front: Octets, back: Octets)
    requires data == front + back
    ensures At(data, 0, front) && At(data, |front|, back) && |front| + |back| == |data|
  {
    assert data[0..|data|] == data;
    AtParts(data, 0, front, back);
  }

  /** The reader's account of any list of packets with any such tail. */
  lemma BrokenStreamExactly(ws: seq<Wire>, t: Tail)
    requires ValidTail(t) && forall w :: w in ws ==> Valid(w)
    ensures var data := EncodeAll(ws) + EncodeTail(t);
            Broken(Packets(data, 0), ws, t, 0, |EncodeAll(ws)|, |data|)
  {
    var data := EncodeAll(ws) + EncodeTail(t);
    FrontAndTail(data, EncodeAll(ws), EncodeTail(t));
    TailStream(data, |EncodeAll(ws)|, t);
    ReadBroken(data, 0, ws, t, |EncodeAll(ws)|);
  }
}
