/**
 * OpenPGP packet framing (section 4.2 of RFC 9580): the reader of
 * `rust/src/inspect.rs`, and the list of packets it finds in a stream.
 *
 * A position in the stream is an index, where the program keeps the rest of the
 * stream as a slice.
 */
module Framing {
  import opened Common

  type Octets = seq<Octet>

  datatype PacketLength = Fixed(n: nat) | Partial(n: nat) | Indeterminate

  datatype Format = OldFormat | NewFormat

  /** A length field and the index after it. */
  datatype Field = Field(length: PacketLength, next: nat)

  /** The new-format length at `i`, or `None` if the input is too short. */
  function ReadLength(data: Octets, i: nat): (r: Option<Field>)
    ensures r.Some? ==> i < r.value.next <= |data| && !r.value.length.Indeterminate?
  {
    if i >= |data| then None
    else
      var first: int := data[i];
      if first < 192 then Some(Field(Fixed(first), i + 1))
      else if first < 224 then
        if i + 2 > |data| then None
        else Some(Field(Fixed((first - 192) * 256 + data[i + 1] + 192), i + 2))
      else if first < 255 then Some(Field(Partial(Pow2(first - 224)), i + 1))
      else if i + 5 > |data| then None
      else Some(Field(Fixed(BigEndian(data[i + 1..i + 5])), i + 5))
  }

  /** The old-format length at `i`, of the given two-bit type. */
  function ReadOldLength(lengthType: nat, data: Octets, i: nat): (r: Option<Field>)
    requires i <= |data|
    ensures r.Some? ==> i <= r.value.next <= |data|
  {
    if lengthType == 0 then
      if i + 1 > |data| then None else Some(Field(Fixed(data[i]), i + 1))
    else if lengthType == 1 then
      if i + 2 > |data| then None else Some(Field(Fixed(BigEndian(data[i..i + 2])), i + 2))
    else if lengthType == 2 then
      if i + 4 > |data| then None
      else Some(Field(Fixed(BigEndian(data[i..i + 4])), i + 4))
    else Some(Field(Indeterminate, i))
  }

  datatype Header = Header(format: Format, tag: nat, field: Field)

  /** The packet header at `i`. */
  function ReadHeader(data: Octets, i: nat): (r: Option<Header>)
    ensures r.Some? ==> i < r.value.field.next <= |data|
  {
    if i >= |data| || data[i] < 128 then None
    else
      var isNew := data[i] >= 192;
      var field := if isNew then ReadLength(data, i + 1) else ReadOldLength(data[i] % 4, data, i + 1);
      var tag := if isNew then data[i] - 192 else (data[i] - 128) / 4;
      if field.None? then None
      else Some(Header(if isNew then NewFormat else OldFormat, tag, field.value))
  }

  /** The octets of a body with partial lengths taken out, and the index after it. */
  datatype Body = Body(octets: Octets, end: nat, truncated: bool)

  /** The body behind a length field. */
  function ReadBody(data: Octets, field: Field): (r: Body)
    requires field.next <= |data|
    ensures field.next <= r.end <= |data|
    decreases |data| - field.next
  {
    var start := field.next;
    match field.length
    case Indeterminate => Body(data[start..], |data|, false)
    case Fixed(n) =>
      if start + n > |data| then Body(data[start..], |data|, true)
      else Body(data[start..start + n], start + n, false)
    case Partial(n) =>
      if start + n > |data| then Body(data[start..], |data|, true)
      else
        var next := ReadLength(data, start + n);
        if next.None? then Body(data[start..start + n], start + n, true)
        else Joined(data[start..start + n], ReadBody(data, next.value))
  }

  datatype Frame = Frame(offset: nat, header: Header, body: Body)

  function ReadFrame(data: Octets, i: nat): (r: Option<Frame>)
    ensures r.Some? ==> r.value.offset == i < r.value.header.field.next <= r.value.body.end <= |data|
  {
    var header := ReadHeader(data, i);
    if header.None? then None
    else Some(Frame(i, header.value, ReadBody(data, header.value.field)))
  }

  /** A body whose first octets were read before. */
  function Joined(before: Octets, rest: Body): Body {
    Body(before + rest.octets, rest.end, rest.truncated)
  }

  lemma JoinedAgain(before: Octets, chunk: Octets, rest: Body)
    ensures Joined(before, Joined(chunk, rest)) == Joined(before + chunk, rest)
    ensures Joined([], rest) == rest
  {
    assert before + (chunk + rest.octets) == before + chunk + rest.octets;
    assert [] + rest.octets == rest.octets;
  }

  /** A chunk that another length follows. */
  lemma ReadOn(data: Octets, field: Field, next: Field)
    requires field.length.Partial? && field.next + field.length.n <= |data|
    requires ReadLength(data, field.next + field.length.n) == Some(next)
    ensures ReadBody(data, field)
            == Joined(data[field.next..field.next + field.length.n], ReadBody(data, next))
  {
  }

  /** The reading loop, which advances a cursor and extends the body chunk by chunk. */
  method ReadChunks(data: Octets, first: Field) returns (r: Body)
    requires first.next <= |data|
    ensures r == ReadBody(data, first)
  {
    var field := first;
    var body: Octets := [];
    ghost var whole, rest := ReadBody(data, first), ReadBody(data, first);
    JoinedAgain([], [], rest);
    while field.length.Partial? && field.next + field.length.n <= |data|
      invariant field.next <= |data|
      invariant rest == ReadBody(data, field)
      invariant whole == Joined(body, rest)
      decreases |data| - field.next
    {
      var start, end := field.next, field.next + field.length.n;
      var next := ReadLength(data, end);
      if next.None? {
        return Body(body + data[start..end], end, true);
      }
      ReadOn(data, field, next.value);
      rest := ReadBody(data, next.value);
      JoinedAgain(body, data[start..end], rest);
      body, field := body + data[start..end], next.value;
    }
    r := ReadLast(data, field, body);
  }

  /** What is read once a length is not partial, or longer than the input. */
  method ReadLast(data: Octets, field: Field, body: Octets) returns (r: Body)
    requires field.next <= |data|
    requires field.length.Partial? ==> field.next + field.length.n > |data|
    ensures r == Joined(body, ReadBody(data, field))
  {
    var start := field.next;
    if field.length.Indeterminate? {
      return Body(body + data[start..], |data|, false);
    }
    var end := start + field.length.n;
    if end > |data| {
      return Body(body + data[start..], |data|, true);
    }
    return Body(body + data[start..end], end, false);
  }

  method ReadFraming(data: Octets, i: nat) returns (r: Option<Frame>)
    ensures r == ReadFrame(data, i)
  {
    var header := ReadHeader(data, i);
    if header.None? {
      return None;
    }
    var body := ReadChunks(data, header.value.field);
    return Some(Frame(i, header.value, body));
  }

  // ----- the packets of a stream

  datatype Note = NotOpenPgp | StoppedAt(offset: nat) | EndsInside(offset: nat)

  datatype Stream = Stream(packets: seq<Frame>, note: Option<Note>)

  /** Every packet from `i` on, and why reading stopped early, if it did. */
  function Packets(data: Octets, i: nat): Stream
    requires i <= |data|
    decreases |data| - i
  {
    if i == |data| then Stream([], None)
    else
      var frame := ReadFrame(data, i);
      if frame.None? then Stream([], Some(if i == 0 then NotOpenPgp else StoppedAt(i)))
      else if frame.value.body.truncated then Stream([frame.value], Some(EndsInside(i)))
      else
        var rest := Packets(data, frame.value.body.end);
        Stream([frame.value] + rest.packets, rest.note)
  }

  /** Consecutive packets from `i` on, without gap or overlap, ending at `end`. */
  predicate Tiles(packets: seq<Frame>, i: nat, end: nat) {
    if packets == [] then i == end
    else packets[0].offset == i && i < packets[0].body.end && Tiles(packets[1..], packets[0].body.end, end)
  }

  /** The packets tile a prefix of the input, and all of it when there is no note. */
  lemma {:induction false} PacketsTile(data: Octets, i: nat) returns (end: nat)
    requires i <= |data|
    ensures i <= end <= |data|
    ensures Tiles(Packets(data, i).packets, i, end)
    ensures Packets(data, i).note.None? ==> end == |data|
    decreases |data| - i
  {
    var frame := ReadFrame(data, i);
    if i == |data| || frame.None? {
      end := i;
    } else if frame.value.body.truncated {
      end := frame.value.body.end;
      assert Packets(data, i).packets[1..] == [];
    } else {
      end := PacketsTile(data, frame.value.body.end);
      assert Packets(data, i).packets[1..] == Packets(data, frame.value.body.end).packets;
    }
  }
}
