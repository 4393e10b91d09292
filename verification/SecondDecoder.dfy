/**
 * The independent framing decoder of `rust/src/conformance_tests.rs`, which gives
 * up (there: panics) on anything short or of indeterminate length, and its
 * agreement with the reader of `Framing` on every input.
 */
module SecondDecoder {
  import opened Common
  import opened Framing

  datatype RawPacket = RawPacket(tag: nat, start: nat, bodyStart: nat, end: nat, body: Octets)

  /** A length: its value, whether it is partial, and the index after it. */
  datatype LengthAt = LengthAt(length: nat, partial: bool, next: nat)

  function LengthFrom(data: Octets, i: nat): (r: Option<LengthAt>)
    ensures r.Some? ==> i < r.value.next <= |data|
  {
    if i >= |data| then None
    else
      var o1: int := data[i];
      if o1 <= 191 then Some(LengthAt(o1, false, i + 1))
      else if o1 <= 223 then
        if i + 1 >= |data| then None
        else Some(LengthAt((o1 - 192) * 256 + data[i + 1] + 192, false, i + 2))
      else if o1 == 255 then
        if i + 4 >= |data| then None
        else Some(LengthAt(BigEndian(data[i + 1..i + 5]), false, i + 5))
      else Some(LengthAt(Pow2(o1 - 224), true, i + 1))
  }

  /** The body of a new-format packet whose length field is at `i`. */
  datatype BodyAt = BodyAt(octets: Octets, start: nat, end: nat)

  function BodyFrom(data: Octets, i: nat): (r: Option<BodyAt>)
    ensures r.Some? ==> i < r.value.start <= r.value.end <= |data|
    decreases |data| - i
  {
    var l := LengthFrom(data, i);
    if l.None? then None
    else
      var start, end := l.value.next, l.value.next + l.value.length;
      if end > |data| then None
      else if !l.value.partial then Some(BodyAt(data[start..end], start, end))
      else
        var rest := BodyFrom(data, end);
        if rest.None? then None else Some(BodyAt(data[start..end] + rest.value.octets, start, rest.value.end))
  }

  /** Left fold of octets, as the legacy branch computes a length. */
  function FoldOctets(acc: nat, octets: Octets): nat
    decreases |octets|
  {
    if octets == [] then acc else FoldOctets(acc * 256 + octets[0], octets[1..])
  }

  function LegacyAt(data: Octets, i: nat): (r: Option<RawPacket>)
    requires i < |data| && 128 <= data[i]
    ensures r.Some? ==> i < r.value.end <= |data|
  {
    var lengthType := data[i] % 4;
    if lengthType == 3 then None
    else
      var octets := if lengthType == 0 then 1 else if lengthType == 1 then 2 else 4;
      var start := i + 1 + octets;
      if start > |data| then None
      else
        var end := start + FoldOctets(0, data[i + 1..start]);
        if end > |data| then None
        else Some(RawPacket((data[i] - 128) / 4, i, start, end, data[start..end]))
  }

  function PacketAt(data: Octets, i: nat): (r: Option<RawPacket>)
    requires i < |data|
    ensures r.Some? ==> i < r.value.end <= |data|
  {
    if data[i] < 128 then None
    else if data[i] < 192 then LegacyAt(data, i)
    else
      var body := BodyFrom(data, i + 1);
      if body.None? then None
      else Some(RawPacket(data[i] - 192, i, body.value.start, body.value.end, body.value.octets))
  }

  function RawPackets(data: Octets, i: nat): Option<seq<RawPacket>>
    requires i <= |data|
    decreases |data| - i
  {
    if i == |data| then Some([])
    else
      var p := PacketAt(data, i);
      if p.None? then None
      else
        var rest := RawPackets(data, p.value.end);
        if rest.None? then None else Some([p.value] + rest.value)
  }

  /** A body some of whose segments were read before; the first one says where it starts. */
  function Resumed(start: Option<nat>, before: Octets, rest: Option<BodyAt>): Option<BodyAt> {
    if rest.None? then None
    else
      Some(BodyAt(
        before + rest.value.octets, if start.Some? then start.value else rest.value.start, rest.value.end))
  }

  lemma ResumedStep(data: Octets, i: nat, start: Option<nat>, before: Octets)
    requires LengthFrom(data, i).Some?
    requires LengthFrom(data, i).value.next + LengthFrom(data, i).value.length <= |data|
    ensures var l := LengthFrom(data, i).value;
            var end := l.next + l.length;
            var first := if start.Some? then start else Some(l.next);
            var octets := before + data[l.next..end];
            Resumed(start, before, BodyFrom(data, i))
            == if l.partial then Resumed(first, octets, BodyFrom(data, end))
               else Some(BodyAt(octets, first.value, end))
  {
    var l := LengthFrom(data, i).value;
    var rest := BodyFrom(data, l.next + l.length);
    if l.partial && rest.Some? {
      var chunk := data[l.next..l.next + l.length];
      assert before + (chunk + rest.value.octets) == before + chunk + rest.value.octets;
    }
  }

  /** The decoder's inner loop over the segments of a body. */
  method WalkBody(data: Octets, first: nat) returns (r: Option<BodyAt>)
    ensures r == BodyFrom(data, first)
  {
    var i, body := first, [];
    var bodyStart: Option<nat> := None;
    assert BodyFrom(data, first).Some? ==> [] + BodyFrom(data, first).value.octets == BodyFrom(data, first).value.octets;
    while true
      invariant BodyFrom(data, first) == Resumed(bodyStart, body, BodyFrom(data, i))
      decreases |data| - i
    {
      var l := LengthFrom(data, i);
      if l.None? {
        return None;
      }
      var start, end := l.value.next, l.value.next + l.value.length;
      if end > |data| {
        return None;
      }
      ResumedStep(data, i, bodyStart, body);
      if bodyStart.None? {
        bodyStart := Some(start);
      }
      body := body + data[start..end];
      i := end;
      if !l.value.partial {
        return Some(BodyAt(body, bodyStart.value, i));
      }
    }
  }

  /** One packet of either format. */
  method WalkPacketRaw(data: Octets, i: nat) returns (r: Option<RawPacket>)
    requires i < |data|
    ensures r == PacketAt(data, i)
  {
    if data[i] < 128 {
      return None;
    }
    if data[i] < 192 {
      return LegacyAt(data, i);
    }
    var body := WalkBody(data, i + 1);
    if body.None? {
      return None;
    }
    return Some(RawPacket(data[i] - 192, i, body.value.start, body.value.end, body.value.octets));
  }

  /** The decoder's loop over the packets. */
  method WalkRaw(data: Octets) returns (out: Option<seq<RawPacket>>)
    ensures out == RawPackets(data, 0)
  {
    var i := 0;
    var packets: seq<RawPacket> := [];
    assert RawPackets(data, 0).Some? ==> packets + RawPackets(data, 0).value == RawPackets(data, 0).value;
    while i < |data|
      invariant i <= |data|
      invariant RawPackets(data, 0)
                == var rest := RawPackets(data, i);
                   if rest.None? then None else Some(packets + rest.value)
    {
      var p := WalkPacketRaw(data, i);
      if p.None? {
        return None;
      }
      ghost var rest := RawPackets(data, p.value.end);
      assert rest.Some? ==> packets + ([p.value] + rest.value) == packets + [p.value] + rest.value;
      packets := packets + [p.value];
      i := p.value.end;
    }
    assert packets + [] == packets;
    return Some(packets);
  }

  // ----- agreement

  lemma {:induction false} FoldOneMore(acc: nat, octets: Octets, last: Octet)
    ensures FoldOctets(acc, octets + [last]) == FoldOctets(acc, octets) * 256 + last
    decreases |octets|
  {
    if octets == [] {
      assert [last][1..] == [];
      assert FoldOctets(acc * 256 + last, []) == acc * 256 + last;
    } else {
      assert (octets + [last])[1..] == octets[1..] + [last];
      FoldOneMore(acc * 256 + octets[0], octets[1..], last);
    }
  }

  /** The fold gives the big-endian number. */
  lemma {:induction false} FoldIsBigEndian(octets: Octets)
    ensures FoldOctets(0, octets) == BigEndian(octets)
  {
    if octets != [] {
      var front, last := octets[..|octets| - 1], octets[|octets| - 1];
      assert octets == front + [last];
      FoldIsBigEndian(front);
      FoldOneMore(0, front, last);
    }
  }

  lemma LengthsAgree(data: Octets, i: nat)
    ensures ReadLength(data, i)
            == var l := LengthFrom(data, i);
               if l.None? then None
               else Some(Field(if l.value.partial then Partial(l.value.length) else Fixed(l.value.length), l.value.next))
  {
  }

  /** What the reader makes of the length field at `i` and the body behind it, if it is whole. */
  function ReadFrom(data: Octets, i: nat): Option<BodyAt> {
    var field := ReadLength(data, i);
    if field.None? then None
    else
      var body := ReadBody(data, field.value);
      if body.truncated then None else Some(BodyAt(body.octets, field.value.next, body.end))
  }

  /** A body the second decoder accepts is one the reader finds complete, and the same one. */
  lemma {:induction false} BodiesAgree(data: Octets, i: nat)
    ensures BodyFrom(data, i) == ReadFrom(data, i)
    decreases |data| - i
  {
    LengthsAgree(data, i);
    var l := LengthFrom(data, i);
    if l.Some? && l.value.next + l.value.length <= |data| && l.value.partial {
      BodiesAgree(data, l.value.next + l.value.length);
    }
  }

  /** A packet of the reader, as the second decoder describes it. */
  function ToRaw(p: Frame): RawPacket {
    RawPacket(p.header.tag, p.offset, p.header.field.next, p.body.end, p.body.octets)
  }

  predicate Indefinite(p: Frame) {
    p.header.field.length.Indeterminate?
  }

  function ExpectedAt(data: Octets, i: nat): Option<RawPacket> {
    var f := ReadFrame(data, i);
    if f.None? || f.value.body.truncated || Indefinite(f.value) then None else Some(ToRaw(f.value))
  }

  lemma OneOctet(data: Octets, i: nat)
    requires i < |data|
    ensures BigEndian(data[i..i + 1]) == data[i]
  {
    assert data[i..i + 1] == [data[i]] && [data[i]][..0] == [];
  }

  lemma LegacyAgrees(data: Octets, i: nat)
    requires i < |data| && 128 <= data[i] < 192
    ensures LegacyAt(data, i) == ExpectedAt(data, i)
  {
    var lengthType := data[i] % 4;
    var n := if lengthType == 0 then 1 else if lengthType == 1 then 2 else 4;
    if lengthType != 3 && i + 1 + n <= |data| {
      FoldIsBigEndian(data[i + 1..i + 1 + n]);
      OneOctet(data, i + 1);
    }
  }

  lemma PacketsAgree(data: Octets, i: nat)
    requires i < |data|
    ensures PacketAt(data, i) == ExpectedAt(data, i)
  {
    if data[i] >= 192 {
      BodiesAgree(data, i + 1);
    } else if data[i] >= 128 {
      LegacyAgrees(data, i);
    }
  }

  /** The reader's packets as the second decoder would list them, or `None` where it gives up. */
  function Expected(packets: seq<Frame>, note: Option<Note>): Option<seq<RawPacket>> {
    if packets == [] then (if note.None? then Some([]) else None)
    else
      var rest := Expected(packets[1..], note);
      if rest.None? || Indefinite(packets[0]) then None else Some([ToRaw(packets[0])] + rest.value)
  }

  /** `Expected` spelled out: no note, no indeterminate length, and the same packets one by one. */
  lemma {:induction false} ExpectedMeans(packets: seq<Frame>, note: Option<Note>)
    ensures Expected(packets, note).Some? <==> note.None? && forall p :: p in packets ==> !Indefinite(p)
    ensures var raws := Expected(packets, note);
            raws.Some? ==>
              && |raws.value| == |packets|
              && forall k :: 0 <= k < |packets| ==> raws.value[k] == ToRaw(packets[k])
  {
    if packets != [] {
      ExpectedMeans(packets[1..], note);
      assert packets == [packets[0]] + packets[1..];
    }
  }

  /**
   * On every input: the second decoder succeeds exactly when the reader ends
   * without a note on packets of determinate length, and then they agree on
   * every packet's type, offsets and body.
   */
  lemma {:induction false} DecodersAgree(data: Octets, i: nat)
    requires i <= |data|
    ensures RawPackets(data, i) == Expected(Packets(data, i).packets, Packets(data, i).note)
    decreases |data| - i
  {
    if i < |data| {
      PacketsAgree(data, i);
      var s := Packets(data, i);
      var f := ReadFrame(data, i);
      if f.Some? {
        if f.value.body.truncated {
          assert s.packets[1..] == [];
        } else {
          assert s.packets[1..] == Packets(data, f.value.body.end).packets;
          DecodersAgree(data, f.value.body.end);
        }
      }
    }
  }
}
