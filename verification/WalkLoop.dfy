/** The walk as `rust/src/inspect.rs` runs it: a loop over the stream that spends a shared budget. */
module WalkLoop {
  import opened Common
  import opened Framing
  import opened Walk

  /** What is left to walk from `i`, with the budget `b`. */
  ghost function Ahead(data: Octets, i: nat, depth: nat, b: Budget, inflate: Inflate): Outcome
    requires i <= |data| && depth < MAX_DEPTH
  {
    PacketsWithin(data, i);
    WalkFrames(Packets(data, i).packets, data, b, Expanding(depth, inflate))
  }

  lemma PacketsStep(data: Octets, i: nat)
    requires i < |data| && ReadFrame(data, i).Some?
    ensures var f, packets := ReadFrame(data, i).value, Packets(data, i).packets;
            && packets != [] && packets[0] == f
            && packets[1..] == if f.body.truncated then [] else Packets(data, f.body.end).packets
  {
  }

  /** The node a frame becomes, and the budget after it. */
  ghost function Turn(f: Frame, data: Octets, b: Budget, expand: Expander): (Node, Budget)
    requires f.offset <= f.header.field.next <= f.body.end <= |data|
  {
    var e := expand(f, AttachRaw(f.body.end - f.offset, b));
    (Describe(f, data, b, e), e.budget)
  }

  lemma FramesTurn(frames: seq<Frame>, rest: seq<Frame>, data: Octets, b: Budget, expand: Expander)
    requires Within(frames, data) && Within(rest, data) && frames != [] && frames[1..] == rest
    ensures var (node, b') := Turn(frames[0], data, b, expand);
            WalkFrames(frames, data, b, expand) == Prefixed([node], WalkFrames(rest, data, b', expand))
  {
  }

  lemma NothingAhead(node: Node, data: Octets, b: Budget, expand: Expander)
    ensures Prefixed([node], WalkFrames([], data, b, expand)) == Outcome([node], b)
  {
    assert [node] + [] == [node];
  }

  lemma AheadStep(data: Octets, i: nat, depth: nat, b: Budget, inflate: Inflate)
    requires i < |data| && depth < MAX_DEPTH && ReadFrame(data, i).Some?
    ensures var f := ReadFrame(data, i).value;
            var (node, b') := Turn(f, data, b, Expanding(depth, inflate));
            Ahead(data, i, depth, b, inflate)
            == if f.body.truncated then Outcome([node], b')
               else Prefixed([node], Ahead(data, f.body.end, depth, b', inflate))
  {
    var f := ReadFrame(data, i).value;
    var (node, b') := Turn(f, data, b, Expanding(depth, inflate));
    var rest := if f.body.truncated then [] else Packets(data, f.body.end).packets;
    PacketsWithin(data, i);
    PacketsStep(data, i);
    FramesTurn(Packets(data, i).packets, rest, data, b, Expanding(depth, inflate));
    NothingAhead(node, data, b', Expanding(depth, inflate));
  }

  lemma NoteStep(data: Octets, i: nat)
    requires i < |data| && ReadFrame(data, i).Some?
    ensures var f := ReadFrame(data, i).value;
            Packets(data, i).note
            == if f.body.truncated then Some(EndsInside(i)) else Packets(data, f.body.end).note
  {
  }

  function Prefixed(nodes: seq<Node>, rest: Outcome): Outcome {
    Outcome(nodes + rest.nodes, rest.budget)
  }

  lemma PrefixedStep(nodes: seq<Node>, node: Node, rest: Outcome)
    ensures Prefixed(nodes, Prefixed([node], rest)) == Prefixed(nodes + [node], rest)
    ensures Prefixed(nodes, Outcome([node], rest.budget)) == Outcome(nodes + [node], rest.budget)
    ensures Prefixed(nodes, Outcome([], rest.budget)) == Outcome(nodes, rest.budget)
    ensures Prefixed([], rest) == rest
  {
    assert nodes + ([node] + rest.nodes) == nodes + [node] + rest.nodes;
    assert [] + rest.nodes == rest.nodes;
    assert nodes + [] == nodes;
  }

  /** Walking a stream is walking what lies ahead of its start. */
  lemma StreamIsAhead(data: Octets, depth: nat, b: Budget, inflate: Inflate)
    requires depth < MAX_DEPTH
    ensures WalkStream(data, depth, b, inflate) == Ahead(data, 0, depth, b, inflate)
  {
  }

  class Spending {
    var decompressed: nat
    var raw: nat
    var rawSpent: bool

    constructor ()
      ensures View() == INITIAL_BUDGET
    {
      decompressed, raw, rawSpent := MAX_BLOCK_SIZE, MAX_RAW_TOTAL, false;
    }

    ghost function View(): Budget
      reads this
    {
      Budget(decompressed, raw, rawSpent)
    }

    /** How many of a packet's octets to hand over, charged to the budget. */
    method AttachOctets(size: nat) returns (shown: nat)
      modifies this`raw, this`rawSpent
      ensures shown == RawShown(size, old(View()))
      ensures View() == AttachRaw(size, old(View()))
    {
      shown := Min(Min(size, MAX_RAW_BYTES), raw);
      if shown < Min(size, MAX_RAW_BYTES) {
        rawSpent := true;
      }
      raw := raw - shown;
    }

    /** One packet: its octets, what is inside it, and the node that says so. */
    method WalkPacket(data: Octets, f: Frame, depth: nat, inflate: Inflate) returns (node: Node)
      requires depth < MAX_DEPTH && f.offset <= f.header.field.next <= f.body.end <= |data|
      modifies this
      ensures (node, View()) == Turn(f, data, old(View()), Expanding(depth, inflate))
      decreases MAX_DEPTH - depth, 1
    {
      var shown := AttachOctets(f.body.end - f.offset);
      var children, problem := WalkCompressed(f, depth, inflate);
      node := NodeOf(f, data, shown, children, problem);
    }

    /** One turn of the loop: the node, and what then lies ahead. */
    method WalkNext(data: Octets, f: Frame, depth: nat, inflate: Inflate) returns (node: Node)
      requires depth < MAX_DEPTH
      requires f.offset < |data| && ReadFrame(data, f.offset) == Some(f)
      modifies this
      ensures Ahead(data, f.offset, depth, old(View()), inflate)
              == if f.body.truncated then Outcome([node], View())
                 else Prefixed([node], Ahead(data, f.body.end, depth, View(), inflate))
      decreases MAX_DEPTH - depth, 2
    {
      AheadStep(data, f.offset, depth, View(), inflate);
      node := WalkPacket(data, f, depth, inflate);
    }

    method WalkPackets(data: Octets, depth: nat, inflate: Inflate)
      returns (nodes: seq<Node>, note: Option<Note>)
      requires depth < MAX_DEPTH
      modifies this
      ensures Outcome(nodes, View()) == WalkStream(data, depth, old(View()), inflate)
      ensures note == Packets(data, 0).note
      decreases MAX_DEPTH - depth, 3
    {
      StreamIsAhead(data, depth, View(), inflate);
      nodes := [];
      var offset := 0;
      ghost var whole := Ahead(data, 0, depth, View(), inflate);
      ghost var rest := whole;
      assert [] + rest.nodes == rest.nodes;
      while offset < |data|
        invariant offset <= |data|
        invariant Packets(data, offset).note == Packets(data, 0).note
        invariant rest == Ahead(data, offset, depth, View(), inflate)
        invariant whole == Prefixed(nodes, rest)
        decreases |data| - offset
      {
        var frame := ReadFraming(data, offset);
        if frame.None? {
          note := Some(if offset == 0 then NotOpenPgp else StoppedAt(offset));
          assert rest == Outcome([], View());
          assert nodes + [] == nodes;
          return;
        }
        NoteStep(data, offset);
        var node := WalkNext(data, frame.value, depth, inflate);
        if frame.value.body.truncated {
          return nodes + [node], Some(EndsInside(offset));
        }
        ghost var more := Ahead(data, frame.value.body.end, depth, View(), inflate);
        assert rest == Prefixed([node], more);
        PrefixedStep(nodes, node, more);
        nodes, rest := nodes + [node], more;
        offset := frame.value.body.end;
      }
      assert nodes + [] == nodes;
      note := None;
    }

    /** The container's children, or why it was not opened. */
    method WalkCompressed(f: Frame, depth: nat, inflate: Inflate)
      returns (children: seq<Node>, problem: Option<Problem>)
      requires depth < MAX_DEPTH
      modifies this
      ensures Expansion(children, problem, View()) == Expand(f, depth, old(View()), inflate)
      decreases MAX_DEPTH - depth, 0
    {
      if f.header.tag != COMPRESSED_DATA {
        return [], None;
      }
      var stream := inflate(f.header, f.body.octets);
      if stream.BadContainer? {
        return [], Some(NotAContainer);
      }
      if depth + 1 >= MAX_DEPTH {
        return [], Some(TooDeep);
      }
      if stream.Unopenable? {
        return [], Some(CannotDecompress);
      }
      var inner := Readable(stream.octets, decompressed);
      if stream.fails && inner == [] {
        return [], Some(CannotDecompress);
      }
      children, problem := WalkInside(f, depth, inflate);
    }

    /** A container that opens, walked on what the budget allows of it. */
    method WalkInside(f: Frame, depth: nat, inflate: Inflate)
      returns (children: seq<Node>, problem: Option<Problem>)
      requires depth < MAX_DEPTH && Opens(f, depth, View(), inflate)
      modifies this
      ensures Expansion(children, problem, View()) == Expand(f, depth, old(View()), inflate)
      decreases MAX_DEPTH - depth - 1, 4
    {
      var inner, capped := ReadWithin(f, inflate);
      decompressed := decompressed - |inner|;
      assert View() == Charge(old(View()), |inner|);
      var note;
      children, note := WalkPackets(inner, depth + 1, inflate);
      problem := InnerProblem(capped, note);
    }

    /** What of a container the budget allows, and whether there was more. */
    method ReadWithin(f: Frame, inflate: Inflate) returns (inner: Octets, capped: bool)
      requires inflate(f.header, f.body.octets).Inflating?
      ensures inner == Contents(f, View(), inflate)
      ensures InnerProblem(capped, Packets(inner, 0).note) == ProblemInside(f, View(), inflate)
    {
      inner := Readable(inflate(f.header, f.body.octets).octets, decompressed);
      capped := |inner| > decompressed;
      if capped {
        inner := inner[..decompressed];
      }
    }
  }
}
