/** What every run of the packet walk guarantees, for any input and any decompressor. */
module WalkTheorems {
  import opened Common
  import opened Framing
  import opened Walk

  // ----- raw octets run out once and for all

  /** The nodes in the order the walk reaches them. */
  function Preorder(nodes: seq<Node>): seq<Node> {
    if nodes == [] then [] else [nodes[0]] + Preorder(nodes[0].children) + Preorder(nodes[1..])
  }

  /** Got fewer raw octets than the per-packet cap allows. */
  predicate Starved(n: Node) {
    |n.raw| < Min(WireSize(n), MAX_RAW_BYTES)
  }

  /** Once raw octets have run out, no later node carries any. */
  predicate Drains(nodes: seq<Node>, spent: bool) {
    nodes != [] ==>
      && (spent ==> nodes[0].raw == [])
      && Drains(nodes[1..], spent || Starved(nodes[0]))
  }

  function SpentAfter(nodes: seq<Node>, spent: bool): bool {
    if nodes == [] then spent else SpentAfter(nodes[1..], spent || Starved(nodes[0]))
  }

  lemma {:induction false} DrainsConcat(a: seq<Node>, b: seq<Node>, spent: bool)
    ensures Drains(a + b, spent) <==> Drains(a, spent) && Drains(b, SpentAfter(a, spent))
    ensures SpentAfter(a + b, spent) == SpentAfter(b, SpentAfter(a, spent))
    decreases |a|
  {
    if a == [] {
      assert a + b == b;
    } else {
      DrainsConcat(a[1..], b, spent || Starved(a[0]));
      assert (a + b)[1..] == a[1..] + b;
    }
  }

  /** The flag is set only when nothing is left. */
  predicate Honest(b: Budget) {
    b.rawSpent ==> b.raw == 0
  }

  /** The budget tells the truth about the nodes walked between `before` and `after`. */
  predicate Drained(nodes: seq<Node>, before: Budget, after: Budget) {
    && Honest(after)
    && Drains(Preorder(nodes), before.rawSpent)
    && after.rawSpent == SpentAfter(Preorder(nodes), before.rawSpent)
  }

  lemma NodeDrains(f: Frame, data: Octets, b: Budget, e: Expansion)
    requires f.offset <= f.header.field.next <= f.body.end <= |data|
    requires Honest(b)
    ensures var node, b1 := Describe(f, data, b, e), AttachRaw(f.body.end - f.offset, b);
            && Honest(b1)
            && (b.rawSpent ==> node.raw == [])
            && b1.rawSpent == (b.rawSpent || Starved(node))
  {
  }

  lemma DrainedCons(node: Node, rest: seq<Node>, b: Budget, b1: Budget, b2: Budget, b3: Budget)
    requires b.rawSpent ==> node.raw == []
    requires b1.rawSpent == (b.rawSpent || Starved(node))
    requires Drained(node.children, b1, b2) && Drained(rest, b2, b3)
    ensures Drained([node] + rest, b, b3)
  {
    var inner := Preorder(node.children);
    assert ([node] + rest)[1..] == rest;
    assert Preorder([node] + rest) == [node] + (inner + Preorder(rest));
    DrainsConcat(inner, Preorder(rest), b1.rawSpent);
    assert ([node] + (inner + Preorder(rest)))[1..] == inner + Preorder(rest);
  }

  ghost predicate DrainsInside(expand: Expander) {
    forall f, b :: Honest(b) ==> Drained(expand(f, b).children, b, expand(f, b).budget)
  }

  lemma {:induction false} FramesDrain(frames: seq<Frame>, data: Octets, b: Budget, expand: Expander)
    requires Within(frames, data) && Honest(b) && DrainsInside(expand)
    ensures var r := WalkFrames(frames, data, b, expand);
            Drained(r.nodes, b, r.budget)
  {
    if frames != [] {
      var f := frames[0];
      var b1 := AttachRaw(f.body.end - f.offset, b);
      var e := expand(f, b1);
      AttachIsHonest(f.body.end - f.offset, b);
      assert Drained(e.children, b1, e.budget);
      FramesDrain(frames[1..], data, e.budget, expand);
      DrainedFirst(f, data, b, e, WalkFrames(frames[1..], data, e.budget, expand));
    }
  }

  lemma DrainedFirst(f: Frame, data: Octets, b: Budget, e: Expansion, rest: Outcome)
    requires f.offset <= f.header.field.next <= f.body.end <= |data| && Honest(b)
    requires Drained(e.children, AttachRaw(f.body.end - f.offset, b), e.budget)
    requires Drained(rest.nodes, e.budget, rest.budget)
    ensures Drained([Describe(f, data, b, e)] + rest.nodes, b, rest.budget)
  {
    NodeDrains(f, data, b, e);
    DrainedCons(
      Describe(f, data, b, e), rest.nodes, b, AttachRaw(f.body.end - f.offset, b), e.budget, rest.budget);
  }

  lemma AttachIsHonest(size: nat, b: Budget)
    requires Honest(b)
    ensures Honest(AttachRaw(size, b))
  {
  }

  lemma {:induction false} ExpandDrains(f: Frame, depth: nat, b: Budget, inflate: Inflate)
    requires depth < MAX_DEPTH && Honest(b)
    ensures Drained(Expand(f, depth, b, inflate).children, b, Expand(f, depth, b, inflate).budget)
    decreases MAX_DEPTH - depth, 0
  {
    if Opens(f, depth, b, inflate) {
      var kept := Contents(f, b, inflate);
      StreamDrains(kept, depth + 1, Charge(b, |kept|), inflate);
    }
  }

  lemma {:induction false} StreamDrains(data: Octets, depth: nat, b: Budget, inflate: Inflate)
    requires depth < MAX_DEPTH && Honest(b)
    ensures Drained(WalkStream(data, depth, b, inflate).nodes, b, WalkStream(data, depth, b, inflate).budget)
    decreases MAX_DEPTH - depth, 1
  {
    var expand := Expanding(depth, inflate);
    forall f, b1 | Honest(b1)
      ensures Drained(expand(f, b1).children, b1, expand(f, b1).budget)
    {
      ExpandDrains(f, depth, b1, inflate);
    }
    PacketsWithin(data, 0);
    FramesDrain(Packets(data, 0).packets, data, b, expand);
  }

  lemma {:induction false} DrainsMeans(nodes: seq<Node>, spent: bool, k: nat)
    requires Drains(nodes, spent) && k < |nodes|
    requires spent || exists j :: 0 <= j < k && Starved(nodes[j])
    ensures nodes[k].raw == []
    decreases |nodes|
  {
    if k > 0 {
      if !spent && !Starved(nodes[0]) {
        var j :| 0 <= j < k && Starved(nodes[j]);
        assert Starved(nodes[1..][j - 1]);
      }
      DrainsMeans(nodes[1..], spent || Starved(nodes[0]), k - 1);
    }
  }

  // ----- nodes follow the packets

  /** The node describes the packet, and its raw octets are the packet's first ones. */
  predicate Describes(n: Node, f: Frame, data: Octets)
    requires f.offset <= f.header.field.next <= f.body.end <= |data|
  {
    && n.tag == f.header.tag && n.format == f.header.format
    && n.offset == f.offset
    && n.offset + n.headerLength == f.header.field.next
    && n.offset + WireSize(n) == f.body.end
    && |n.raw| <= WireSize(n) && n.raw == data[f.offset..f.offset + |n.raw|]
    && (n.rawTruncated <==> |n.raw| < WireSize(n))
    && (f.body.truncated ==> n.problem == Some(TruncatedBody))
  }

  lemma NodeDescribes(f: Frame, data: Octets, b: Budget, e: Expansion)
    requires f.offset <= f.header.field.next <= f.body.end <= |data|
    ensures Describes(Describe(f, data, b, e), f, data)
  {
  }

  /** One node for each packet, in order. */
  predicate Follow(nodes: seq<Node>, frames: seq<Frame>, data: Octets)
    requires Within(frames, data)
  {
    |nodes| == |frames| && forall k :: 0 <= k < |frames| ==> Describes(nodes[k], frames[k], data)
  }

  lemma {:induction false} NodesFollowPackets(frames: seq<Frame>, data: Octets, b: Budget, expand: Expander)
    requires Within(frames, data)
    ensures Follow(WalkFrames(frames, data, b, expand).nodes, frames, data)
  {
    if frames != [] {
      var e := expand(frames[0], AttachRaw(frames[0].body.end - frames[0].offset, b));
      NodesFollowPackets(frames[1..], data, e.budget, expand);
      FollowFirst(frames, data, b, e, WalkFrames(frames[1..], data, e.budget, expand).nodes);
    }
  }

  lemma FollowFirst(frames: seq<Frame>, data: Octets, b: Budget, e: Expansion, rest: seq<Node>)
    requires Within(frames, data) && frames != [] && Follow(rest, frames[1..], data)
    ensures Follow([Describe(frames[0], data, b, e)] + rest, frames, data)
  {
    NodeDescribes(frames[0], data, b, e);
    FollowCons(Describe(frames[0], data, b, e), rest, frames, data);
  }

  lemma FollowCons(node: Node, rest: seq<Node>, frames: seq<Frame>, data: Octets)
    requires Within(frames, data) && frames != []
    requires Describes(node, frames[0], data) && Follow(rest, frames[1..], data)
    ensures Follow([node] + rest, frames, data)
  {
  }

  /** Siblings follow each other without gap or overlap, at every level of nesting. */
  predicate Laid(nodes: seq<Node>, i: nat) {
    nodes != [] ==>
      && nodes[0].offset == i
      && Laid(nodes[0].children, 0)
      && Laid(nodes[1..], i + WireSize(nodes[0]))
  }

  lemma {:induction false} FramesAreLaid(
    frames: seq<Frame>, data: Octets, b: Budget, expand: Expander, i: nat, end: nat
  )
    requires Within(frames, data) && Tiles(frames, i, end)
    requires forall f, b1 :: Laid(expand(f, b1).children, 0)
    ensures Laid(WalkFrames(frames, data, b, expand).nodes, i)
  {
    if frames != [] {
      var f := frames[0];
      var e := expand(f, AttachRaw(f.body.end - f.offset, b));
      FramesAreLaid(frames[1..], data, e.budget, expand, f.body.end, end);
      LaidFirst(f, data, b, e, WalkFrames(frames[1..], data, e.budget, expand).nodes);
    }
  }

  lemma LaidFirst(f: Frame, data: Octets, b: Budget, e: Expansion, rest: seq<Node>)
    requires f.offset <= f.header.field.next <= f.body.end <= |data|
    requires Laid(e.children, 0) && Laid(rest, f.body.end)
    ensures Laid([Describe(f, data, b, e)] + rest, f.offset)
  {
    LaidCons(Describe(f, data, b, e), rest, f.offset);
  }

  lemma LaidCons(node: Node, rest: seq<Node>, i: nat)
    requires node.offset == i
    requires Laid(node.children, 0) && Laid(rest, i + WireSize(node))
    ensures Laid([node] + rest, i)
  {
    assert ([node] + rest)[1..] == rest;
  }

  lemma {:induction false} ExpandIsLaid(f: Frame, depth: nat, b: Budget, inflate: Inflate)
    requires depth < MAX_DEPTH
    ensures Laid(Expand(f, depth, b, inflate).children, 0)
    decreases MAX_DEPTH - depth, 0
  {
    if Opens(f, depth, b, inflate) {
      var kept := Contents(f, b, inflate);
      StreamIsLaid(kept, depth + 1, Charge(b, |kept|), inflate);
    }
  }

  lemma {:induction false} StreamIsLaid(data: Octets, depth: nat, b: Budget, inflate: Inflate)
    requires depth < MAX_DEPTH
    ensures Laid(WalkStream(data, depth, b, inflate).nodes, 0)
    decreases MAX_DEPTH - depth, 1
  {
    var expand := Expanding(depth, inflate);
    forall f, b1
      ensures Laid(expand(f, b1).children, 0)
    {
      ExpandIsLaid(f, depth, b1, inflate);
    }
    PacketsWithin(data, 0);
    var end := PacketsTile(data, 0);
    FramesAreLaid(Packets(data, 0).packets, data, b, expand, 0, end);
  }

  // ----- the whole document

  /**
   * For every input and every decompressor: what all containers together were
   * decompressed to plus the budget left is 64 MiB; the packets of all levels
   * together take no more octets than were read and decompressed, and there are
   * no more of them; they nest at most seven levels below the top; and raw octets
   * handed out plus raw budget left stay 4 MiB.
   */
  lemma WalkIsBounded(data: Octets, inflate: Inflate)
    ensures var r := WalkStream(data, 0, INITIAL_BUDGET, inflate);
            var total := OpenedInStream(data, 0, INITIAL_BUDGET, inflate);
            && total + r.budget.decompressed == MAX_BLOCK_SIZE
            && WireTotal(r.nodes) <= |data| + total
            && Count(r.nodes) <= |data| + total <= |data| + MAX_BLOCK_SIZE
            && Height(r.nodes) <= 1 + 7
            && RawTotal(r.nodes) + r.budget.raw == MAX_RAW_TOTAL
  {
    StreamIsAffordable(data, 0, INITIAL_BUDGET, inflate);
    StreamConserves(data, 0, INITIAL_BUDGET, inflate);
  }

  /** Once a packet went short of raw octets, every packet reached after it carries none. */
  lemma RawRunsOutForGood(data: Octets, inflate: Inflate, j: nat, k: nat)
    requires var all := Preorder(WalkStream(data, 0, INITIAL_BUDGET, inflate).nodes);
             j < k < |all| && Starved(all[j])
    ensures Preorder(WalkStream(data, 0, INITIAL_BUDGET, inflate).nodes)[k].raw == []
  {
    StreamDrains(data, 0, INITIAL_BUDGET, inflate);
    DrainsMeans(Preorder(WalkStream(data, 0, INITIAL_BUDGET, inflate).nodes), false, k);
  }

  /** The top-level nodes are the packets of the stream, one by one, and tile it at every level. */
  lemma WalkFollowsPackets(data: Octets, inflate: Inflate)
    ensures var nodes := WalkStream(data, 0, INITIAL_BUDGET, inflate).nodes;
            var frames := Packets(data, 0).packets;
            && |nodes| == |frames|
            && Laid(nodes, 0)
            && Within(frames, data)
            && forall k :: 0 <= k < |frames| ==> Describes(nodes[k], frames[k], data)
  {
    PacketsWithin(data, 0);
    NodesFollowPackets(Packets(data, 0).packets, data, INITIAL_BUDGET, Expanding(0, inflate));
    StreamIsLaid(data, 0, INITIAL_BUDGET, inflate);
  }
}
