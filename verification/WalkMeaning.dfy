/**
 * What the packet walk reports, packet by packet and container by container: the
 * rules its outcome satisfies, and that no other outcome does.
 */
module WalkMeaning {
  import opened Common
  import opened Framing
  import opened Walk
  import opened WalkTheorems

  /** A compressed packet, not too deep, that gives octets, or gives none without failing. */
  predicate Yields(f: Frame, depth: nat, inflate: Inflate) {
    && f.header.tag == 8 && depth + 1 < 8
    && match inflate(f.header, f.body.octets)
       case Inflating(octets, fails) => octets != [] || !fails
       case BadContainer => false
       case Unopenable => false
  }

  /** The octets inside, as far as the budget goes. */
  function Inside(f: Frame, left: nat, inflate: Inflate): (inside: Octets)
    requires inflate(f.header, f.body.octets).Inflating?
    ensures |inside| <= left
  {
    var octets := inflate(f.header, f.body.octets).octets;
    if |octets| <= left then octets else octets[..left]
  }

  /** What is said of a packet that is there in full. */
  function Trouble(f: Frame, depth: nat, left: nat, inflate: Inflate): Option<Problem> {
    if f.header.tag != 8 then None
    else match inflate(f.header, f.body.octets)
      case BadContainer => Some(NotAContainer)
      case Unopenable => Some(if depth + 1 < 8 then CannotDecompress else TooDeep)
      case Inflating(octets, fails) =>
        if depth + 1 >= 8 then Some(TooDeep)
        else if octets == [] then if fails then Some(CannotDecompress) else None
        else if |octets| > left then Some(OverBudget)
        else match Packets(octets, 0).note
          case Some(note) => Some(Inner(note))
          case None => None
  }

  /** The budget once the node's raw octets are handed over. */
  function PaidRaw(n: Node, b: Budget): Budget
    requires |n.raw| <= b.raw
  {
    b.(raw := b.raw - |n.raw|, rawSpent := b.rawSpent || |n.raw| < Min(WireSize(n), 65_536))
  }

  /** The node says what the packet is, with as many of its octets as the caps leave. */
  predicate Reports(n: Node, f: Frame, data: Octets, depth: nat, b: Budget, inflate: Inflate)
    requires f.offset <= f.header.field.next <= f.body.end <= |data|
  {
    && Describes(n, f, data)
    && |n.raw| == Min(Min(WireSize(n), 65_536), b.raw)
    && n.problem == if f.body.truncated then Some(TruncatedBody) else Trouble(f, depth, b.decompressed, inflate)
  }

  /** `nodes` report the packets of `data`, at every level, and leave `after` of the budget `b`. */
  ghost predicate Explains(nodes: seq<Node>, data: Octets, depth: nat, b: Budget, after: Budget, inflate: Inflate)
    decreases nodes, 1
  {
    PacketsWithin(data, 0);
    ExplainsEach(nodes, Packets(data, 0).packets, data, depth, b, after, inflate)
  }

  /** One node for one packet, each leaving its budget to the next. */
  ghost predicate ExplainsEach(
    nodes: seq<Node>, frames: seq<Frame>, data: Octets, depth: nat, b: Budget, after: Budget, inflate: Inflate
  )
    requires Within(frames, data)
    decreases nodes, 0
  {
    if nodes == [] || frames == [] then nodes == [] && frames == [] && after == b
    else
      && Reports(nodes[0], frames[0], data, depth, b, inflate)
      && exists mid ::
           && ExplainsInside(nodes[0].children, frames[0], depth, PaidRaw(nodes[0], b), mid, inflate)
           && ExplainsEach(nodes[1..], frames[1..], data, depth, mid, after, inflate)
  }

  /** The children report what a container yields, which is charged; nothing else has any. */
  ghost predicate ExplainsInside(
    children: seq<Node>, f: Frame, depth: nat, b: Budget, after: Budget, inflate: Inflate
  )
    decreases children, 2
  {
    if Yields(f, depth, inflate) then
      var inside := Inside(f, b.decompressed, inflate);
      Explains(children, inside, depth + 1, b.(decompressed := b.decompressed - |inside|), after, inflate)
    else children == [] && after == b
  }

  // ----- the walk follows the rules

  ghost predicate Explained(expand: Expander, depth: nat, inflate: Inflate) {
    forall f, b ::
      && ExplainsInside(expand(f, b).children, f, depth, b, expand(f, b).budget, inflate)
      && expand(f, b).problem == Trouble(f, depth, b.decompressed, inflate)
  }

  lemma NodeReports(f: Frame, data: Octets, depth: nat, b: Budget, e: Expansion, inflate: Inflate)
    requires f.offset <= f.header.field.next <= f.body.end <= |data|
    requires e.problem == Trouble(f, depth, b.decompressed, inflate)
    ensures var n := Describe(f, data, b, e);
            && Reports(n, f, data, depth, b, inflate)
            && n.children == e.children && PaidRaw(n, b) == AttachRaw(f.body.end - f.offset, b)
  {
  }

  lemma ExplainsCons(
    n: Node, rest: seq<Node>, frames: seq<Frame>, data: Octets, depth: nat,
    b: Budget, mid: Budget, after: Budget, inflate: Inflate
  )
    requires Within(frames, data) && frames != [] && Reports(n, frames[0], data, depth, b, inflate)
    requires ExplainsInside(n.children, frames[0], depth, PaidRaw(n, b), mid, inflate)
    requires ExplainsEach(rest, frames[1..], data, depth, mid, after, inflate)
    ensures ExplainsEach([n] + rest, frames, data, depth, b, after, inflate)
  {
    assert ([n] + rest)[1..] == rest;
  }

  lemma {:induction false} FramesAreExplained(
    frames: seq<Frame>, data: Octets, depth: nat, b: Budget, expand: Expander, inflate: Inflate
  )
    requires Within(frames, data) && Explained(expand, depth, inflate)
    ensures var r := WalkFrames(frames, data, b, expand);
            ExplainsEach(r.nodes, frames, data, depth, b, r.budget, inflate)
  {
    if frames != [] {
      var f := frames[0];
      var b1 := AttachRaw(f.body.end - f.offset, b);
      var e := expand(f, b1);
      var rest := WalkFrames(frames[1..], data, e.budget, expand);
      FramesAreExplained(frames[1..], data, depth, e.budget, expand, inflate);
      assert b1.decompressed == b.decompressed;
      NodeReports(f, data, depth, b, e, inflate);
      ExplainsCons(Describe(f, data, b, e), rest.nodes, frames, data, depth, b, e.budget, rest.budget, inflate);
    }
  }

  lemma ContentsAreInside(f: Frame, depth: nat, b: Budget, inflate: Inflate)
    requires depth < MAX_DEPTH
    ensures Opens(f, depth, b, inflate) <==> Yields(f, depth, inflate)
    ensures Yields(f, depth, inflate) ==>
              && Contents(f, b, inflate) == Inside(f, b.decompressed, inflate)
              && ProblemInside(f, b, inflate) == Trouble(f, depth, b.decompressed, inflate)
    ensures !Yields(f, depth, inflate) ==> WhyShut(f, depth, inflate) == Trouble(f, depth, b.decompressed, inflate)
  {
    if inflate(f.header, f.body.octets).Inflating? {
      var octets := inflate(f.header, f.body.octets).octets;
      assert |octets| <= b.decompressed ==> octets[..|octets|] == octets;
      assert octets == [] ==> Packets(octets, 0).note.None?;
    }
  }

  lemma {:induction false} ExpandIsExplained(f: Frame, depth: nat, b: Budget, inflate: Inflate)
    requires depth < MAX_DEPTH
    ensures var e := Expand(f, depth, b, inflate);
            && ExplainsInside(e.children, f, depth, b, e.budget, inflate)
            && e.problem == Trouble(f, depth, b.decompressed, inflate)
    decreases MAX_DEPTH - depth, 0
  {
    ContentsAreInside(f, depth, b, inflate);
    if Yields(f, depth, inflate) {
      var kept := Contents(f, b, inflate);
      StreamIsExplained(kept, depth + 1, Charge(b, |kept|), inflate);
    }
  }

  /** At every depth the nodes of a walk report the packets of its stream and of all containers in it. */
  lemma {:induction false} StreamIsExplained(data: Octets, depth: nat, b: Budget, inflate: Inflate)
    requires depth < MAX_DEPTH
    ensures var r := WalkStream(data, depth, b, inflate);
            Explains(r.nodes, data, depth, b, r.budget, inflate)
    decreases MAX_DEPTH - depth, 1
  {
    var expand := Expanding(depth, inflate);
    forall f, b1
      ensures ExplainsInside(expand(f, b1).children, f, depth, b1, expand(f, b1).budget, inflate)
      ensures expand(f, b1).problem == Trouble(f, depth, b1.decompressed, inflate)
    {
      ExpandIsExplained(f, depth, b1, inflate);
    }
    PacketsWithin(data, 0);
    FramesAreExplained(Packets(data, 0).packets, data, depth, b, expand, inflate);
  }

  // ----- and nothing else does

  lemma OneReport(x: Node, y: Node, f: Frame, data: Octets, depth: nat, b: Budget, inflate: Inflate)
    requires f.offset <= f.header.field.next <= f.body.end <= |data|
    requires Reports(x, f, data, depth, b, inflate) && Reports(y, f, data, depth, b, inflate)
    ensures PaidRaw(x, b) == PaidRaw(y, b)
    ensures x.children == y.children ==> x == y
  {
  }

  lemma {:induction false} OneExplanationInside(
    xs: seq<Node>, ys: seq<Node>, f: Frame, depth: nat, b: Budget, xb: Budget, yb: Budget, inflate: Inflate
  )
    requires ExplainsInside(xs, f, depth, b, xb, inflate) && ExplainsInside(ys, f, depth, b, yb, inflate)
    ensures xs == ys && xb == yb
    decreases xs, 2
  {
    if Yields(f, depth, inflate) {
      var inside := Inside(f, b.decompressed, inflate);
      OneExplanation(xs, ys, inside, depth + 1, b.(decompressed := b.decompressed - |inside|), xb, yb, inflate);
    }
  }

  lemma {:induction false} OneExplanationEach(
    xs: seq<Node>, ys: seq<Node>, frames: seq<Frame>, data: Octets, depth: nat,
    b: Budget, xb: Budget, yb: Budget, inflate: Inflate
  )
    requires Within(frames, data)
    requires ExplainsEach(xs, frames, data, depth, b, xb, inflate)
    requires ExplainsEach(ys, frames, data, depth, b, yb, inflate)
    ensures xs == ys && xb == yb
    decreases xs, 0
  {
    if frames != [] {
      var x, y, f := xs[0], ys[0], frames[0];
      var xm :| ExplainsInside(x.children, f, depth, PaidRaw(x, b), xm, inflate)
                && ExplainsEach(xs[1..], frames[1..], data, depth, xm, xb, inflate);
      var ym :| ExplainsInside(y.children, f, depth, PaidRaw(y, b), ym, inflate)
                && ExplainsEach(ys[1..], frames[1..], data, depth, ym, yb, inflate);
      OneReport(x, y, f, data, depth, b, inflate);
      OneExplanationInside(x.children, y.children, f, depth, PaidRaw(x, b), xm, ym, inflate);
      OneExplanationEach(xs[1..], ys[1..], frames[1..], data, depth, xm, xb, yb, inflate);
      assert xs == [x] + xs[1..] && ys == [y] + ys[1..];
    }
  }

  lemma {:induction false} OneExplanation(
    xs: seq<Node>, ys: seq<Node>, data: Octets, depth: nat, b: Budget, xb: Budget, yb: Budget, inflate: Inflate
  )
    requires Explains(xs, data, depth, b, xb, inflate) && Explains(ys, data, depth, b, yb, inflate)
    ensures xs == ys && xb == yb
    decreases xs, 1
  {
    PacketsWithin(data, 0);
    OneExplanationEach(xs, ys, Packets(data, 0).packets, data, depth, b, xb, yb, inflate);
  }

  /** The rules have exactly one outcome for every input, decompressor and budget, and it is the walk's. */
  lemma WalkedExactly(data: Octets, depth: nat, b: Budget, inflate: Inflate, nodes: seq<Node>, after: Budget)
    requires depth < MAX_DEPTH
    ensures WalkStream(data, depth, b, inflate) == Outcome(nodes, after)
            <==> Explains(nodes, data, depth, b, after, inflate)
  {
    var r := WalkStream(data, depth, b, inflate);
    StreamIsExplained(data, depth, b, inflate);
    if Explains(nodes, data, depth, b, after, inflate) {
      OneExplanation(nodes, r.nodes, data, depth, b, after, r.budget, inflate);
    }
  }
}
