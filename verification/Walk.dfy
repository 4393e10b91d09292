/**
 * The packet walk of `rust/src/inspect.rs`: every packet becomes a node, compressed
 * containers are opened and walked in turn, and three budgets bound the whole.
 * The decompressor is arbitrary.
 */
module Walk {
  import opened Common
  import opened Framing

  const MAX_BLOCK_SIZE: nat := 64 * 1024 * 1024
  const MAX_DEPTH: nat := 8
  const MAX_RAW_BYTES: nat := 64 * 1024
  const MAX_RAW_TOTAL: nat := 4 * 1024 * 1024
  const COMPRESSED_DATA: nat := 8

  datatype Budget = Budget(decompressed: nat, raw: nat, rawSpent: bool)

  const INITIAL_BUDGET: Budget := Budget(MAX_BLOCK_SIZE, MAX_RAW_TOTAL, false)

  /** What decompressing a container gives, from its header and body: octets, possibly ending in a failure. */
  datatype Inflated = BadContainer | Unopenable | Inflating(octets: Octets, fails: bool)

  type Inflate = (Header, Octets) -> Inflated

  datatype Problem =
    | TruncatedBody | NotAContainer | CannotDecompress | TooDeep | OverBudget | Inner(note: Note)

  datatype Node = Node(
    tag: nat,
    offset: nat,
    format: Format,
    headerLength: nat,
    bodyLength: nat,
    raw: Octets,
    rawTruncated: bool,
    children: seq<Node>,
    problem: Option<Problem>)

  datatype Outcome = Outcome(nodes: seq<Node>, budget: Budget)

  datatype Expansion = Expansion(children: seq<Node>, problem: Option<Problem>, budget: Budget)

  function RawShown(size: nat, b: Budget): nat {
    Min(Min(size, MAX_RAW_BYTES), b.raw)
  }

  function AttachRaw(size: nat, b: Budget): Budget {
    var shown := RawShown(size, b);
    b.(raw := b.raw - shown, rawSpent := b.rawSpent || shown < Min(size, MAX_RAW_BYTES))
  }

  /** At most one octet past the budget is read, to tell a full budget from an exceeded one. */
  function Readable(octets: Octets, limit: nat): Octets {
    octets[..Min(|octets|, limit + 1)]
  }

  /** What of it is walked: never more than the budget. */
  function Kept(octets: Octets, limit: nat): (kept: Octets)
    ensures |kept| <= limit
  {
    var inner := Readable(octets, limit);
    inner[..Min(|inner|, limit)]
  }

  function Describe(f: Frame, data: Octets, b: Budget, e: Expansion): Node
    requires f.offset <= f.header.field.next <= f.body.end <= |data|
  {
    NodeOf(f, data, RawShown(f.body.end - f.offset, b), e.children, e.problem)
  }

  function NodeOf(f: Frame, data: Octets, shown: nat, children: seq<Node>, problem: Option<Problem>): Node
    requires f.offset <= f.header.field.next <= f.body.end <= |data| && shown <= f.body.end - f.offset
  {
    Node(
      f.header.tag,
      f.offset,
      f.header.format,
      f.header.field.next - f.offset,
      f.body.end - f.header.field.next,
      data[f.offset..f.offset + shown],
      shown < f.body.end - f.offset,
      children,
      if f.body.truncated then Some(TruncatedBody) else problem)
  }

  /** Frames that lie in `data`. */
  predicate Within(frames: seq<Frame>, data: Octets) {
    forall f :: f in frames ==> f.offset < f.header.field.next <= f.body.end <= |data|
  }

  lemma {:induction false} PacketsWithin(data: Octets, i: nat)
    requires i <= |data|
    ensures Within(Packets(data, i).packets, data)
    ensures |Packets(data, i).packets| <= |data| - i
    decreases |data| - i
  {
    var frame := ReadFrame(data, i);
    if i < |data| && frame.Some? && !frame.value.body.truncated {
      PacketsWithin(data, frame.value.body.end);
    }
  }

  /** How a packet and the budget at hand become what is inside the packet. */
  type Expander = (Frame, Budget) -> Expansion

  /** The nodes of some packets, each expanded before the next one is looked at. */
  function WalkFrames(frames: seq<Frame>, data: Octets, b: Budget, expand: Expander): Outcome
    requires Within(frames, data)
  {
    if frames == [] then Outcome([], b)
    else
      var f := frames[0];
      var e := expand(f, AttachRaw(f.body.end - f.offset, b));
      var rest := WalkFrames(frames[1..], data, e.budget, expand);
      Outcome([Describe(f, data, b, e)] + rest.nodes, rest.budget)
  }

  /** Walk a whole stream. */
  function WalkStream(data: Octets, depth: nat, b: Budget, inflate: Inflate): Outcome
    requires depth < MAX_DEPTH
    decreases MAX_DEPTH - depth, 2
  {
    PacketsWithin(data, 0);
    WalkFrames(Packets(data, 0).packets, data, b, Expanding(depth, inflate))
  }

  function Expanding(depth: nat, inflate: Inflate): Expander
    requires depth < MAX_DEPTH
    decreases MAX_DEPTH - depth, 1
  {
    (f: Frame, b: Budget) => Expand(f, depth, b, inflate)
  }

  /** The container is opened and walked. */
  predicate Opens(f: Frame, depth: nat, b: Budget, inflate: Inflate) {
    && f.header.tag == COMPRESSED_DATA && depth + 1 < MAX_DEPTH
    && var stream := inflate(f.header, f.body.octets);
    && stream.Inflating?
    && (stream.fails ==> Readable(stream.octets, b.decompressed) != [])
  }

  /** Why a packet that is not opened has nothing inside: nothing to say unless it is a container. */
  function WhyShut(f: Frame, depth: nat, inflate: Inflate): Option<Problem> {
    if f.header.tag != COMPRESSED_DATA then None
    else if inflate(f.header, f.body.octets).BadContainer? then Some(NotAContainer)
    else if depth + 1 >= MAX_DEPTH then Some(TooDeep)
    else Some(CannotDecompress)
  }

  /** What of the container is walked. */
  function Contents(f: Frame, b: Budget, inflate: Inflate): (kept: Octets)
    requires inflate(f.header, f.body.octets).Inflating?
    ensures |kept| <= b.decompressed
  {
    Kept(inflate(f.header, f.body.octets).octets, b.decompressed)
  }

  function Charge(b: Budget, octets: nat): Budget
    requires octets <= b.decompressed
  {
    b.(decompressed := b.decompressed - octets)
  }

  function ProblemInside(f: Frame, b: Budget, inflate: Inflate): Option<Problem>
    requires inflate(f.header, f.body.octets).Inflating?
  {
    var octets := inflate(f.header, f.body.octets).octets;
    InnerProblem(|Readable(octets, b.decompressed)| > b.decompressed, Packets(Contents(f, b, inflate), 0).note)
  }

  /** Open and walk a compressed container; any other packet has nothing inside. */
  function Expand(f: Frame, depth: nat, b: Budget, inflate: Inflate): Expansion
    requires depth < MAX_DEPTH
    decreases MAX_DEPTH - depth, 0
  {
    if Opens(f, depth, b, inflate) then
      var kept := Contents(f, b, inflate);
      var walked := WalkStream(kept, depth + 1, Charge(b, |kept|), inflate);
      Expansion(walked.nodes, ProblemInside(f, b, inflate), walked.budget)
    else Expansion([], WhyShut(f, depth, inflate), b)
  }

  function InnerProblem(capped: bool, note: Option<Note>): Option<Problem> {
    if capped then Some(OverBudget)
    else if note.Some? then Some(Inner(note.value)) else None
  }

  // ----- what the walk spends

  function Count(nodes: seq<Node>): nat {
    if nodes == [] then 0 else 1 + Count(nodes[0].children) + Count(nodes[1..])
  }

  /** Levels of nodes. */
  function Height(nodes: seq<Node>): nat {
    if nodes == [] then 0 else Max(1 + Height(nodes[0].children), Height(nodes[1..]))
  }

  function RawTotal(nodes: seq<Node>): nat {
    if nodes == [] then 0 else |nodes[0].raw| + RawTotal(nodes[0].children) + RawTotal(nodes[1..])
  }

  function WireSize(n: Node): nat {
    n.headerLength + n.bodyLength
  }

  /** Octets the packets of all levels take, chunk headers included. */
  function WireTotal(nodes: seq<Node>): nat {
    if nodes == [] then 0 else WireSize(nodes[0]) + WireTotal(nodes[0].children) + WireTotal(nodes[1..])
  }

  /**
   * Every packet of every level is paid for by octets of the input (`size` of
   * them) or of decompression budget, and raw octets come out of theirs.
   */
  predicate Affordable(nodes: seq<Node>, before: Budget, after: Budget, size: nat, levels: nat) {
    && after.decompressed <= before.decompressed
    && Count(nodes) + after.decompressed <= size + before.decompressed
    && WireTotal(nodes) + after.decompressed <= size + before.decompressed
    && Height(nodes) <= levels
    && RawTotal(nodes) + after.raw == before.raw
  }

  lemma AffordableCons(node: Node, rest: seq<Node>, b0: Budget, b1: Budget, b2: Budget, b3: Budget, size: nat, levels: nat)
    requires 0 < levels && 0 < WireSize(node)
    requires Affordable(node.children, b1, b2, 0, levels - 1)
    requires b1.decompressed == b0.decompressed && b1.raw + |node.raw| == b0.raw
    requires Affordable(rest, b2, b3, size, levels)
    ensures Affordable([node] + rest, b0, b3, WireSize(node) + size, levels)
  {
    assert ([node] + rest)[1..] == rest;
  }

  lemma NodeCosts(f: Frame, data: Octets, b: Budget, e: Expansion)
    requires f.offset <= f.header.field.next <= f.body.end <= |data|
    ensures var b1 := AttachRaw(f.body.end - f.offset, b);
            var node := Describe(f, data, b, e);
            && b1.decompressed == b.decompressed && b1.raw + |node.raw| == b.raw
            && WireSize(node) == f.body.end - f.offset && node.children == e.children
  {
  }

  lemma AffordableFirst(
    f: Frame, data: Octets, b: Budget, e: Expansion, rest: Outcome, size: nat, levels: nat
  )
    requires f.offset < f.header.field.next <= f.body.end <= |data| && 0 < levels
    requires Affordable(e.children, AttachRaw(f.body.end - f.offset, b), e.budget, 0, levels - 1)
    requires Affordable(rest.nodes, e.budget, rest.budget, size, levels)
    ensures Affordable([Describe(f, data, b, e)] + rest.nodes, b, rest.budget, f.body.end - f.offset + size, levels)
  {
    NodeCosts(f, data, b, e);
    AffordableCons(
      Describe(f, data, b, e), rest.nodes, b, AttachRaw(f.body.end - f.offset, b), e.budget, rest.budget,
      size, levels);
  }

  lemma {:induction false} TilesForward(frames: seq<Frame>, i: nat, end: nat)
    requires Tiles(frames, i, end)
    ensures i <= end
  {
    if frames != [] {
      TilesForward(frames[1..], frames[0].body.end, end);
    }
  }

  ghost predicate AffordableInside(expand: Expander, levels: nat) {
    forall f, b :: Affordable(expand(f, b).children, b, expand(f, b).budget, 0, levels)
  }

  lemma {:induction false} FramesAreAffordable(
    frames: seq<Frame>, data: Octets, b: Budget, expand: Expander, levels: nat, i: nat, end: nat
  )
    requires Within(frames, data) && Tiles(frames, i, end) && AffordableInside(expand, levels)
    ensures i <= end
    ensures var r := WalkFrames(frames, data, b, expand);
            Affordable(r.nodes, b, r.budget, end - i, levels + 1)
  {
    TilesForward(frames, i, end);
    if frames != [] {
      var f := frames[0];
      var e := expand(f, AttachRaw(f.body.end - f.offset, b));
      FramesAreAffordable(frames[1..], data, e.budget, expand, levels, f.body.end, end);
      AffordableFirst(
        f, data, b, e, WalkFrames(frames[1..], data, e.budget, expand), end - f.body.end, levels + 1);
    }
  }

  lemma {:induction false} ExpandIsAffordable(f: Frame, depth: nat, b: Budget, inflate: Inflate)
    requires depth < MAX_DEPTH
    ensures var e := Expand(f, depth, b, inflate);
            Affordable(e.children, b, e.budget, 0, MAX_DEPTH - depth - 1)
    decreases MAX_DEPTH - depth, 0
  {
    if Opens(f, depth, b, inflate) {
      var kept := Contents(f, b, inflate);
      var walked := WalkStream(kept, depth + 1, Charge(b, |kept|), inflate);
      StreamIsAffordable(kept, depth + 1, Charge(b, |kept|), inflate);
      ChargedAffordably(walked, b, |kept|, MAX_DEPTH - depth - 1);
    }
  }

  /** What a charge paid for needs no input. */
  lemma ChargedAffordably(r: Outcome, b: Budget, size: nat, levels: nat)
    requires size <= b.decompressed && Affordable(r.nodes, Charge(b, size), r.budget, size, levels)
    ensures Affordable(r.nodes, b, r.budget, 0, levels)
  {
  }

  lemma {:induction false} StreamIsAffordable(data: Octets, depth: nat, b: Budget, inflate: Inflate)
    requires depth < MAX_DEPTH
    ensures var r := WalkStream(data, depth, b, inflate);
            Affordable(r.nodes, b, r.budget, |data|, MAX_DEPTH - depth)
    decreases MAX_DEPTH - depth, 1
  {
    var expand := Expanding(depth, inflate);
    forall f, b1
      ensures Affordable(expand(f, b1).children, b1, expand(f, b1).budget, 0, MAX_DEPTH - depth - 1)
    {
      ExpandIsAffordable(f, depth, b1, inflate);
    }
    PacketsWithin(data, 0);
    var end := PacketsTile(data, 0);
    FramesAreAffordable(Packets(data, 0).packets, data, b, expand, MAX_DEPTH - depth - 1, 0, end);
  }

  // ----- what was decompressed

  /** The sum over some packets of what `inside` says of each. */
  function SumInside(
    frames: seq<Frame>, b: Budget, expand: Expander, inside: (Frame, Budget) -> nat
  ): nat
    requires forall f: Frame :: f in frames ==> f.offset <= f.body.end
  {
    if frames == [] then 0
    else
      var b1 := AttachRaw(frames[0].body.end - frames[0].offset, b);
      inside(frames[0], b1) + SumInside(frames[1..], expand(frames[0], b1).budget, expand, inside)
  }

  /** Octets all containers of a stream were decompressed to, at every level. */
  function OpenedInStream(data: Octets, depth: nat, b: Budget, inflate: Inflate): nat
    requires depth < MAX_DEPTH
    decreases MAX_DEPTH - depth, 2
  {
    PacketsWithin(data, 0);
    SumInside(Packets(data, 0).packets, b, Expanding(depth, inflate), Opening(depth, inflate))
  }

  function Opening(depth: nat, inflate: Inflate): (Frame, Budget) -> nat
    requires depth < MAX_DEPTH
    decreases MAX_DEPTH - depth, 1
  {
    (f: Frame, b: Budget) => OpenedInside(f, depth, b, inflate)
  }

  /** Octets one packet was decompressed to, and those of the containers inside it. */
  function OpenedInside(f: Frame, depth: nat, b: Budget, inflate: Inflate): nat
    requires depth < MAX_DEPTH
    decreases MAX_DEPTH - depth, 0
  {
    if Opens(f, depth, b, inflate) then
      var kept := Contents(f, b, inflate);
      |kept| + OpenedInStream(kept, depth + 1, Charge(b, |kept|), inflate)
    else 0
  }

  lemma {:induction false} FramesConserve(
    frames: seq<Frame>, data: Octets, b: Budget, expand: Expander, inside: (Frame, Budget) -> nat
  )
    requires Within(frames, data)
    requires forall f, b1 :: inside(f, b1) + expand(f, b1).budget.decompressed == b1.decompressed
    ensures SumInside(frames, b, expand, inside) + WalkFrames(frames, data, b, expand).budget.decompressed
            == b.decompressed
  {
    if frames != [] {
      var b1 := AttachRaw(frames[0].body.end - frames[0].offset, b);
      assert inside(frames[0], b1) + expand(frames[0], b1).budget.decompressed == b1.decompressed;
      FramesConserve(frames[1..], data, expand(frames[0], b1).budget, expand, inside);
    }
  }

  lemma {:induction false} ExpandConserves(f: Frame, depth: nat, b: Budget, inflate: Inflate)
    requires depth < MAX_DEPTH
    ensures OpenedInside(f, depth, b, inflate) + Expand(f, depth, b, inflate).budget.decompressed == b.decompressed
    decreases MAX_DEPTH - depth, 0
  {
    if Opens(f, depth, b, inflate) {
      var kept := Contents(f, b, inflate);
      StreamConserves(kept, depth + 1, Charge(b, |kept|), inflate);
    }
  }

  /** What was decompressed plus the budget left is the budget there was. */
  lemma {:induction false} StreamConserves(data: Octets, depth: nat, b: Budget, inflate: Inflate)
    requires depth < MAX_DEPTH
    ensures OpenedInStream(data, depth, b, inflate)
            + WalkStream(data, depth, b, inflate).budget.decompressed == b.decompressed
    decreases MAX_DEPTH - depth, 1
  {
    var expand, inside := Expanding(depth, inflate), Opening(depth, inflate);
    forall f, b1
      ensures inside(f, b1) + expand(f, b1).budget.decompressed == b1.decompressed
    {
      ExpandConserves(f, depth, b1, inflate);
    }
    PacketsWithin(data, 0);
    FramesConserve(Packets(data, 0).packets, data, b, expand, inside);
  }
}
