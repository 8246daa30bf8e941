/** The live transaction graph of the financial-crime panel: fifteen seed
    nodes and twenty seed links, a stream that appends one node and one link
    per tick until the graph holds more than fifty nodes, the anomaly score
    recomputed after every change, and the drag handlers that pin a node. */
module FinancialGraph {
  import opened JsLib

  const SeedNodeCount: nat := 15
  const SeedLinkCount: nat := 20
  /** The stream stops once the node count is above this. */
  const NodeCap: nat := 50
  /** Groups are drawn from `floor(random * 3)`. */
  const GroupCount: nat := 3
  const CanvasHeight: real := 450.0
  /** `alphaTarget` while a drag gesture holds the simulation warm. */
  const DragAlphaTarget: real := 0.3

  /** A graph node. Its id, group and label never change; its position is
      written by the layout and its pin (`fx`, `fy`) by the drag handlers. */
  class Node {
    const id: nat
    const group: nat
    const suspicious: bool
    var x: real
    var y: real
    var fx: Option<real>
    var fy: Option<real>

    constructor (id: nat, group: nat, suspicious: bool, x: real, y: real)
      ensures this.id == id && this.group == group && this.suspicious == suspicious
      ensures this.x == x && this.y == y && fx == None && fy == None
    {
      this.id := id;
      this.group := group;
      this.suspicious := suspicious;
      this.x := x;
      this.y := y;
      fx := None;
      fy := None;
    }
  }

  /** A link between two node ids. */
  datatype Link = Link(source: nat, target: nat)

  /** The random draws for one seed node: its group, its label and its offset
      from the canvas centre, each coordinate in [-25, 25). */
  datatype SeedNode = SeedNode(group: nat, suspicious: bool, jitterX: real, jitterY: real)

  // ---------------------------------------------------------------------------
  // Anomaly score

  /** How many of `nodes` are labelled suspicious. */
  function SuspiciousCount(nodes: seq<Node>): (k: nat)
    ensures k <= |nodes|
    ensures k == 0 <==> forall i :: 0 <= i < |nodes| ==> !nodes[i].suspicious
    ensures k == |nodes| <==> forall i :: 0 <= i < |nodes| ==> nodes[i].suspicious
  {
    if nodes == [] then 0
    else SuspiciousCount(nodes[..|nodes| - 1]) + (if nodes[|nodes| - 1].suspicious then 1 else 0)
  }

  predicate IsSuspicious(n: Node) {
    n.suspicious
  }

  /** The count is the length of `nodes.filter(n => n.suspicious)`. */
  lemma {:induction false} SuspiciousCountIsFilter(nodes: seq<Node>)
    ensures SuspiciousCount(nodes) == |Filter(nodes, IsSuspicious)|
  {
    if nodes != [] {
      var front, last := nodes[..|nodes| - 1], nodes[|nodes| - 1];
      assert nodes == front + [last];
      SuspiciousCountIsFilter(front);
      FilterConcat(front, [last], IsSuspicious);
      assert [last][1..] == [];
    }
  }

  /** `Math.round(100 * part / total)` on exact rationals: the integer nearest
      to the percentage, halves rounded up. */
  function RoundedPercent(part: nat, total: nat): (r: nat)
    requires 0 < total && part <= total
    ensures r <= 100
    ensures 2 * r * total <= 200 * part + total < 2 * (r + 1) * total
  {
    RoundingBounds(part, total);
    (200 * part + total) / (2 * total)
  }

  lemma RoundingBounds(part: nat, total: nat)
    requires 0 < total && part <= total
    ensures var q := (200 * part + total) / (2 * total);
            q <= 100 && 2 * q * total <= 200 * part + total < 2 * (q + 1) * total
  {
    var a, b := 200 * part + total, 2 * total;
    var q := a / b;
    assert a == q * b + a % b && 0 <= a % b < b;
    MulAssoc(q, total);
    MulAssoc(q + 1, total);
    assert (q + 1) * b == q * b + b;
    if q > 100 {
      MulMono(101, q, b);
      assert false;
    }
  }

  lemma MulAssoc(q: nat, t: nat)
    ensures 2 * q * t == q * (2 * t)
  {
  }

  /** The anomaly score of a non-empty node list. */
  function Score(nodes: seq<Node>): (r: nat)
    requires |nodes| > 0
    ensures r <= 100
  {
    RoundedPercent(SuspiciousCount(nodes), |nodes|)
  }

  /** A rounded percentage is 0 exactly when the part is 0, as long as a
      part of one is worth at least half a percent. */
  lemma PercentZeroIff(part: nat, total: nat)
    requires 0 < total <= 200 && part <= total
    ensures RoundedPercent(part, total) == 0 <==> part == 0
  {
    var r := RoundedPercent(part, total);
    if part == 0 && r >= 1 {
      MulMono(2, 2 * r, total);
      assert false;
    }
    if part > 0 && r == 0 {
      assert false;
    }
  }

  /** A rounded percentage is 100 exactly when the part is the whole, as long
      as a part one short of the whole stays below 99.5 percent. */
  lemma PercentHundredIff(part: nat, total: nat)
    requires 0 < total < 200 && part <= total
    ensures RoundedPercent(part, total) == 100 <==> part == total
  {
    var r := RoundedPercent(part, total);
    if part == total && r < 100 {
      MulMono(2 * (r + 1), 200, total);
      assert false;
    }
    if part < total && r == 100 {
      assert false;
    }
  }

  /** The score is 0 exactly when no node is suspicious. */
  lemma ScoreZeroIff(nodes: seq<Node>)
    requires 0 < |nodes| <= 200
    ensures Score(nodes) == 0 <==> forall i :: 0 <= i < |nodes| ==> !nodes[i].suspicious
  {
    PercentZeroIff(SuspiciousCount(nodes), |nodes|);
  }

  /** The score is 100 exactly when every node is suspicious. */
  lemma ScoreHundredIff(nodes: seq<Node>)
    requires 0 < |nodes| < 200
    ensures Score(nodes) == 100 <==> forall i :: 0 <= i < |nodes| ==> nodes[i].suspicious
  {
    PercentHundredIff(SuspiciousCount(nodes), |nodes|);
  }

  lemma MulMono(a: nat, b: nat, c: nat)
    requires a <= b
    ensures a * c <= b * c
  {
  }

  // ---------------------------------------------------------------------------
  // The graph

  /** The nodes and links of the live graph and the panel state derived from
      them. */
  class TransactionGraph {
    /** The centre of the canvas, where streamed nodes spawn. */
    const centerX: real
    const centerY: real
    var nodes: seq<Node>
    var links: seq<Link>
    /** The "Nodes:" counter and the "Network Risk" score shown in the panel. */
    var nodeCount: nat
    var anomalyScore: nat
    /** The layout's `alphaTarget`, raised while a node is dragged. */
    var alphaTarget: real

    /** Every node sits at the index equal to its id, every link joins two
        existing nodes, each streamed link points from its new node to an
        older one, and the counters agree with the lists. */
    ghost predicate Valid()
      reads this
    {
      && SeedNodeCount <= |nodes| <= NodeCap + 1
      && (forall i :: 0 <= i < |nodes| ==> nodes[i].id == i && nodes[i].group < GroupCount)
      && |links| == SeedLinkCount + (|nodes| - SeedNodeCount)
      && (forall k :: 0 <= k < |links| ==> links[k].source < |nodes| && links[k].target < |nodes|)
      && (forall k :: SeedLinkCount <= k < |links| ==>
            links[k].source == SeedNodeCount + (k - SeedLinkCount) && links[k].target < links[k].source)
      && nodeCount == |nodes|
      && anomalyScore == Score(nodes)
    }

    /** The mount effect: fifteen seed nodes with ids 0..14 scattered around
        the centre, twenty seed links between them, and the first score. */
    constructor (width: real, seed: seq<SeedNode>, seedLinks: seq<Link>)
      requires |seed| == SeedNodeCount && |seedLinks| == SeedLinkCount
      requires forall i :: 0 <= i < |seed| ==> seed[i].group < GroupCount
    requires forall i :: 0 <= i < |seed| ==>
               -25.0 <= seed[i].jitterX < 25.0 && -25.0 <= seed[i].jitterY < 25.0
      requires forall k :: 0 <= k < |seedLinks| ==>
                 seedLinks[k].source < SeedNodeCount && seedLinks[k].target < SeedNodeCount
      ensures Valid()
      ensures centerX == width / 2.0 && centerY == CanvasHeight / 2.0
      ensures |nodes| == SeedNodeCount && links == seedLinks && alphaTarget == 0.0
      ensures forall i :: 0 <= i < |nodes| ==>
                && fresh(nodes[i])
                && nodes[i].group == seed[i].group && nodes[i].suspicious == seed[i].suspicious
                && nodes[i].x == centerX + seed[i].jitterX && nodes[i].y == centerY + seed[i].jitterY
                && nodes[i].fx == None && nodes[i].fy == None
    ensures forall i :: 0 <= i < |nodes| ==>
              centerX - 25.0 <= nodes[i].x < centerX + 25.0 && centerY - 25.0 <= nodes[i].y < centerY + 25.0
    {
      centerX := width / 2.0;
      centerY := CanvasHeight / 2.0;
      var built: seq<Node> := [];
      for i := 0 to |seed|
        invariant |built| == i
        invariant forall j :: 0 <= j < i ==>
                    && fresh(built[j])
                    && built[j].id == j && built[j].group == seed[j].group
                    && built[j].suspicious == seed[j].suspicious
                    && built[j].x == width / 2.0 + seed[j].jitterX
                    && built[j].y == CanvasHeight / 2.0 + seed[j].jitterY
                    && built[j].fx == None && built[j].fy == None
      {
        var n := new Node(i, seed[i].group, seed[i].suspicious,
                          width / 2.0 + seed[i].jitterX, CanvasHeight / 2.0 + seed[i].jitterY);
        built := built + [n];
      }
      nodes := built;
      links := seedLinks;
      nodeCount := |built|;
      anomalyScore := Score(built);
      alphaTarget := 0.0;
    }

    /** One firing of the stream timer. Above the cap it does nothing;
        otherwise it appends a node whose id is the current node count, links
        it to the older node at index `target`, and refreshes the counters. */
    method Tick(suspicious: bool, group: nat, target: nat)
      requires Valid()
      requires group < GroupCount && target < |nodes|
      modifies this
      ensures Valid()
      ensures alphaTarget == old(alphaTarget)
      ensures old(|nodes|) > NodeCap ==>
                nodes == old(nodes) && links == old(links)
                && nodeCount == old(nodeCount) && anomalyScore == old(anomalyScore)
      ensures old(|nodes|) <= NodeCap ==>
                && |nodes| == old(|nodes|) + 1 && nodes[..old(|nodes|)] == old(nodes)
                && fresh(nodes[old(|nodes|)])
                && nodes[old(|nodes|)].id == old(|nodes|)
                && nodes[old(|nodes|)].group == group
                && nodes[old(|nodes|)].suspicious == suspicious
                && nodes[old(|nodes|)].x == centerX && nodes[old(|nodes|)].y == centerY
                && nodes[old(|nodes|)].fx == None && nodes[old(|nodes|)].fy == None
                && links == old(links) + [Link(old(|nodes|), target)]
                && nodeCount == old(|nodes|) + 1
                && anomalyScore == Score(nodes)
    {
      if |nodes| > NodeCap {
        return;
      }
      var newId := |nodes|;
      var n := new Node(newId, group, suspicious, centerX, centerY);
      nodes := nodes + [n];
      links := links + [Link(newId, target)];
      nodeCount := |nodes|;
      anomalyScore := Score(nodes);
    }

    /** Drag start: re-warm the layout unless another gesture already did, and
        pin the node where it stands. */
    method DragStart(d: Node, gestureActive: bool)
      modifies this`alphaTarget, d`fx, d`fy
      ensures alphaTarget == (if gestureActive then old(alphaTarget) else DragAlphaTarget)
      ensures d.fx == Some(d.x) && d.fy == Some(d.y)
    {
      if !gestureActive {
        alphaTarget := DragAlphaTarget;
      }
      d.fx := Some(d.x);
      d.fy := Some(d.y);
    }

    /** Drag: move the pin to the pointer. */
    method DragMove(d: Node, pointerX: real, pointerY: real)
      modifies d`fx, d`fy
      ensures d.fx == Some(pointerX) && d.fy == Some(pointerY)
    {
      d.fx := Some(pointerX);
      d.fy := Some(pointerY);
    }

    /** Drag end: let the layout cool unless another gesture is active, and
        release the pin. */
    method DragEnd(d: Node, gestureActive: bool)
      modifies this`alphaTarget, d`fx, d`fy
      ensures alphaTarget == (if gestureActive then old(alphaTarget) else 0.0)
      ensures d.fx == None && d.fy == None
    {
      if !gestureActive {
        alphaTarget := 0.0;
      }
      d.fx := None;
      d.fy := None;
    }
  }

  /** Node ids are the node indices, so no two nodes share an id and a new
      node's id was never used before. */
  lemma IdsUnique(g: TransactionGraph, i: nat, j: nat)
    requires g.Valid() && i < |g.nodes| && j < |g.nodes|
    ensures g.nodes[i].id == g.nodes[j].id <==> i == j
  {
  }
}
