/**
 * The summaries the tree viewer computes over a reasoning tree seen from
 * the root downwards: whether a subtree still holds an accepted leaf, the
 * range of scores in a subtree, the colour given to each step, and the
 * lists of flow nodes and edges (with the id-to-step table) it builds.
 */
module TreeView {
  import opened Strings

  /** What a node is: the root, or a reasoning step with its score and flags. */
  datatype Kind =
    | RootKind
    | StepKind(score: real, aborted: bool, improved: bool)

  /**
   * A node of the reasoning tree with the steps generated from it.
   * `id` stands for the node's identity; `improved` says whether the
   * step carries an improved step.
   */
  datatype Tree = Tree(id: nat, kind: Kind, children: seq<Tree>)

  /**
   * `step.score`, the same rule as `Steps.Score`: a root scores 0.0 and a
   * reasoning step scores what `Conversations.Score` reads from its score
   * message, which `StepKind.score` holds.
   */
  function Score(t: Tree): real {
    match t.kind
    case RootKind => 0.0
    case StepKind(score, _, _) => score
  }

  /** Every node below `t` is a reasoning step (only the top of a tree may be a root). */
  predicate StepsBelow(t: Tree)
    decreases t
  {
    forall i :: 0 <= i < |t.children| ==> t.children[i].kind.StepKind? && StepsBelow(t.children[i])
  }

  /** The nodes of the subtree in pre-order: the node, then each child's subtree in turn. */
  function Preorder(t: Tree): (r: seq<Tree>)
    ensures |r| >= 1 && r[0] == t
    ensures StepsBelow(t) ==> forall u :: u in r ==> StepsBelow(u)
    decreases t, |t.children| + 1
  {
    [t] + PreorderKids(t, |t.children|)
  }

  /** The pre-order listings of the first `k` children's subtrees, one after the other. */
  function PreorderKids(t: Tree, k: nat): (r: seq<Tree>)
    requires k <= |t.children|
    ensures StepsBelow(t) ==> forall u :: u in r ==> StepsBelow(u)
    decreases t, k
  {
    if k == 0 then [] else PreorderKids(t, k - 1) + Preorder(t.children[k - 1])
  }

  /** Every node of a child's subtree is a node of the tree. */
  lemma {:induction false} ChildSubtreeInPreorder(t: Tree, j: nat)
    requires j < |t.children|
    ensures forall u :: u in Preorder(t.children[j]) ==> u in Preorder(t)
  {
    ChildSubtreeInKids(t, |t.children|, j);
  }

  lemma {:induction false} ChildSubtreeInKids(t: Tree, k: nat, j: nat)
    requires j < k <= |t.children|
    ensures forall u :: u in Preorder(t.children[j]) ==> u in PreorderKids(t, k)
    decreases k
  {
    if j < k - 1 {
      ChildSubtreeInKids(t, k - 1, j);
    }
  }

  // ---------------------------------------------------------------------
  // has_accepted_leafs
  // ---------------------------------------------------------------------

  /**
   * `has_accepted_leafs` on a reasoning step: an aborted step is not
   * accepted; a leaf step that is not aborted is; an inner step that is
   * not aborted is accepted when one of its children is.
   */
  predicate HasAcceptedLeafs(t: Tree)
    requires t.kind.StepKind? && StepsBelow(t)
    ensures HasAcceptedLeafs(t) ==> !t.kind.aborted
    ensures |t.children| == 0 ==> (HasAcceptedLeafs(t) <==> !t.kind.aborted)
    decreases t
  {
    if |t.children| > 0 then
      if t.kind.aborted then false
      else exists i :: 0 <= i < |t.children| && HasAcceptedLeafs(t.children[i])
    else
      !t.kind.aborted
  }

  /**
   * A downward path of child indices from `t` that meets only steps that
   * were not aborted and ends at a leaf.
   */
  predicate AcceptedPath(t: Tree, path: seq<nat>)
    decreases |path|
  {
    && t.kind.StepKind?
    && !t.kind.aborted
    && if path == [] then |t.children| == 0
       else path[0] < |t.children| && AcceptedPath(t.children[path[0]], path[1..])
  }

  /** A path of non-aborted steps down to a leaf makes the step accepted. */
  lemma {:induction false} AcceptedPathIsAccepted(t: Tree, path: seq<nat>)
    requires t.kind.StepKind? && StepsBelow(t)
    requires AcceptedPath(t, path)
    ensures HasAcceptedLeafs(t)
    decreases |path|
  {
    if path != [] {
      AcceptedPathIsAccepted(t.children[path[0]], path[1..]);
    }
  }

  /** An accepted step has a path of non-aborted steps down to a leaf. */
  lemma {:induction false} AcceptedHasPath(t: Tree) returns (path: seq<nat>)
    requires t.kind.StepKind? && StepsBelow(t)
    requires HasAcceptedLeafs(t)
    ensures AcceptedPath(t, path)
    decreases t
  {
    if |t.children| == 0 {
      path := [];
    } else {
      var i :| 0 <= i < |t.children| && HasAcceptedLeafs(t.children[i]);
      var rest := AcceptedHasPath(t.children[i]);
      path := [i] + rest;
      assert path[1..] == rest;
    }
  }

  /**
   * A step is accepted exactly when a downward path of non-aborted steps
   * reaches a leaf; so an aborted step never is, and a leaf step is
   * accepted exactly when it was not aborted.
   */
  lemma AcceptedIffPath(t: Tree)
    requires t.kind.StepKind? && StepsBelow(t)
    ensures HasAcceptedLeafs(t) ==> exists path :: AcceptedPath(t, path)
    ensures (exists path :: AcceptedPath(t, path)) ==> HasAcceptedLeafs(t)
    ensures t.kind.aborted ==> !HasAcceptedLeafs(t)
    ensures |t.children| == 0 ==> (HasAcceptedLeafs(t) <==> !t.kind.aborted)
  {
    if HasAcceptedLeafs(t) {
      var path := AcceptedHasPath(t);
      assert AcceptedPath(t, path);
    }
    forall path | AcceptedPath(t, path)
      ensures HasAcceptedLeafs(t)
    {
      AcceptedPathIsAccepted(t, path);
    }
  }

  // ---------------------------------------------------------------------
  // get_min_max_scores
  // ---------------------------------------------------------------------

  function Min(a: real, b: real): real {
    if a <= b then a else b
  }

  function Max(a: real, b: real): real {
    if a >= b then a else b
  }

  /**
   * `get_min_max_scores`: the least and the greatest score of the nodes
   * of the subtree, the node itself included.
   */
  function MinMaxScores(t: Tree): (r: (real, real))
    ensures r.0 <= r.1
    ensures forall u :: u in Preorder(t) ==> r.0 <= Score(u) <= r.1
    ensures exists u :: u in Preorder(t) && Score(u) == r.0
    ensures exists u :: u in Preorder(t) && Score(u) == r.1
    decreases t, |t.children| + 1
  {
    if |t.children| == 0 then
      (Score(t), Score(t))
    else
      var kids := MinMaxKids(t, |t.children|);
      (Min(Score(t), kids.0), Max(Score(t), kids.1))
  }

  /** The least of the children's minima and the greatest of their maxima, over the first `k` children. */
  function MinMaxKids(t: Tree, k: nat): (r: (real, real))
    requires 1 <= k <= |t.children|
    ensures r.0 <= r.1
    ensures forall u :: u in PreorderKids(t, k) ==> r.0 <= Score(u) <= r.1
    ensures exists u :: u in PreorderKids(t, k) && Score(u) == r.0
    ensures exists u :: u in PreorderKids(t, k) && Score(u) == r.1
    decreases t, k
  {
    var last := MinMaxScores(t.children[k - 1]);
    if k == 1 then
      assert PreorderKids(t, 1) == Preorder(t.children[0]);
      last
    else
      var first := MinMaxKids(t, k - 1);
      (Min(first.0, last.0), Max(first.1, last.1))
  }

  // ---------------------------------------------------------------------
  // The score colour
  // ---------------------------------------------------------------------

  /** Python's `int(x)`: truncation toward zero. */
  function Trunc(x: real): int {
    if x >= 0.0 then x.Floor else -((-x).Floor)
  }

  /** Where a score lies between the least and the greatest score; 0.5 when they coincide. */
  function Weight(score: real, lo: real, hi: real): real {
    if hi == lo then 0.5 else (score - lo) / (hi - lo)
  }

  function RedChannel(w: real): int {
    Trunc(40.0 + 200.0 * (1.0 - w))
  }

  function GreenChannel(w: real): int {
    Trunc(40.0 + 200.0 * w)
  }

  /** `hex(n)[2:].zfill(2)`. */
  function HexByte(n: int): string {
    ZFill(HexSlice(n), 2)
  }

  /**
   * The background of a step: pure green for a score of exactly 0.0,
   * otherwise red fading to green as the score goes from `lo` to `hi`,
   * with a fixed blue of 40.
   */
  function ScoreColor(score: real, lo: real, hi: real): (c: string)
    ensures |c| >= 7 && c[0] == '#'
  {
    if score == 0.0 then "#00FF00"
    else
      var w := Weight(score, lo, hi);
      "#" + HexByte(RedChannel(w)) + HexByte(GreenChannel(w)) + HexByte(40)
  }

  /** A score within the range has a weight between 0 and 1. */
  lemma WeightInUnitRange(score: real, lo: real, hi: real)
    requires lo <= score <= hi
    ensures 0.0 <= Weight(score, lo, hi) <= 1.0
  {
    if hi != lo {
      QuotientInUnitRange(score - lo, hi - lo);
    }
  }

  lemma QuotientInUnitRange(a: real, d: real)
    requires 0.0 <= a <= d && d != 0.0
    ensures 0.0 <= a / d <= 1.0
  {
    var q := a / d;
    assert q * d == a;
    assert (1.0 - q) * d == d - a;
  }

  /** A higher score within the range has at least the weight of a lower one. */
  lemma WeightMonotone(s1: real, s2: real, lo: real, hi: real)
    requires lo <= s1 <= s2 <= hi
    ensures Weight(s1, lo, hi) <= Weight(s2, lo, hi)
  {
    if hi != lo {
      var w1, w2 := Weight(s1, lo, hi), Weight(s2, lo, hi);
      assert w1 * (hi - lo) == s1 - lo;
      assert w2 * (hi - lo) == s2 - lo;
      assert (w2 - w1) * (hi - lo) == s2 - s1;
    }
  }

  /**
   * A channel value from 0 to 255 prints as exactly two hex digits that
   * read back as the value; below 16, `zfill(2)` supplies the leading `0`.
   */
  lemma {:induction false} HexByteOfChannel(n: int)
    requires 0 <= n < 256
    ensures var h := HexByte(n);
            |h| == 2 && IsHexDigit(h[0]) && IsHexDigit(h[1]) && HexValue(h) == n
  {
    LowerHexRoundTrip(n);
    if n < 16 {
      var h := HexByte(n);
      var d := LowerHex(n);
      HexDigitRoundTrip(n);
      HexDigitRoundTrip(0);
      assert h == ['0'] + d && d == [HEX_DIGITS[n]];
      assert h[..1] == ['0'] && h[..1][..0] == [];
    }
  }

  /** `hex(40)[2:].zfill(2)` is `28`. */
  lemma BlueChannel()
    ensures HexByte(40) == "28"
  {
    assert LowerHex(40) == LowerHex(2) + [HEX_DIGITS[8]];
  }

  /** A weight between 0 and 1 gives both channels a value from 40 to 240. */
  lemma ChannelsInRange(w: real)
    requires 0.0 <= w <= 1.0
    ensures 40 <= RedChannel(w) <= 240 && 40 <= GreenChannel(w) <= 240
  {
  }

  /**
   * The colour of a step whose score lies in the range is `#` and six hex
   * digits: the red channel, the green channel, then `28`; both channels
   * are from 40 to 240, and equal to 140 when the range is a single score.
   * A score of exactly 0.0 is `#00FF00`.
   */
  lemma ScoreColorFormat(score: real, lo: real, hi: real)
    requires lo <= score <= hi
    ensures score == 0.0 ==> ScoreColor(score, lo, hi) == "#00FF00"
    ensures score != 0.0 ==>
              var c := ScoreColor(score, lo, hi);
              var w := Weight(score, lo, hi);
              && |c| == 7 && c[0] == '#'
              && (forall k :: 1 <= k < 7 ==> IsHexDigit(c[k]))
              && HexValue(c[1..3]) == RedChannel(w) && HexValue(c[3..5]) == GreenChannel(w)
              && c[5..] == "28"
              && 40 <= RedChannel(w) <= 240 && 40 <= GreenChannel(w) <= 240
              && (lo == hi ==> RedChannel(w) == GreenChannel(w) == 140)
  {
    if score != 0.0 {
      var w := Weight(score, lo, hi);
      WeightInUnitRange(score, lo, hi);
      ChannelsInRange(w);
      HexByteOfChannel(RedChannel(w));
      HexByteOfChannel(GreenChannel(w));
      BlueChannel();
      HexTriple(HexByte(RedChannel(w)), HexByte(GreenChannel(w)), HexByte(40));
    }
  }

  /** `#` followed by three two-digit parts: seven characters, the parts at 1, 3 and 5. */
  lemma HexTriple(r: string, g: string, b: string)
    requires |r| == 2 && |g| == 2 && b == "28"
    requires IsHexDigit(r[0]) && IsHexDigit(r[1]) && IsHexDigit(g[0]) && IsHexDigit(g[1])
    ensures var c := "#" + r + g + b;
            && |c| == 7 && c[0] == '#'
            && (forall k :: 1 <= k < 7 ==> IsHexDigit(c[k]))
            && c[1..3] == r && c[3..5] == g && c[5..] == b
  {
    var c := "#" + r + g + b;
    assert c[1..3] == r;
    assert c[3..5] == g;
    assert c[5..] == b;
    assert IsHexDigit(b[0]) && IsHexDigit(b[1]);
  }

  /** Within the range, a higher score is at least as green and at most as red. */
  lemma HigherScoreIsGreener(s1: real, s2: real, lo: real, hi: real)
    requires lo <= s1 <= s2 <= hi
    ensures GreenChannel(Weight(s1, lo, hi)) <= GreenChannel(Weight(s2, lo, hi))
    ensures RedChannel(Weight(s1, lo, hi)) >= RedChannel(Weight(s2, lo, hi))
  {
    WeightMonotone(s1, s2, lo, hi);
    WeightInUnitRange(s1, lo, hi);
    WeightInUnitRange(s2, lo, hi);
  }

  // ---------------------------------------------------------------------
  // create_flow_elements
  // ---------------------------------------------------------------------

  /**
   * What a flow node's style is drawn from: the root's fixed style, or a
   * step's score against the score range and whether it was improved.
   */
  datatype Look = RootLook | StepLook(score: real, lo: real, hi: real, improved: bool)

  /** The parts of a flow node the viewer derives from the step. */
  datatype FlowNode = FlowNode(id: nat, look: Look)

  /** The parts of a flow edge the viewer derives from the parent and the child. */
  datatype FlowEdge = FlowEdge(source: nat, target: nat, stroke: string, strokeWidth: string, zIndex: int)

  const IMPROVED_BORDER: string := "#888888"
  const PLAIN_BORDER: string := "#EEEEEE"

  /** The node's `background` style entry. */
  function Background(look: Look): string {
    match look
    case RootLook => "#f5f5f5"
    case StepLook(score, lo, hi, _) => ScoreColor(score, lo, hi)
  }

  /** The node's `border` style entry. */
  function Border(look: Look): string {
    match look
    case RootLook => "3px solid #ddd"
    case StepLook(_, _, _, improved) => "3px solid " + (if improved then IMPROVED_BORDER else PLAIN_BORDER)
  }

  /** The node drawn for a root or a step. */
  function NodeOf(t: Tree, lo: real, hi: real): (n: FlowNode)
    ensures n.id == t.id
  {
    match t.kind
    case RootKind => FlowNode(t.id, RootLook)
    case StepKind(score, _, improved) => FlowNode(t.id, StepLook(score, lo, hi, improved))
  }

  /** A root is drawn grey with a light border; a step in its score colour. */
  lemma NodeBackground(t: Tree, lo: real, hi: real)
    ensures t.kind.RootKind? ==>
              Background(NodeOf(t, lo, hi).look) == "#f5f5f5" && Border(NodeOf(t, lo, hi).look) == "3px solid #ddd"
    ensures t.kind.StepKind? ==> Background(NodeOf(t, lo, hi).look) == ScoreColor(Score(t), lo, hi)
  {
  }

  /** A step's border is the darker one exactly when the step carries an improved step. */
  lemma NodeBorder(t: Tree, lo: real, hi: real)
    requires t.kind.StepKind?
    ensures Border(NodeOf(t, lo, hi).look) == "3px solid #888888" <==> t.kind.improved
  {
    var border := Border(NodeOf(t, lo, hi).look);
    if !t.kind.improved {
      assert border == "3px solid " + PLAIN_BORDER;
      assert border[11] == 'E';
    }
  }

  /** The edge from a parent to a child: bright and raised when the child is accepted. */
  function EdgeTo(sourceId: nat, child: Tree): (e: FlowEdge)
    requires child.kind.StepKind? && StepsBelow(child)
    ensures e.source == sourceId && e.target == child.id
    ensures e.stroke == "#33FF33" <==> HasAcceptedLeafs(child)
    ensures e.zIndex == 10 <==> HasAcceptedLeafs(child)
  {
    if HasAcceptedLeafs(child) then FlowEdge(sourceId, child.id, "#33FF33", "4px", 10)
    else FlowEdge(sourceId, child.id, "#555555", "2px", 0)
  }

  /** The nodes `create_flow_elements` lists: the node's own, then each child's list in turn. */
  function FlowNodes(t: Tree, lo: real, hi: real): (r: seq<FlowNode>)
    ensures |r| >= 1 && r[0] == NodeOf(t, lo, hi)
    decreases t, |t.children| + 1
  {
    [NodeOf(t, lo, hi)] + FlowNodesKids(t, |t.children|, lo, hi)
  }

  function FlowNodesKids(t: Tree, k: nat, lo: real, hi: real): seq<FlowNode>
    requires k <= |t.children|
    decreases t, k
  {
    if k == 0 then [] else FlowNodesKids(t, k - 1, lo, hi) + FlowNodes(t.children[k - 1], lo, hi)
  }

  /** The edges `create_flow_elements` lists: for each child, the edge to it, then the child's own edges. */
  function FlowEdges(t: Tree): seq<FlowEdge>
    requires StepsBelow(t)
    decreases t, |t.children| + 1
  {
    FlowEdgesKids(t, |t.children|)
  }

  function FlowEdgesKids(t: Tree, k: nat): seq<FlowEdge>
    requires StepsBelow(t) && k <= |t.children|
    decreases t, k
  {
    if k == 0 then []
    else FlowEdgesKids(t, k - 1) + [EdgeTo(t.id, t.children[k - 1])] + FlowEdges(t.children[k - 1])
  }

  /** The id-to-step table: the node itself, then each child's table merged over it in turn. */
  function IdsToStep(t: Tree): map<nat, Tree>
    decreases t, |t.children| + 1
  {
    IdsKids(t, |t.children|)
  }

  function IdsKids(t: Tree, k: nat): map<nat, Tree>
    requires k <= |t.children|
    decreases t, k
  {
    if k == 0 then map[t.id := t] else IdsKids(t, k - 1) + IdsToStep(t.children[k - 1])
  }

  /** The lists and the table for the first k + 1 children extend those for the first k by child k's. */
  lemma KidsStep(t: Tree, k: nat, lo: real, hi: real)
    requires StepsBelow(t) && k < |t.children|
    ensures t.children[k].kind.StepKind? && StepsBelow(t.children[k])
    ensures FlowNodesKids(t, k + 1, lo, hi) == FlowNodesKids(t, k, lo, hi) + FlowNodes(t.children[k], lo, hi)
    ensures FlowEdgesKids(t, k + 1) == FlowEdgesKids(t, k) + [EdgeTo(t.id, t.children[k])] + FlowEdges(t.children[k])
    ensures IdsKids(t, k + 1) == IdsKids(t, k) + IdsToStep(t.children[k])
  {
  }

  /**
   * `create_flow_elements`: the node for `t`, then for each child the edge
   * to it followed by the child's own nodes, edges and table.
   */
  method CreateFlowElements(t: Tree, lo: real, hi: real)
      returns (nodes: seq<FlowNode>, edges: seq<FlowEdge>, idsToStep: map<nat, Tree>)
    requires StepsBelow(t)
    ensures nodes == FlowNodes(t, lo, hi)
    ensures edges == FlowEdges(t)
    ensures idsToStep == IdsToStep(t)
    decreases t
  {
    nodes := [];
    edges := [];
    idsToStep := map[t.id := t];
    nodes := nodes + [NodeOf(t, lo, hi)];
    for k := 0 to |t.children|
      invariant nodes == [NodeOf(t, lo, hi)] + FlowNodesKids(t, k, lo, hi)
      invariant edges == FlowEdgesKids(t, k)
      invariant idsToStep == IdsKids(t, k)
    {
      var child := t.children[k];
      KidsStep(t, k, lo, hi);
      var childNodes, childEdges, childIds := CreateFlowElements(child, lo, hi);
      var childId := childNodes[0].id;
      assert childId == child.id;
      var edge;
      if HasAcceptedLeafs(child) {
        edge := FlowEdge(t.id, childId, "#33FF33", "4px", 10);
      } else {
        edge := FlowEdge(t.id, childId, "#555555", "2px", 0);
      }
      edges := edges + [edge];
      nodes := nodes + childNodes;
      edges := edges + childEdges;
      idsToStep := idsToStep + childIds;
    }
  }

  // ---------------------------------------------------------------------
  // What the flow elements contain
  // ---------------------------------------------------------------------

  /** One node per node of the subtree, in pre-order, the subtree's own node first. */
  lemma {:induction false} FlowNodesFollowPreorder(t: Tree, lo: real, hi: real)
    ensures |FlowNodes(t, lo, hi)| == |Preorder(t)|
    ensures forall i :: 0 <= i < |Preorder(t)| ==> FlowNodes(t, lo, hi)[i] == NodeOf(Preorder(t)[i], lo, hi)
    decreases t, |t.children| + 1
  {
    FlowNodesKidsFollowPreorder(t, |t.children|, lo, hi);
  }

  lemma {:induction false} FlowNodesKidsFollowPreorder(t: Tree, k: nat, lo: real, hi: real)
    requires k <= |t.children|
    ensures |FlowNodesKids(t, k, lo, hi)| == |PreorderKids(t, k)|
    ensures forall i :: 0 <= i < |PreorderKids(t, k)| ==> FlowNodesKids(t, k, lo, hi)[i] == NodeOf(PreorderKids(t, k)[i], lo, hi)
    decreases t, k
  {
    if k > 0 {
      FlowNodesKidsFollowPreorder(t, k - 1, lo, hi);
      FlowNodesFollowPreorder(t.children[k - 1], lo, hi);
    }
  }

  /** One edge per node other than the subtree's own: #edges = #nodes - 1. */
  lemma {:induction false} EdgeCount(t: Tree)
    requires StepsBelow(t)
    ensures |FlowEdges(t)| == |Preorder(t)| - 1
    decreases t, |t.children| + 1
  {
    EdgeCountKids(t, |t.children|);
  }

  lemma {:induction false} EdgeCountKids(t: Tree, k: nat)
    requires StepsBelow(t) && k <= |t.children|
    ensures |FlowEdgesKids(t, k)| == |PreorderKids(t, k)|
    decreases t, k
  {
    if k > 0 {
      EdgeCountKids(t, k - 1);
      EdgeCount(t.children[k - 1]);
    }
  }

  /** `e` is the edge drawn from some node of the subtree to one of its children. */
  predicate IsTreeEdge(t: Tree, e: FlowEdge)
    requires StepsBelow(t)
  {
    exists p, i :: p in Preorder(t) && 0 <= i < |p.children| && e == EdgeTo(p.id, p.children[i])
  }

  /** Every edge joins a node of the subtree to one of its children. */
  lemma {:induction false} EdgesAreTreeEdges(t: Tree)
    requires StepsBelow(t)
    ensures forall e :: e in FlowEdges(t) ==> IsTreeEdge(t, e)
    decreases t, |t.children| + 1
  {
    EdgesKidsAreTreeEdges(t, |t.children|);
  }

  lemma {:induction false} EdgesKidsAreTreeEdges(t: Tree, k: nat)
    requires StepsBelow(t) && k <= |t.children|
    ensures forall e :: e in FlowEdgesKids(t, k) ==> IsTreeEdge(t, e)
    decreases t, k
  {
    if k > 0 {
      EdgesKidsAreTreeEdges(t, k - 1);
      var child := t.children[k - 1];
      EdgesAreTreeEdges(child);
      ChildSubtreeInPreorder(t, k - 1);
      assert IsTreeEdge(t, EdgeTo(t.id, child)) by {
        assert t in Preorder(t);
      }
      forall e | e in FlowEdges(child)
        ensures IsTreeEdge(t, e)
      {
        var p, i :| p in Preorder(child) && 0 <= i < |p.children| && e == EdgeTo(p.id, p.children[i]);
        assert p in Preorder(t);
      }
    }
  }

  /** Every node of the subtree has an edge to each of its children. */
  lemma {:induction false} TreeEdgesAreEdges(t: Tree)
    requires StepsBelow(t)
    ensures forall p, i :: p in Preorder(t) && 0 <= i < |p.children| ==> EdgeTo(p.id, p.children[i]) in FlowEdges(t)
    decreases t, |t.children| + 1
  {
    TreeEdgesAreEdgesKids(t, |t.children|);
    EdgesToChildren(t, |t.children|);
  }

  lemma {:induction false} TreeEdgesAreEdgesKids(t: Tree, k: nat)
    requires StepsBelow(t) && k <= |t.children|
    ensures forall p, i :: p in PreorderKids(t, k) && 0 <= i < |p.children| ==> EdgeTo(p.id, p.children[i]) in FlowEdgesKids(t, k)
    decreases t, k
  {
    if k > 0 {
      TreeEdgesAreEdgesKids(t, k - 1);
      TreeEdgesAreEdges(t.children[k - 1]);
    }
  }

  lemma {:induction false} EdgesToChildren(t: Tree, k: nat)
    requires StepsBelow(t) && k <= |t.children|
    ensures forall i :: 0 <= i < k ==> EdgeTo(t.id, t.children[i]) in FlowEdgesKids(t, k)
    decreases k
  {
    if k > 0 {
      EdgesToChildren(t, k - 1);
    }
  }

  /** The ids of a list of nodes. */
  function IdsOf(nodes: seq<Tree>): set<nat> {
    if nodes == [] then {} else {nodes[0].id} + IdsOf(nodes[1..])
  }

  /** An id is in the set exactly when some node of the list carries it. */
  lemma {:induction false} IdsOfMembers(nodes: seq<Tree>, x: nat)
    ensures x in IdsOf(nodes) <==> exists i :: 0 <= i < |nodes| && nodes[i].id == x
  {
    if nodes != [] {
      IdsOfMembers(nodes[1..], x);
      if x in IdsOf(nodes[1..]) {
        var i :| 0 <= i < |nodes[1..]| && nodes[1..][i].id == x;
        assert nodes[i + 1].id == x;
      }
      if exists i :: 0 <= i < |nodes| && nodes[i].id == x {
        var i :| 0 <= i < |nodes| && nodes[i].id == x;
        if i > 0 {
          assert nodes[1..][i - 1].id == x;
        }
      }
    }
  }

  lemma {:induction false} IdsOfConcatenation(a: seq<Tree>, b: seq<Tree>)
    ensures IdsOf(a + b) == IdsOf(a) + IdsOf(b)
  {
    if a != [] {
      assert (a + b)[1..] == a[1..] + b;
      IdsOfConcatenation(a[1..], b);
    } else {
      assert a + b == b;
    }
  }

  /** The table and the node list for the first j + 1 children extend those for the first j by child j's. */
  lemma KidsStepIds(t: Tree, j: nat)
    requires j < |t.children|
    ensures IdsKids(t, j + 1) == IdsKids(t, j) + IdsToStep(t.children[j])
    ensures PreorderKids(t, j + 1) == PreorderKids(t, j) + Preorder(t.children[j])
  {
  }

  /** Merging two tables keyed by the ids of two node lists gives a table keyed by the ids of both. */
  lemma KeysOfMerge(m1: map<nat, Tree>, m2: map<nat, Tree>, id: nat, a: seq<Tree>, b: seq<Tree>)
    requires m1.Keys == {id} + IdsOf(a)
    requires m2.Keys == IdsOf(b)
    ensures (m1 + m2).Keys == {id} + IdsOf(a + b)
  {
    IdsOfConcatenation(a, b);
  }

  /** The keys of the id-to-step table are the ids of the nodes of the subtree. */
  lemma {:induction false} IdsToStepKeys(t: Tree)
    ensures IdsToStep(t).Keys == IdsOf(Preorder(t))
    decreases t, |t.children| + 1
  {
    var kids := PreorderKids(t, |t.children|);
    IdsKidsKeys(t, |t.children|);
    assert Preorder(t) == [t] + kids;
    assert ([t] + kids)[1..] == kids;
  }

  lemma {:induction false} IdsKidsKeys(t: Tree, k: nat)
    requires k <= |t.children|
    ensures IdsKids(t, k).Keys == {t.id} + IdsOf(PreorderKids(t, k))
    decreases t, k
  {
    if k > 0 {
      var j: nat := k - 1;
      var child := t.children[j];
      IdsKidsKeys(t, j);
      IdsToStepKeys(child);
      KidsStepIds(t, j);
      KeysOfMerge(IdsKids(t, j), IdsToStep(child), t.id, PreorderKids(t, j), Preorder(child));
    }
  }

  /** Each key of the id-to-step table leads to a node of the subtree with that id. */
  lemma {:induction false} IdsToStepValues(t: Tree)
    ensures forall x :: x in IdsToStep(t) ==> IdsToStep(t)[x].id == x && IdsToStep(t)[x] in Preorder(t)
    decreases t, |t.children| + 1
  {
    IdsKidsValues(t, |t.children|);
  }

  lemma {:induction false} IdsKidsValues(t: Tree, k: nat)
    requires k <= |t.children|
    ensures forall x :: x in IdsKids(t, k) ==> IdsKids(t, k)[x].id == x && IdsKids(t, k)[x] in Preorder(t)
    decreases t, k
  {
    if k > 0 {
      var j: nat := k - 1;
      var child := t.children[j];
      IdsKidsValues(t, j);
      IdsToStepValues(child);
      ChildSubtreeInPreorder(t, j);
      assert IdsKids(t, k) == IdsKids(t, j) + IdsToStep(child);
      ValuesOfMerge(IdsKids(t, j), IdsToStep(child), Preorder(t));
    }
  }

  /** Merging two tables whose entries are nodes of a list under their own ids gives such a table. */
  lemma ValuesOfMerge(m1: map<nat, Tree>, m2: map<nat, Tree>, nodes: seq<Tree>)
    requires forall x :: x in m1 ==> m1[x].id == x && m1[x] in nodes
    requires forall x :: x in m2 ==> m2[x].id == x && m2[x] in nodes
    ensures forall x :: x in m1 + m2 ==> (m1 + m2)[x].id == x && (m1 + m2)[x] in nodes
  {
  }
}
