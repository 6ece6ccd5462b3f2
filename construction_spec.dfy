/**
 * The construction engine of the suffix tree as pure functions over a
 * snapshot of the tree's state. The class SuffixTrees.SuffixTree changes its
 * fields step by step and is proved to end in exactly the state these
 * functions compute.
 *
 * The functions follow the code as written, not textbook Ukkonen: the
 * sentinel '$' stops the split loop, the split loop stops at remainder 1, the
 * descent after a match measures the edge under the new character but
 * follows the edge under the active edge, and the offcut of a split edge is
 * always open.
 */
module ConstructionSpec {
  import opened TreeParts

  /** The root is the first node of the arena. */
  const Root: nat := 0

  /** The terminal character that breaks out of the split loop. */
  const Sentinel: char := '$'

  /** The Python exceptions the construction can raise. */
  datatype PyError = KeyError | IndexError

  datatype Result<+T> = Ok(value: T) | Err(error: PyError)

  /** Python string indexing: negative indices count from the end; anything else out of range raises. */
  function PyIndex(s: string, i: int): Option<char>
  {
    if 0 <= i < |s| then Some(s[i])
    else if -|s| <= i < 0 then Some(s[|s| + i])
    else None
  }

  /** PyIndex raises exactly outside [-len, len) and otherwise reads the index modulo the length. */
  lemma PyIndexWraps(s: string, i: int)
    ensures PyIndex(s, i).Some? <==> -|s| <= i < |s|
    ensures PyIndex(s, i).Some? ==> PyIndex(s, i).value == s[(i + |s|) % |s|]
  {
  }

  /** A snapshot of every field of the tree that the construction reads or writes. */
  datatype TreeState = TreeState(
    pos: int,
    remainder: int,
    activeNode: nat,
    activeEdge: Option<char>,
    activeLength: int,
    latestNode: nat,
    nodes: seq<Node>,
    target: string)

  predicate EdgeInArena(e: Edge, count: nat)
  {
    e.dest.Some? ==> e.dest.value < count
  }

  /** Node `i` carries id `i`, keys each child by the child's own id, and points only into the arena. */
  predicate NodeInArena(nd: Node, i: nat, count: nat)
  {
    && nd.id == i
    && (nd.suffixLink.Some? ==> nd.suffixLink.value.dest < count)
    && forall k :: k in nd.children ==> nd.children[k].id == k && EdgeInArena(nd.children[k], count)
  }

  /** The invariant of the tree: a non-empty arena whose every reference is an index into it. */
  predicate WellFormed(st: TreeState)
  {
    && 0 < |st.nodes|
    && st.activeNode < |st.nodes|
    && st.latestNode < |st.nodes|
    && forall i :: 0 <= i < |st.nodes| ==> NodeInArena(st.nodes[i], i, |st.nodes|)
  }

  lemma NodeInLargerArena(nd: Node, i: nat, count: nat, count': nat)
    requires NodeInArena(nd, i, count) && count <= count'
    ensures NodeInArena(nd, i, count')
  {
  }

  /** A fresh tree: counter at -1, only the root, active point at the root, remainder 0, empty target. */
  function InitialState(): (st: TreeState)
    ensures WellFormed(st)
    ensures st.pos == -1 && st.remainder == 0 && st.target == []
    ensures |st.nodes| == 1 && st.nodes[Root].children == map[] && !st.nodes[Root].HasSuffixLink()
    ensures st.activeNode == Root && st.activeEdge == None && st.activeLength == 0 && st.latestNode == Root
  {
    TreeState(-1, 0, Root, None, 0, Root, [NewNode(Root)], [])
  }

  /** Following an edge with a destination resets the active point there; a leaf edge changes nothing. */
  function MoveDownSpec(st: TreeState, edge: Edge): (r: TreeState)
    requires WellFormed(st) && EdgeInArena(edge, |st.nodes|)
    ensures WellFormed(r)
    ensures edge.dest.Some? ==> r == st.(activeNode := edge.dest.value, activeEdge := None, activeLength := 0)
    ensures edge.dest.None? ==> r == st
  {
    match edge.GetDestination()
    case Some(d) => st.(activeNode := d, activeEdge := None, activeLength := 0)
    case None => st
  }

  /**
   * Splitting the child `key` of `parent` at `index` raises neither KeyError
   * nor IndexError: the edge exists, and the target can be indexed at the
   * cut, at the current position and, from the root, at the new active edge.
   */
  predicate CanSplit(st: TreeState, parent: nat, key: char, index: int): (ok: bool)
    ensures ok <==>
      && parent < |st.nodes|
      && key in st.nodes[parent].children
      && -|st.target| <= st.nodes[parent].children[key].start + index < |st.target|
      && -|st.target| <= st.pos < |st.target|
      && (st.activeNode == Root ==> -|st.target| <= st.pos - (st.activeLength - 1) < |st.target|)
  {
    && parent < |st.nodes|
    && key in st.nodes[parent].children
    && PyIndex(st.target, st.nodes[parent].children[key].start + index).Some?
    && PyIndex(st.target, st.pos).Some?
    && (st.activeNode == Root ==> PyIndex(st.target, st.pos - (st.activeLength - 1)).Some?)
  }

  /** A node made by a split: the next free id, no suffix link, the offcut and then the leaf as children. */
  function BranchNode(n: nat, offcut: Edge, leaf: Edge): (nd: Node)
    ensures nd.id == n && !nd.HasSuffixLink()
    ensures nd.children.Keys == {offcut.id, leaf.id}
    ensures nd.children[leaf.id] == leaf
    ensures offcut.id != leaf.id ==> nd.children[offcut.id] == offcut
  {
    NewNode(n).AddChild(offcut).AddChild(leaf)
  }

  /** Links the latest node to node `n` when `link` holds; no other field of any node changes. */
  function LinkLatest(nodes: seq<Node>, latest: nat, n: nat, link: bool): (r: seq<Node>)
    requires latest < |nodes|
    ensures |r| == |nodes|
    ensures forall i :: 0 <= i < |nodes| ==> r[i].id == nodes[i].id && r[i].children == nodes[i].children
    ensures forall i :: 0 <= i < |nodes| && (!link || i != latest) ==> r[i].suffixLink == nodes[i].suffixLink
    ensures link ==> r[latest].GetSuffixLink() == Some(SuffixLink(n))
  {
    if link then nodes[latest := nodes[latest].AddSuffixLink(SuffixLink(n))] else nodes
  }

  /** The split edge: its stop becomes fixed at start + index and it leads to node `n`. */
  function CutEdge(edge: Edge, counter: int, index: int, n: nat): (r: Edge)
    ensures r.id == edge.id && r.start == edge.start
    ensures r.stop == Fixed(edge.start + index) && r.dest == Some(n)
  {
    edge.SetBound(None, Some(Fixed(edge.GetSuffix(counter).0 + index))).SetDestination(Some(n))
  }

  /**
   * What a split does to the arena: the previous latest node is linked to
   * the new node when `link` holds; the child `key` of `parent` is cut at
   * `index` and leads to the new node; the new node, appended with the next
   * free id, holds the offcut (always open, keeping the old destination) and
   * a new open leaf for the current position. The arena stays well formed;
   * the shape is stated by the lemmas SplitCutsEdge, SplitBranchNode and
   * SplitLinksOnlyLatest.
   */
  function SplitArena(st: TreeState, parent: nat, key: char, index: int, link: bool): (grown: seq<Node>)
    requires WellFormed(st) && CanSplit(st, parent, key, index)
    ensures |grown| == |st.nodes| + 1
    ensures WellFormed(st.(nodes := grown, latestNode := |st.nodes|))
  {
    var n := |st.nodes|;
    var linked := LinkLatest(st.nodes, st.latestNode, n, link);
    var edge := linked[parent].GetChildren()[key];
    var cut := edge.start + index;
    var rewired := linked[parent := linked[parent].(children := linked[parent].children[key := CutEdge(edge, st.pos, index, n)])];
    var offcut := Edge(PyIndex(st.target, cut).value, cut, Open, edge.GetDestination());
    var leaf := Edge(PyIndex(st.target, st.pos).value, st.pos, Open, None);
    var grown := rewired + [BranchNode(n, offcut, leaf)];
    assert forall i :: 0 <= i < n ==> NodeInArena(grown[i], i, n + 1) by {
      forall i | 0 <= i < n
        ensures NodeInArena(grown[i], i, n + 1)
      {
        NodeInLargerArena(st.nodes[i], i, n, n + 1);
      }
    }
    grown
  }

  /**
   * The active point after a split. From the root the active length drops by
   * one and the active edge is re-read from the target; elsewhere the active
   * node follows its suffix link, or falls back to the root.
   */
  function ActivePointAfterSplit(st: TreeState): (r: TreeState)
    requires WellFormed(st)
    requires st.activeNode == Root ==> PyIndex(st.target, st.pos - (st.activeLength - 1)).Some?
    ensures WellFormed(r)
    ensures r == st.(activeNode := r.activeNode, activeEdge := r.activeEdge, activeLength := r.activeLength)
    ensures st.activeNode == Root ==>
      && r.activeNode == Root
      && r.activeLength == st.activeLength - 1
      && r.activeEdge == PyIndex(st.target, st.pos - r.activeLength)
      && r.activeEdge.Some?
    ensures st.activeNode != Root ==>
      && r.activeLength == st.activeLength
      && r.activeEdge == st.activeEdge
      && r.activeNode == (if st.nodes[st.activeNode].HasSuffixLink()
                          then st.nodes[st.activeNode].GetSuffixLink().value.GetDestination()
                          else Root)
  {
    if st.activeNode == Root then
      var len := st.activeLength - 1;
      st.(activeLength := len, activeEdge := PyIndex(st.target, st.pos - len))
    else
      match st.nodes[st.activeNode].GetSuffixLink()
      case Some(l) => st.(activeNode := l.GetDestination())
      case None => st.(activeNode := Root)
  }

  /**
   * A split: the arena changes as SplitArena says, the new node becomes the
   * latest node, and the active point moves as ActivePointAfterSplit says,
   * reading the active node's suffix link as it is after the split.
   */
  function SplitEdgeSpec(st: TreeState, parent: nat, key: char, index: int, link: bool): (r: TreeState)
    requires WellFormed(st) && CanSplit(st, parent, key, index)
    ensures WellFormed(r)
    ensures r.nodes == SplitArena(st, parent, key, index, link) && r.latestNode == |st.nodes|
    ensures r.pos == st.pos && r.remainder == st.remainder && r.target == st.target
    ensures st.activeNode == Root ==>
      && r.activeNode == Root
      && r.activeLength == st.activeLength - 1
      && r.activeEdge == PyIndex(st.target, st.pos - r.activeLength)
    ensures st.activeNode != Root ==>
      && r.activeLength == st.activeLength
      && r.activeEdge == st.activeEdge
      && r.activeNode == (if r.nodes[st.activeNode].HasSuffixLink()
                          then r.nodes[st.activeNode].GetSuffixLink().value.GetDestination()
                          else Root)
  {
    ActivePointAfterSplit(st.(nodes := SplitArena(st, parent, key, index, link), latestNode := |st.nodes|))
  }

  /**
   * One pass of the split loop's body: the active edge is looked up under the
   * active node (KeyError when there is none), split at the active length
   * (IndexError when the target has no character at the cut or at the
   * current position), and the remainder drops by one.
   */
  function SplitOnceSpec(st: TreeState, link: bool): (r: Result<TreeState>)
    requires WellFormed(st)
    ensures r.Ok? ==> WellFormed(r.value)
    ensures r.Ok? ==> r.value.pos == st.pos && r.value.target == st.target
    ensures r.Ok? ==> r.value.remainder == st.remainder - 1 && |r.value.nodes| == |st.nodes| + 1
    ensures r == Err(KeyError) <==> st.activeEdge.None? || st.activeEdge.value !in st.nodes[st.activeNode].children
    ensures r.Ok? <==> st.activeEdge.Some? && CanSplit(st, st.activeNode, st.activeEdge.value, st.activeLength)
  {
    if st.activeEdge.None? || st.activeEdge.value !in st.nodes[st.activeNode].children then Err(KeyError)
    else if !CanSplit(st, st.activeNode, st.activeEdge.value, st.activeLength) then Err(IndexError)
    else
      var split := SplitEdgeSpec(st, st.activeNode, st.activeEdge.value, st.activeLength, link);
      Ok(split.(remainder := split.remainder - 1))
  }

  /**
   * The split loop of one step: while more than one suffix is pending, run
   * the loop body; the first exception ends it. Only the first split of a
   * step leaves the latest node unlinked.
   */
  function SplitAllSpec(st: TreeState, link: bool): (r: Result<TreeState>)
    requires WellFormed(st)
    ensures r.Ok? ==> WellFormed(r.value)
    ensures r.Ok? ==> r.value.pos == st.pos && r.value.target == st.target
    ensures r.Ok? ==> r.value.remainder == (if st.remainder > 1 then 1 else st.remainder)
    ensures r.Ok? ==> |r.value.nodes| == |st.nodes| + (if st.remainder > 1 then st.remainder - 1 else 0)
    decreases st.remainder
  {
    if st.remainder <= 1 then Ok(st)
    else
      match SplitOnceSpec(st, link)
      case Err(e) => Err(e)
      case Ok(next) => SplitAllSpec(next, true)
  }

  /** Adds an open leaf for character `c`, starting at the current position, to the active node. */
  function AddLeafSpec(st: TreeState, c: char): (r: TreeState)
    requires WellFormed(st)
    ensures WellFormed(r)
    ensures r == st.(nodes := r.nodes) && |r.nodes| == |st.nodes|
    ensures r.nodes[st.activeNode].children == st.nodes[st.activeNode].children[c := Edge(c, st.pos, Open, None)]
    ensures forall i :: 0 <= i < |st.nodes| && i != st.activeNode ==> r.nodes[i] == st.nodes[i]
  {
    st.(nodes := st.nodes[st.activeNode := st.nodes[st.activeNode].AddChild(Edge(c, st.pos, Open, None))])
  }

  /**
   * The character already keys a child of the active node: one more suffix
   * is pending and the active length grows; when it reaches the length of
   * the edge under the character, the active point moves down the edge under
   * the active edge (KeyError when that edge does not exist).
   */
  function ExistingChildSpec(st: TreeState, c: char): (r: Result<TreeState>)
    requires WellFormed(st) && c in st.nodes[st.activeNode].children
    ensures r.Err? ==> r.error == KeyError
    ensures r.Ok? ==> WellFormed(r.value)
    ensures r.Ok? ==> r.value == st.(remainder := st.remainder + 1, activeNode := r.value.activeNode,
                                     activeEdge := r.value.activeEdge, activeLength := r.value.activeLength)
  {
    var nodeEdges := st.nodes[st.activeNode].GetChildren();
    var len := st.activeLength + 1;
    var st2 := st.(remainder := st.remainder + 1, activeLength := len,
                   activeEdge := if st.activeEdge.None? || len == 1 then Some(c) else st.activeEdge);
    if len >= nodeEdges[c].GetLength(st2.pos) then
      if st2.activeEdge.value in nodeEdges then Ok(MoveDownSpec(st2, nodeEdges[st2.activeEdge.value]))
      else Err(KeyError)
    else Ok(st2)
  }

  /**
   * The character keys no child of the active node: the sentinel with more
   * than one suffix pending changes nothing; otherwise the split loop runs
   * and then one open leaf for the character is added to the active node.
   */
  function MissingChildSpec(st: TreeState, c: char): (r: Result<TreeState>)
    requires WellFormed(st)
    ensures r.Ok? ==> WellFormed(r.value)
    ensures r.Ok? ==> r.value.pos == st.pos && r.value.target == st.target
    ensures r.Ok? ==> |st.nodes| <= |r.value.nodes|
    ensures r.Ok? ==> r.value.remainder == (if st.remainder > 1 && c != Sentinel then 1 else st.remainder)
  {
    if st.remainder > 1 && c == Sentinel then Ok(st)
    else
      match SplitAllSpec(st, false)
      case Err(e) => Err(e)
      case Ok(st3) => Ok(AddLeafSpec(st3, c))
  }

  /** One character of the build loop: advance the counter, then take the branch for a matched or a missing child. */
  function StepSpec(st: TreeState, c: char): (r: Result<TreeState>)
    requires WellFormed(st)
    ensures r.Ok? ==> WellFormed(r.value)
    ensures r.Ok? ==> r.value.pos == st.pos + 1 && r.value.target == st.target
    ensures r.Ok? ==> |st.nodes| <= |r.value.nodes|
    ensures r.Ok? && 1 <= st.remainder ==> 1 <= r.value.remainder
  {
    var st1 := st.(pos := st.pos + 1);
    if c in st1.nodes[st1.activeNode].GetChildren() then ExistingChildSpec(st1, c)
    else MissingChildSpec(st1, c)
  }

  /** The build loop over the characters of `s`; the first exception ends it. */
  function RunSpec(st: TreeState, s: string): (r: Result<TreeState>)
    requires WellFormed(st)
    ensures r.Ok? ==> WellFormed(r.value) && r.value.target == st.target
    decreases |s|
  {
    if s == [] then Ok(st)
    else
      match StepSpec(st, s[0])
      case Err(e) => Err(e)
      case Ok(next) => RunSpec(next, s[1..])
  }

  /** buildTree: the target becomes `s`, the remainder restarts at 1, then each character is processed. */
  function BuildTreeSpec(st: TreeState, s: string): (r: Result<TreeState>)
    requires WellFormed(st)
    ensures r.Ok? ==> WellFormed(r.value) && r.value.target == s
  {
    RunSpec(st.(target := s, remainder := 1), s)
  }
}
