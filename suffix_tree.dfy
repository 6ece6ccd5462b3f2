/**
 * The suffix tree builder as an object whose fields the construction changes
 * in place. Each method is proved to leave the fields in exactly the state
 * the matching function of ConstructionSpec computes from the old state.
 */
module SuffixTrees {
  import opened TreeParts
  import opened ConstructionSpec
  import opened ConstructionProperties

  /** How a call ended: normally, or with the Python exception it would raise. */
  datatype Outcome = Completed | Raised(error: PyError)

  /** The outcome and the new state agree with the specification's result. */
  ghost predicate Reports(outcome: Outcome, spec: Result<TreeState>, now: TreeState)
  {
    match spec
    case Ok(st) => outcome == Completed && now == st
    case Err(e) => outcome == Raised(e)
  }

  class SuffixTree {
    const pos: SharedCounter
    var remainder: int
    var activeLength: int
    var activeEdge: Option<char>
    var activeNode: nat
    var latestNode: nat
    var nodes: seq<Node>
    var target: string

    function State(): TreeState
      reads this, pos
    {
      TreeState(pos.val, remainder, activeNode, activeEdge, activeLength, latestNode, nodes, target)
    }

    ghost predicate Valid()
      reads this, pos
    {
      WellFormed(State())
    }

    constructor ()
      ensures Valid() && fresh(pos)
      ensures State() == InitialState()
    {
      pos := new SharedCounter(-1);
      remainder := 0;
      activeLength := 0;
      activeEdge := None;
      nodes := [NewNode(Root)];
      activeNode := Root;
      latestNode := Root;
      target := "";
    }

    method MoveDown(edge: Edge)
      requires Valid() && EdgeInArena(edge, |nodes|)
      modifies this
      ensures Valid()
      ensures State() == MoveDownSpec(old(State()), edge)
    {
      var dest := edge.GetDestination();
      if dest.Some? {
        activeNode := dest.value;
        activeEdge := None;
        activeLength := 0;
      }
    }

    method SplitEdge(parent: nat, key: char, index: int, link: bool)
      requires Valid() && CanSplit(State(), parent, key, index)
      modifies this
      ensures Valid()
      ensures State() == SplitEdgeSpec(old(State()), parent, key, index, link)
    {
      AddSplitNode(parent, key, index, link);
      UpdateActivePoint();
    }

    /** The arena part of a split: link, cut the edge, append the new node and make it the latest. */
    method AddSplitNode(parent: nat, key: char, index: int, link: bool)
      requires Valid() && CanSplit(State(), parent, key, index)
      modifies this
      ensures State() == old(State()).(nodes := SplitArena(old(State()), parent, key, index, link), latestNode := old(|nodes|))
    {
      ghost var st := State();
      var arena := nodes;
      var n := |arena|;
      var node := NewNode(n);
      // latest_node is never None, so only the flag decides
      if link {
        arena := arena[latestNode := arena[latestNode].AddSuffixLink(SuffixLink(n))];
      }
      var edge := arena[parent].GetChildren()[key];
      var oldDest := edge.GetDestination();
      var oldStart := edge.GetSuffix(pos.GetVal()).0;
      edge := edge.SetBound(None, Some(Fixed(oldStart + index)));
      edge := edge.SetDestination(Some(n));
      arena := arena[parent := arena[parent].(children := arena[parent].children[key := edge])];
      var offcut := Edge(PyIndex(target, oldStart + index).value, oldStart + index, Open, oldDest);
      node := node.AddChild(offcut);
      var p := pos.GetVal();
      var newEdge := Edge(PyIndex(target, p).value, p, Open, None);
      node := node.AddChild(newEdge);
      arena := arena + [node];
      assert arena == SplitArena(st, parent, key, index, link);
      nodes := arena;
      latestNode := n;
    }

    /** The active-point update at the end of a split. */
    method UpdateActivePoint()
      requires Valid()
      requires activeNode == Root ==> PyIndex(target, pos.val - (activeLength - 1)).Some?
      modifies this
      ensures Valid()
      ensures State() == ActivePointAfterSplit(old(State()))
    {
      if activeNode == Root {
        activeLength := activeLength - 1;
        activeEdge := PyIndex(target, pos.GetVal() - activeLength);
      } else if nodes[activeNode].HasSuffixLink() {
        activeNode := nodes[activeNode].GetSuffixLink().value.GetDestination();
      } else {
        activeNode := Root;
      }
    }

    /** The body of the build loop for one character `c`. */
    method ProcessChar(c: char) returns (outcome: Outcome)
      requires Valid()
      modifies this, pos
      ensures Valid()
      ensures Reports(outcome, StepSpec(old(State()), c), State())
    {
      pos.NextVal();
      var nodeEdges := nodes[activeNode].GetChildren();
      if c in nodeEdges {
        outcome := FollowExistingChild(c);
      } else {
        outcome := SplitAndAddLeaf(c);
      }
    }

    /** The branch for a character that already keys a child of the active node. */
    method FollowExistingChild(c: char) returns (outcome: Outcome)
      requires Valid() && c in nodes[activeNode].children
      modifies this
      ensures Valid()
      ensures Reports(outcome, ExistingChildSpec(old(State()), c), State())
    {
      var nodeEdges := nodes[activeNode].GetChildren();
      remainder := remainder + 1;
      activeLength := activeLength + 1;
      if activeEdge.None? || activeLength == 1 {
        activeEdge := Some(c);
      }
      if activeLength >= nodeEdges[c].GetLength(pos.GetVal()) {
        if activeEdge.value !in nodeEdges {
          return Raised(KeyError);
        }
        MoveDown(nodeEdges[activeEdge.value]);
      }
      outcome := Completed;
    }

    /** One pass of the split loop's body: split the active edge at the active length, then drop the remainder. */
    method SplitOnce(link: bool) returns (outcome: Outcome)
      requires Valid()
      modifies this
      ensures Valid()
      ensures Reports(outcome, SplitOnceSpec(old(State()), link), State())
    {
      var nodeEdges := nodes[activeNode].GetChildren();
      if activeEdge.None? || activeEdge.value !in nodeEdges {
        return Raised(KeyError);
      }
      if !CanSplit(State(), activeNode, activeEdge.value, activeLength) {
        return Raised(IndexError);
      }
      SplitEdge(activeNode, activeEdge.value, activeLength, link);
      remainder := remainder - 1;
      outcome := Completed;
    }

    /** The branch for a character that keys no child of the active node: the split loop, then the new leaf. */
    method SplitAndAddLeaf(c: char) returns (outcome: Outcome)
      requires Valid()
      modifies this
      ensures Valid()
      ensures Reports(outcome, MissingChildSpec(old(State()), c), State())
    {
      ghost var mid := State();
      var attachLink := false;
      var broke := false;
      while remainder > 1
        invariant Valid()
        invariant c != Sentinel ==> SplitAllSpec(State(), attachLink) == SplitAllSpec(mid, false)
        invariant c == Sentinel ==> State() == mid
        decreases remainder
      {
        if c == Sentinel {
          broke := true;
          break;
        }
        outcome := SplitOnce(attachLink);
        if outcome.Raised? {
          return;
        }
        attachLink := true;
      }
      if !broke {
        assert SplitAllSpec(mid, false) == Ok(State()) by {
          if c == Sentinel {
            assert State() == mid;
          }
        }
        ghost var split := State();
        var newEdge := Edge(c, pos.GetVal(), Open, None);
        nodes := nodes[activeNode := nodes[activeNode].AddChild(newEdge)];
        assert State() == AddLeafSpec(split, c);
      }
      outcome := Completed;
    }

    /**
     * Builds the tree for `s`: the target becomes `s`, the remainder restarts
     * at 1, and each character is processed in turn; a Python exception ends
     * the build and is reported.
     */
    method BuildTree(s: string) returns (outcome: Outcome)
      requires Valid()
      modifies this, pos
      ensures Valid()
      ensures Reports(outcome, BuildTreeSpec(old(State()), s), State())
      ensures outcome == Completed ==> pos.val == old(pos.val) + |s| && 1 <= remainder && target == s
    {
      target := s;
      remainder := 1;
      ghost var start := State();
      RunAdvancesPosition(start, s);
      RunKeepsRemainderPositive(start, s);
      for i := 0 to |s|
        invariant Valid() && target == s
        invariant RunSpec(State(), s[i..]) == RunSpec(start, s)
      {
        ghost var before := State();
        RunFrom(before, s, i);
        outcome := ProcessChar(s[i]);
        if outcome.Raised? {
          return;
        }
      }
      outcome := Completed;
    }
  }
}
