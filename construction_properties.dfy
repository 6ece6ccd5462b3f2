/**
 * Properties of the construction engine: what one character does to the
 * tree, and what holds across a whole build.
 */
module ConstructionProperties {
  import opened TreeParts
  import opened ConstructionSpec

  /** Running from index `i` is one step on s[i] followed by the run from i + 1. */
  lemma RunFrom(st: TreeState, s: string, i: nat)
    requires WellFormed(st) && i < |s|
    ensures RunSpec(st, s[i..]) == match StepSpec(st, s[i])
                                   case Err(e) => Err(e)
                                   case Ok(next) => RunSpec(next, s[i + 1..])
  {
    assert s[i..][0] == s[i];
    assert s[i..][1..] == s[i + 1..];
  }

  /** The split edge keeps its key, stops at start + index and leads to the new node; no other child changes. */
  lemma SplitCutsEdge(st: TreeState, parent: nat, key: char, index: int, link: bool)
    requires WellFormed(st) && CanSplit(st, parent, key, index)
    ensures
      var grown := SplitArena(st, parent, key, index, link);
      var e := st.nodes[parent].children[key];
      && grown[parent].children.Keys == st.nodes[parent].children.Keys
      && grown[parent].children[key] == Edge(e.id, e.start, Fixed(e.start + index), Some(|st.nodes|))
      && (forall k :: k in st.nodes[parent].children && k != key ==>
            grown[parent].children[k] == st.nodes[parent].children[k])
      && forall i :: 0 <= i < |st.nodes| && i != parent ==> grown[i].children == st.nodes[i].children
  {
  }

  /**
   * The new node is appended with the next free id and no suffix link; it
   * holds the open leaf for the current position and, unless the leaf has
   * the same first character, the open offcut with the old destination.
   */
  lemma SplitBranchNode(st: TreeState, parent: nat, key: char, index: int, link: bool)
    requires WellFormed(st) && CanSplit(st, parent, key, index)
    ensures
      var grown := SplitArena(st, parent, key, index, link);
      var e := st.nodes[parent].children[key];
      var cut := e.start + index;
      var offKey := PyIndex(st.target, cut).value;
      var leafKey := PyIndex(st.target, st.pos).value;
      var kids := grown[|st.nodes|].children;
      && grown[|st.nodes|].id == |st.nodes|
      && !grown[|st.nodes|].HasSuffixLink()
      && kids.Keys == {offKey, leafKey}
      && kids[leafKey] == Edge(leafKey, st.pos, Open, None)
      && (offKey != leafKey ==> kids[offKey] == Edge(offKey, cut, Open, e.dest))
  {
  }

  /** Only the previous latest node's suffix link can change, and only when `link` holds; it then leads to the new node. */
  lemma SplitLinksOnlyLatest(st: TreeState, parent: nat, key: char, index: int, link: bool)
    requires WellFormed(st) && CanSplit(st, parent, key, index)
    ensures
      var grown := SplitArena(st, parent, key, index, link);
      && (forall i :: 0 <= i < |st.nodes| && (!link || i != st.latestNode) ==>
            grown[i].suffixLink == st.nodes[i].suffixLink)
      && (link ==> grown[st.latestNode].GetSuffixLink() == Some(SuffixLink(|st.nodes|)))
  {
  }

  /** The counter moves by exactly one per character processed. */
  lemma {:induction false} RunAdvancesPosition(st: TreeState, s: string)
    requires WellFormed(st)
    ensures RunSpec(st, s).Ok? ==> RunSpec(st, s).value.pos == st.pos + |s|
    decreases |s|
  {
    if s != [] {
      match StepSpec(st, s[0])
      case Err(_) =>
      case Ok(next) => RunAdvancesPosition(next, s[1..]);
    }
  }

  /** Once the remainder is at least 1 it never falls below 1. */
  lemma {:induction false} RunKeepsRemainderPositive(st: TreeState, s: string)
    requires WellFormed(st) && 1 <= st.remainder
    ensures RunSpec(st, s).Ok? ==> 1 <= RunSpec(st, s).value.remainder
    decreases |s|
  {
    if s != [] {
      match StepSpec(st, s[0])
      case Err(_) =>
      case Ok(next) => RunKeepsRemainderPositive(next, s[1..]);
    }
  }

  /** Every node of `a` is still in `b`, under the same index and with at least the child keys it had. */
  predicate KeysGrow(a: seq<Node>, b: seq<Node>)
  {
    && |a| <= |b|
    && forall i :: 0 <= i < |a| ==> a[i].children.Keys <= b[i].children.Keys
  }

  lemma KeysGrowTransitive(a: seq<Node>, b: seq<Node>, c: seq<Node>)
    requires KeysGrow(a, b) && KeysGrow(b, c)
    ensures KeysGrow(a, c)
  {
  }

  /** One pass of the split loop keeps every child key: the cut edge keeps its key and no other child map changes. */
  lemma SplitOnceKeepsKeys(st: TreeState, link: bool)
    requires WellFormed(st)
    ensures SplitOnceSpec(st, link).Ok? ==> KeysGrow(st.nodes, SplitOnceSpec(st, link).value.nodes)
  {
    if SplitOnceSpec(st, link).Ok? {
      SplitCutsEdge(st, st.activeNode, st.activeEdge.value, st.activeLength, link);
    }
  }

  /** The whole split loop keeps every child key. */
  lemma {:induction false} SplitAllKeepsKeys(st: TreeState, link: bool)
    requires WellFormed(st)
    ensures SplitAllSpec(st, link).Ok? ==> KeysGrow(st.nodes, SplitAllSpec(st, link).value.nodes)
    decreases st.remainder
  {
    if 1 < st.remainder {
      match SplitOnceSpec(st, link)
      case Err(_) =>
      case Ok(next) =>
        SplitOnceKeepsKeys(st, link);
        SplitAllKeepsKeys(next, true);
        if SplitAllSpec(st, link).Ok? {
          KeysGrowTransitive(st.nodes, next.nodes, SplitAllSpec(next, true).value.nodes);
        }
    }
  }

  /** Adding the leaf keeps every child key and adds the leaf's. */
  lemma AddLeafKeepsKeys(st: TreeState, c: char)
    requires WellFormed(st)
    ensures KeysGrow(st.nodes, AddLeafSpec(st, c).nodes)
  {
  }

  /** A new character keeps every child key: the split loop keeps them and the leaf adds its key or replaces the edge under it. */
  lemma MissingChildKeepsKeys(st: TreeState, c: char)
    requires WellFormed(st)
    ensures MissingChildSpec(st, c).Ok? ==> KeysGrow(st.nodes, MissingChildSpec(st, c).value.nodes)
  {
    if !(st.remainder > 1 && c == Sentinel) {
      SplitAllKeepsKeys(st, false);
      match SplitAllSpec(st, false)
      case Err(_) =>
      case Ok(m) =>
        AddLeafKeepsKeys(m, c);
        KeysGrowTransitive(st.nodes, m.nodes, AddLeafSpec(m, c).nodes);
    }
  }

  /** One character keeps every child key: a match changes no node, and a new character splits and then adds a leaf. */
  lemma StepKeepsKeys(st: TreeState, c: char)
    requires WellFormed(st)
    ensures StepSpec(st, c).Ok? ==> KeysGrow(st.nodes, StepSpec(st, c).value.nodes)
  {
    var st1 := st.(pos := st.pos + 1);
    if c !in st1.nodes[st1.activeNode].children {
      assert StepSpec(st, c) == MissingChildSpec(st1, c);
      MissingChildKeepsKeys(st1, c);
    }
  }

  /**
   * No node is removed and no child key is lost: across a run, every
   * existing node keeps its index and keeps all its child keys. An edge may
   * still be replaced under its key: the leaf added after the split loop
   * overwrites any edge already under its character.
   */
  lemma {:induction false} RunOnlyGrowsArena(st: TreeState, s: string)
    requires WellFormed(st)
    ensures RunSpec(st, s).Ok? ==> KeysGrow(st.nodes, RunSpec(st, s).value.nodes)
    decreases |s|
  {
    if s != [] {
      StepKeepsKeys(st, s[0]);
      match StepSpec(st, s[0])
      case Err(_) =>
      case Ok(next) =>
        RunOnlyGrowsArena(next, s[1..]);
        if RunSpec(st, s).Ok? {
          KeysGrowTransitive(st.nodes, next.nodes, RunSpec(next, s[1..]).value.nodes);
        }
    }
  }

  /**
   * Building from a fresh tree: after the k characters of `s` the counter is
   * k - 1, the remainder is at least 1, and every open edge's stop resolves
   * to that position.
   */
  lemma BuildFromFreshTree(s: string)
    ensures
      var r := BuildTreeSpec(InitialState(), s);
      r.Ok? ==>
        && r.value.pos == |s| - 1
        && 1 <= r.value.remainder
        && r.value.target == s
        && forall i, k :: 0 <= i < |r.value.nodes| && k in r.value.nodes[i].children
                          && r.value.nodes[i].children[k].stop.Open? ==>
                            r.value.nodes[i].children[k].GetSuffix(r.value.pos).1 == |s| - 1
  {
    var st := InitialState().(target := s, remainder := 1);
    RunAdvancesPosition(st, s);
    RunKeepsRemainderPositive(st, s);
  }

  /**
   * A character that already keys a child of the active node creates no node
   * and no edge; the remainder rises by one and the active length either
   * rises by one or, when the measured edge is used up, the active point
   * moves down to the destination of the active edge.
   */
  lemma StepOnExistingChild(st: TreeState, c: char)
    requires WellFormed(st) && c in st.nodes[st.activeNode].children
    ensures
      var edges := st.nodes[st.activeNode].children;
      var len := st.activeLength + 1;
      var key := if st.activeEdge.None? || len == 1 then c else st.activeEdge.value;
      var r := StepSpec(st, c);
      && (r.Err? <==> len >= edges[c].GetLength(st.pos + 1) && key !in edges)
      && (r.Err? ==> r.error == KeyError)
      && (r.Ok? ==>
            && r.value.nodes == st.nodes
            && r.value.remainder == st.remainder + 1
            && r.value.latestNode == st.latestNode)
      && (len < edges[c].GetLength(st.pos + 1) ==>
            r.Ok? && r.value.activeNode == st.activeNode
            && r.value.activeLength == len && r.value.activeEdge == Some(key))
      && (r.Ok? && len >= edges[c].GetLength(st.pos + 1) && edges[key].dest.None? ==>
            r.value.activeNode == st.activeNode
            && r.value.activeLength == len && r.value.activeEdge == Some(key))
      && (r.Ok? && len >= edges[c].GetLength(st.pos + 1) && edges[key].dest.Some? ==>
            r.value.activeNode == edges[key].dest.value
            && r.value.activeLength == 0 && r.value.activeEdge == None)
  {
  }

  /**
   * A character with no child under the active node (and no sentinel break)
   * splits until one suffix is pending, creating one node per split, then adds
   * exactly one open leaf keyed by the character to the post-split active node.
   */
  lemma StepOnNewChar(st: TreeState, c: char)
    requires WellFormed(st) && c !in st.nodes[st.activeNode].children
    requires !(1 < st.remainder && c == Sentinel)
    ensures
      var mid := SplitAllSpec(st.(pos := st.pos + 1), false);
      var r := StepSpec(st, c);
      && (r.Ok? <==> mid.Ok?)
      && (r.Err? ==> r.error == mid.error)
      && (r.Ok? ==>
            && r.value.remainder == (if 1 < st.remainder then 1 else st.remainder)
            && |r.value.nodes| == |st.nodes| + (if 1 < st.remainder then st.remainder - 1 else 0)
            && r.value.activeNode == mid.value.activeNode
            && r.value.nodes[r.value.activeNode].children
               == mid.value.nodes[mid.value.activeNode].children[c := Edge(c, st.pos + 1, Open, None)]
            && forall i :: 0 <= i < |r.value.nodes| && i != r.value.activeNode ==>
                 r.value.nodes[i] == mid.value.nodes[i])
  {
    var st1 := st.(pos := st.pos + 1);
    assert StepSpec(st, c) == MissingChildSpec(st1, c);
    match SplitAllSpec(st1, false)
    case Err(e) =>
    case Ok(m) => assert StepSpec(st, c) == Ok(AddLeafSpec(m, c));
  }

  /** The sentinel with more than one suffix pending breaks out at once: only the counter moves, and no leaf is added. */
  lemma SentinelBreaksSplitLoop(st: TreeState)
    requires WellFormed(st) && 1 < st.remainder && Sentinel !in st.nodes[st.activeNode].children
    ensures StepSpec(st, Sentinel) == Ok(st.(pos := st.pos + 1))
  {
  }

  /** A pass with the flag off changes no link and makes its new node the latest. */
  lemma UnlinkedPass(st: TreeState)
    requires WellFormed(st)
    ensures SplitOnceSpec(st, false).Ok? ==>
      && SplitOnceSpec(st, false).value.nodes[st.latestNode].suffixLink == st.nodes[st.latestNode].suffixLink
      && SplitOnceSpec(st, false).value.latestNode == |st.nodes|
  {
    if SplitOnceSpec(st, false).Ok? {
      SplitLinksOnlyLatest(st, st.activeNode, st.activeEdge.value, st.activeLength, false);
      assert SplitOnceSpec(st, false).value.nodes == SplitArena(st, st.activeNode, st.activeEdge.value, st.activeLength, false);
    }
  }

  /** A pass with the flag on links the latest node to the node it creates. */
  lemma LinkedPass(st: TreeState)
    requires WellFormed(st)
    ensures SplitOnceSpec(st, true).Ok? ==>
      SplitOnceSpec(st, true).value.nodes[st.latestNode].GetSuffixLink() == Some(SuffixLink(|st.nodes|))
  {
    if SplitOnceSpec(st, true).Ok? {
      SplitLinksOnlyLatest(st, st.activeNode, st.activeEdge.value, st.activeLength, true);
      assert SplitOnceSpec(st, true).value.nodes == SplitArena(st, st.activeNode, st.activeEdge.value, st.activeLength, true);
    }
  }

  /**
   * The first pass of the split loop never links the latest node; with more
   * than two suffixes pending the loop makes a second pass, and that pass
   * links the node the first pass created to the node it creates itself.
   */
  lemma SplitLinksPreviousSplit(st: TreeState)
    requires WellFormed(st) && 2 < st.remainder
    ensures
      var first := SplitOnceSpec(st, false);
      first.Ok? ==>
        && first.value.nodes[st.latestNode].suffixLink == st.nodes[st.latestNode].suffixLink
        && first.value.latestNode == |st.nodes|
        && var second := SplitOnceSpec(first.value, true);
           && SplitAllSpec(st, false) == (if second.Ok? then SplitAllSpec(second.value, true) else Err(second.error))
           && (second.Ok? ==> second.value.nodes[|st.nodes|].GetSuffixLink() == Some(SuffixLink(|st.nodes| + 1)))
  {
    UnlinkedPass(st);
    if SplitOnceSpec(st, false).Ok? {
      var f := SplitOnceSpec(st, false).value;
      assert SplitAllSpec(st, false) == SplitAllSpec(f, true);
      LinkedPass(f);
    }
  }
}
