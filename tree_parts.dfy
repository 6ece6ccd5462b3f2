/**
 * The building blocks of the suffix tree: the shared "current end" counter,
 * edges with half-open [start, stop) ranges into the target string, suffix
 * links and nodes.
 *
 * Nodes live in an arena (a sequence indexed by node id, see ConstructionSpec),
 * so an edge's destination and a suffix link's destination are node ids.
 * Every edge sits in exactly one parent's child map, so edges are values.
 */
module TreeParts {

  datatype Option<+T> = None | Some(value: T)

  /** The shared position counter that every open edge reads as its stop. */
  class SharedCounter {
    var val: int

    constructor (startValue: int)
      ensures val == startValue
    {
      val := startValue;
    }

    /** The counter's current value, which every open edge reads as its stop. */
    function GetVal(): (v: int)
      reads this
      ensures v == val
    {
      val
    }

    method NextVal()
      modifies this
      ensures val == old(val) + 1
    {
      val := val + 1;
    }
  }

  /** The stop bound of an edge: a fixed index, or the shared counter. */
  datatype Stop = Fixed(at: int) | Open

  /**
   * An edge keyed by the first character of its label, spanning
   * target[start..stop) once `stop` is resolved, and leading to `dest`
   * (None for a leaf).
   */
  datatype Edge = Edge(id: char, start: int, stop: Stop, dest: Option<nat>)
  {
    /** The first character of the edge's label, the key it is stored under. */
    function GetId(): (c: char)
      ensures c == id
    {
      id
    }

    function GetDestination(): (d: Option<nat>)
      ensures d == dest
    {
      dest
    }

    function SetDestination(node: Option<nat>): (e: Edge)
      ensures e.GetDestination() == node
      ensures e.id == id && e.start == start && e.stop == stop
    {
      this.(dest := node)
    }

    /**
     * A given start wins: the stop is then ignored even when it is given too.
     * Neither the id nor the destination ever changes.
     */
    function SetBound(newStart: Option<int>, newStop: Option<Stop>): (e: Edge)
      ensures e.id == id && e.dest == dest
      ensures newStart.Some? ==> e.start == newStart.value && e.stop == stop
      ensures newStart.None? && newStop.Some? ==> e.start == start && e.stop == newStop.value
      ensures newStart.None? && newStop.None? ==> e == this
    {
      if newStart.Some? then this.(start := newStart.value)
      else if newStop.Some? then this.(stop := newStop.value)
      else this
    }

    /** The stop index, reading the shared counter's value for an open edge. */
    function ResolvedStop(counter: int): int
    {
      match stop
      case Fixed(at) => at
      case Open => counter
    }

    /** The stop, resolved against the counter, minus the start. */
    function GetLength(counter: int): (len: int)
      ensures stop.Open? ==> len == counter - start
      ensures stop.Fixed? ==> len == stop.at - start
    {
      ResolvedStop(counter) - start
    }

    function GetSuffix(counter: int): (bounds: (int, int))
      ensures bounds.0 == start
      ensures bounds.1 - bounds.0 == GetLength(counter)
      ensures stop.Open? ==> bounds.1 == counter
      ensures stop.Fixed? ==> bounds.1 == stop.at
    {
      (start, ResolvedStop(counter))
    }
  }

  /** Advancing the shared counter by one lengthens every open edge by one and no fixed edge. */
  lemma LengthAfterNextVal(e: Edge, counter: int)
    ensures e.stop.Open? ==> e.GetLength(counter + 1) == e.GetLength(counter) + 1
    ensures e.stop.Fixed? ==> e.GetLength(counter + 1) == e.GetLength(counter)
  {
  }

  /** A leaf created at the current position has length zero until the counter moves. */
  lemma FreshLeafIsEmpty(c: char, position: int)
    ensures Edge(c, position, Open, None).GetLength(position) == 0
    ensures Edge(c, position, Open, None).GetLength(position + 1) == 1
  {
  }

  /** A link from one node to another; it only names its destination. */
  datatype SuffixLink = SuffixLink(dest: nat)
  {
    function GetDestination(): (d: nat)
      ensures d == dest
    {
      dest
    }
  }

  /** A node: its id, an unused parent edge, its children keyed by first character, and at most one suffix link. */
  datatype Node = Node(id: nat, parentEdge: Option<Edge>, children: map<char, Edge>, suffixLink: Option<SuffixLink>)
  {
    function SetParent(edge: Edge): (n: Node)
      ensures n.GetParent() == Some(edge)
      ensures n.id == id && n.children == children && n.suffixLink == suffixLink
    {
      this.(parentEdge := Some(edge))
    }

    function GetParent(): (p: Option<Edge>)
      ensures p == parentEdge
    {
      parentEdge
    }

    /** Stores the edge under its own first character, replacing any edge already there. */
    function AddChild(edge: Edge): (n: Node)
      ensures n.children.Keys == children.Keys + {edge.id}
      ensures n.children[edge.id] == edge
      ensures forall k :: k in children && k != edge.id ==> n.children[k] == children[k]
      ensures n.id == id && n.parentEdge == parentEdge && n.suffixLink == suffixLink
    {
      this.(children := children[edge.GetId() := edge])
    }

    /** Deletes the entry under the edge's first character (Python's `del` needs it present). */
    function RemoveChild(edge: Edge): (n: Node)
      requires edge.id in children
      ensures n.children.Keys == children.Keys - {edge.id}
      ensures forall k :: k in n.children ==> n.children[k] == children[k]
      ensures n.id == id && n.parentEdge == parentEdge && n.suffixLink == suffixLink
    {
      this.(children := children - {edge.GetId()})
    }

    function GetChildren(): (kids: map<char, Edge>)
      ensures kids == children
    {
      children
    }

    /** Sets (or overwrites) the suffix link; nothing else changes. */
    function AddSuffixLink(link: SuffixLink): (n: Node)
      ensures n.HasSuffixLink() && n.GetSuffixLink() == Some(link)
      ensures n.id == id && n.parentEdge == parentEdge && n.children == children
    {
      this.(suffixLink := Some(link))
    }

    /** True exactly when the node holds a link. */
    predicate HasSuffixLink(): (has: bool)
      ensures has == suffixLink.Some?
    {
      suffixLink.Some?
    }

    function GetSuffixLink(): (l: Option<SuffixLink>)
      ensures l == suffixLink
    {
      suffixLink
    }
  }

  /** A freshly created node: no children, no parent edge, no suffix link. */
  function NewNode(id: nat): (n: Node)
    ensures n.id == id && n.children == map[]
    ensures !n.HasSuffixLink() && n.GetParent() == None
  {
    Node(id, None, map[], None)
  }

  /** Removing a child that was just added under a fresh key gives back the node as it was. */
  lemma RemoveChildUndoesAddChild(n: Node, e: Edge)
    requires e.id !in n.children
    ensures n.AddChild(e).RemoveChild(e) == n
  {
    assert n.AddChild(e).RemoveChild(e).children == n.children;
  }

  /** A second edge with the same first character replaces the first one. */
  lemma AddChildOverwrites(n: Node, e1: Edge, e2: Edge)
    requires e1.id == e2.id
    ensures n.AddChild(e1).AddChild(e2) == n.AddChild(e2)
  {
    assert n.AddChild(e1).AddChild(e2).children == n.AddChild(e2).children;
  }

  /**
   * HasSuffixLink is true exactly when AddSuffixLink has been applied: a new
   * node has no link, AddSuffixLink sets one, and no other node operation
   * touches it.
   */
  lemma HasSuffixLinkOnlyAfterAdd(n: Node, e: Edge, link: SuffixLink, id: nat)
    ensures !NewNode(id).HasSuffixLink()
    ensures n.AddSuffixLink(link).HasSuffixLink()
    ensures n.AddChild(e).HasSuffixLink() == n.HasSuffixLink()
    ensures e.id in n.children ==> n.RemoveChild(e).HasSuffixLink() == n.HasSuffixLink()
    ensures n.SetParent(e).HasSuffixLink() == n.HasSuffixLink()
  {
  }
}
