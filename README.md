# PySuffixTree in Dafny

A model of PySuffixTree, a suffix-tree builder in the style of Ukkonen's
on-line construction. It has two parts.

- **Building blocks** (`tree_parts.dfy`, module `TreeParts`):
  - the `SharedCounter`, the single "current end" that every open edge reads as its stop;
  - `Edge`, a half-open `[start, stop)` range into the target string whose stop is `Fixed(at)` or `Open`;
  - `SuffixLink`;
  - `Node`, which holds its children keyed by first character and at most one suffix link.
- **Construction engine** (`suffix_tree.dfy`, module `SuffixTrees`): the class `SuffixTree`.
  - Its fields are the counter, the remainder, the active point, the latest node, the nodes and the target.
  - Its methods `BuildTree`, `SplitEdge` and `MoveDown` change those fields in place, as the Python methods do.
  - The per-character body of `buildTree` is split across the helper methods `ProcessChar`, `FollowExistingChild`, `SplitAndAddLeaf` and `SplitOnce`.
  - `splitEdge` is split across `AddSplitNode` and `UpdateActivePoint`.
  - On normal completion, every method is proved to leave `State()`, the snapshot of the fields, exactly as a pure function of `ConstructionSpec` computes from the old state. When an exception is raised, the methods state the exception and that the tree stays well formed (see "## Left out").
- **Specification** (`construction_spec.dfy`, module `ConstructionSpec`): those pure functions. It also holds the invariant `WellFormed`:
  - the node list is non-empty;
  - node `i` has id `i`;
  - each child is keyed by its own id;
  - every destination and suffix link is an index into the node list.
- **Properties** (`construction_properties.dfy`, module `ConstructionProperties`):
  - the exact shape a split produces;
  - what one character does in each branch;
  - inductive facts about a whole build: the counter, the remainder and the growth of the node list.

Representation:
- **Nodes** live in a sequence indexed by node id, and the root is node 0 (`Root`).
- **References.** An edge's destination and a suffix link's destination are node ids.
- **Edges** are values: every edge object sits in exactly one parent's child dict.
- **The shared counter.** An edge whose stop is the shared counter is `Open`, and its stop resolves to the counter's value.
- **Exceptions.** The Python exceptions the construction can raise are modelled as results:
  - a `KeyError` when the active edge is missing;
  - an `IndexError` when an index falls outside the target, with Python's negative indices wrapping from the end.
  - The specification functions return `Result`, and the methods return `Outcome`.

The model follows the code where it departs from textbook Ukkonen:
- the split loop breaks at once on the character `'$'`;
- the split loop runs while `remainder > 1`, not `> 0`;
- the remainder rises only when the character is already present;
- after a match, the length is measured on the edge under the new character, but the descent follows the edge under the active edge;
- the offcut of a split edge is always open, even when the split edge had a fixed stop;
- the only suffix links ever made go from one split node to the next split node of the same step. No link is made from the latest node to the active node, neither when the leaf is added after the split loop (line 273) nor on a match;
- when the offcut and the new leaf start with the same character, the leaf replaces the offcut in the new node's child map;
- the leaf added after the split loop (line 273) replaces any edge the post-split active node already has under the character. For example, on `"aabcaac"` at position 6 the split loop moves the active node from node 1 to the root, and the root's leaf under `'c'` (start 3) is replaced by a leaf starting at 6. So no node is removed and no child key is lost, but an edge may be replaced under its key.

## Model

| member | source | states |
|---|---|---|
| TreeParts.SharedCounter.constructor | PySuffixTree.py:23-24 | the counter starts at the given value |
| TreeParts.SharedCounter.NextVal | PySuffixTree.py:29-30 | the counter rises by exactly one |
| TreeParts.SharedCounter.GetVal | PySuffixTree.py:26-27 | returns the counter's current value |
| TreeParts.Edge.GetId | PySuffixTree.py:132-136 | returns the first character the edge was built with, the key it is stored under |
| TreeParts.Edge.GetDestination | PySuffixTree.py:144-148 | returns the destination the edge was built with or last given (None for a leaf) |
| TreeParts.Edge.SetDestination | PySuffixTree.py:138-142 | the destination becomes the given node; id, start and stop are unchanged |
| TreeParts.Edge.SetBound | PySuffixTree.py:150-155 | a given start replaces the start and the stop is then ignored; otherwise a given stop replaces the stop; with neither the edge is unchanged; id and destination never change |
| TreeParts.Edge.GetLength | PySuffixTree.py:157-166 | the resolved stop minus the start: the counter minus the start for an open edge, the fixed stop minus the start otherwise |
| TreeParts.Edge.GetSuffix | PySuffixTree.py:168-177 | the pair is (start, resolved stop); the resolved stop is the counter for an open edge and the fixed index otherwise; the pair's span equals GetLength |
| TreeParts.LengthAfterNextVal | PySuffixTree.py:157-166 | advancing the counter lengthens an open edge by one and leaves a fixed edge's length unchanged |
| TreeParts.FreshLeafIsEmpty | PySuffixTree.py:272 | a leaf created at the current position has length 0, and length 1 after the next advance |
| TreeParts.SuffixLink.GetDestination | PySuffixTree.py:193-197 | returns the node the link was built with |
| TreeParts.Node.SetParent | PySuffixTree.py:55-65 | GetParent returns the edge just set; the other fields are unchanged |
| TreeParts.Node.GetParent | PySuffixTree.py:61-65 | returns the node's parent edge (None until set) |
| TreeParts.Node.AddChild | PySuffixTree.py:67-71 | the edge is stored under its first character, replacing any edge there; the other keys and fields are unchanged |
| TreeParts.Node.RemoveChild | PySuffixTree.py:73-78 | only the edge's key is deleted; the key must be present, as Python's `del` demands |
| TreeParts.Node.GetChildren | PySuffixTree.py:80-84 | returns the node's whole child map |
| TreeParts.Node.AddSuffixLink | PySuffixTree.py:86-104 | afterwards HasSuffixLink holds and GetSuffixLink returns the link; the other fields are unchanged |
| TreeParts.Node.HasSuffixLink | PySuffixTree.py:93-97 | true exactly when the node holds a link |
| TreeParts.Node.GetSuffixLink | PySuffixTree.py:100-104 | returns the node's link (None when it has none) |
| TreeParts.NewNode | PySuffixTree.py:42-46 | a new node has the given id, no children, no parent edge and no suffix link |
| TreeParts.RemoveChildUndoesAddChild | PySuffixTree.py:67-78 | removing an edge just added under a fresh key gives back the original node |
| TreeParts.AddChildOverwrites | PySuffixTree.py:67-71 | adding two edges with the same key is the same as adding only the second |
| TreeParts.HasSuffixLinkOnlyAfterAdd | PySuffixTree.py:86-97 | a new node has no link; AddSuffixLink sets one; AddChild, RemoveChild and SetParent never change whether a link exists |
| ConstructionSpec.InitialState | PySuffixTree.py:205-219 | a fresh tree is well formed: counter at -1, remainder 0, only a childless, unlinked root, active point and latest node at the root, empty target |
| ConstructionSpec.MoveDownSpec | PySuffixTree.py:283-299 | an edge with a destination resets the active point to (destination, None, 0); a leaf edge changes nothing; well-formedness is kept |
| ConstructionSpec.PyIndexWraps | PySuffixTree.py:324-340 | Python string indexing raises exactly outside [-len, len) and otherwise reads the index modulo the length |
| ConstructionSpec.CanSplit | PySuffixTree.py:265-340 | true exactly when the split raises nothing: the active edge is a child of the parent (line 266), and the target can be indexed at the cut (324), at the current position (330) and, from the root, at the new active edge (340) |
| ConstructionSpec.BranchNode | PySuffixTree.py:312-331 | the new node has the next id and no link; its keys are exactly the offcut's and the leaf's; the leaf is stored; the offcut is stored when its key differs |
| ConstructionSpec.LinkLatest | PySuffixTree.py:313-315 | when the flag holds, the latest node links to the new node; no other link, id or child map changes |
| ConstructionSpec.CutEdge | PySuffixTree.py:317-322 | the split edge keeps its id and start, stops at start + index and leads to the new node |
| ConstructionSpec.SplitArena | PySuffixTree.py:312-333 | the split appends exactly one node, and the arena stays well formed with that node as the latest |
| ConstructionSpec.ActivePointAfterSplit | PySuffixTree.py:334-348 | from the root: the active length drops by one and the active edge is re-read from the target at pos - length; elsewhere: the active node follows its suffix link, or falls back to the root; nothing else changes |
| ConstructionSpec.SplitEdgeSpec | PySuffixTree.py:302-348 | the node list is the split arena and the new node is the latest; counter, remainder and target are kept; the active point moves as after a split, reading the suffix link as it is after the split |
| ConstructionSpec.SplitOnceSpec | PySuffixTree.py:265-269 | KeyError exactly when the active edge is missing; success exactly when the split can run without an exception; on success one node is added and the remainder drops by one |
| ConstructionSpec.SplitAllSpec | PySuffixTree.py:262-269 | on success the remainder ends at 1 (when it was above 1), exactly remainder - 1 nodes are added, counter and target are kept, and the tree stays well formed |
| ConstructionSpec.AddLeafSpec | PySuffixTree.py:270-273 | exactly one open leaf keyed by the character, starting at the current position, is added to the active node; every other node and field is unchanged |
| ConstructionSpec.ExistingChildSpec | PySuffixTree.py:251-259 | the only error is KeyError; on success only the remainder (+1) and the active point change |
| ConstructionSpec.MissingChildSpec | PySuffixTree.py:260-273 | on success the tree is well formed, the node list never shrinks, counter and target are kept, and the remainder drops to 1 unless the sentinel broke the loop |
| ConstructionSpec.StepSpec | PySuffixTree.py:245-273 | one character advances the counter by exactly one, keeps the target, never removes nodes, and keeps the remainder at least 1 |
| ConstructionSpec.RunSpec | PySuffixTree.py:245-273 | a run over a string keeps the tree well formed and the target unchanged |
| ConstructionSpec.BuildTreeSpec | PySuffixTree.py:241-273 | buildTree leaves a well-formed tree whose target is the input |
| ConstructionProperties.SplitCutsEdge | PySuffixTree.py:317-322 | the split edge keeps its key, stops at start + index and leads to the new node; every other child edge of every node is unchanged |
| ConstructionProperties.SplitBranchNode | PySuffixTree.py:312-331 | the new node has id len(nodes) and no link; its children are an open offcut keyed target[start+index] with the old destination and an open leaf keyed target[pos] starting at pos |
| ConstructionProperties.SplitLinksOnlyLatest | PySuffixTree.py:313-315 | only the previous latest node's link can change, and only when the flag holds; it then leads to the new node |
| ConstructionProperties.RunAdvancesPosition | PySuffixTree.py:245-247 | a successful run over s advances the counter by exactly the length of s |
| ConstructionProperties.RunKeepsRemainderPositive | PySuffixTree.py:244-269 | once the remainder is at least 1, it never falls below 1 during a run |
| ConstructionProperties.SplitOnceKeepsKeys | PySuffixTree.py:265-269 | one pass of the split loop removes no child key from any existing node |
| ConstructionProperties.SplitAllKeepsKeys | PySuffixTree.py:262-269 | the whole split loop removes no child key from any existing node |
| ConstructionProperties.AddLeafKeepsKeys | PySuffixTree.py:270-273 | adding the leaf removes no child key from any node |
| ConstructionProperties.MissingChildKeepsKeys | PySuffixTree.py:260-273 | the branch for a new character removes no child key from any existing node |
| ConstructionProperties.StepKeepsKeys | PySuffixTree.py:245-273 | one character removes no child key from any existing node |
| ConstructionProperties.RunOnlyGrowsArena | PySuffixTree.py:245-273 | across a run the node list never shrinks, and every existing node keeps all its child keys: no node is removed and no child key is lost (an edge may be replaced under its key) |
| ConstructionProperties.BuildFromFreshTree | PySuffixTree.py:205-247 | from a fresh tree, after k characters the counter is k - 1, the remainder is at least 1, and every open edge resolves its stop to k - 1 |
| ConstructionProperties.StepOnExistingChild | PySuffixTree.py:251-259 | no node or edge is created; the remainder rises by one; the active length rises by one or the active point moves down; KeyError exactly when the descent edge is missing |
| ConstructionProperties.StepOnNewChar | PySuffixTree.py:260-273 | the split loop's outcome decides the step's outcome; remainder - 1 nodes are added; exactly one open leaf keyed by the character is added to the post-split active node, and no other node changes |
| ConstructionProperties.SentinelBreaksSplitLoop | PySuffixTree.py:262-263 | '$' with more than one suffix pending changes nothing but the counter, and adds no leaf |
| ConstructionProperties.UnlinkedPass | PySuffixTree.py:313-315 | a pass of the split loop with the flag off changes the latest node's link not at all and makes its new node the latest |
| ConstructionProperties.LinkedPass | PySuffixTree.py:313-315 | a pass of the split loop with the flag on links the latest node to the node it creates |
| ConstructionProperties.SplitLinksPreviousSplit | PySuffixTree.py:246-269 | with more than two suffixes pending, the loop's first pass leaves the latest node's link alone and makes the new node the latest; the loop then makes a second pass, and that pass links the first pass's node to the node it creates |
| SuffixTrees.SuffixTree.constructor | PySuffixTree.py:205-219 | a new tree's state is the initial state, with a fresh counter |
| SuffixTrees.SuffixTree.MoveDown | PySuffixTree.py:283-299 | the new state is MoveDownSpec of the old one, and the tree stays well formed |
| SuffixTrees.SuffixTree.SplitEdge | PySuffixTree.py:302-348 | the new state is SplitEdgeSpec of the old one, and the tree stays well formed |
| SuffixTrees.SuffixTree.AddSplitNode | PySuffixTree.py:312-333 | the node list becomes SplitArena of the old state and the new node becomes the latest; nothing else changes |
| SuffixTrees.SuffixTree.UpdateActivePoint | PySuffixTree.py:334-348 | the new state is ActivePointAfterSplit of the old one |
| SuffixTrees.SuffixTree.SplitOnce | PySuffixTree.py:265-269 | the outcome and the new state are those of SplitOnceSpec |
| SuffixTrees.SuffixTree.FollowExistingChild | PySuffixTree.py:251-259 | the outcome and the new state are those of ExistingChildSpec |
| SuffixTrees.SuffixTree.SplitAndAddLeaf | PySuffixTree.py:260-273 | the outcome and the new state are those of MissingChildSpec |
| SuffixTrees.SuffixTree.ProcessChar | PySuffixTree.py:245-273 | the outcome and the new state are those of StepSpec |
| SuffixTrees.SuffixTree.BuildTree | PySuffixTree.py:241-273 | the outcome and the new state are those of BuildTreeSpec; on completion the counter has advanced by len(s), the remainder is at least 1, and the target is s |

## Left out

- `__str__` of Node, Edge, SuffixLink and SuffixTree, and the `debug` prints in buildTree: output formatting with no effect on the tree.
- The fields `edge_cnt`, `edges`, `link` and `active_len`: the construction never reads them.
- `parent_edge`: kept in `Node` with `SetParent` and `GetParent`, but the construction never sets it.
- SuffixTrees.SuffixTree.SplitOnce: a split that raises differs from Python.
  - In the model, a split that raises `IndexError` leaves the tree unchanged and well formed.
  - Python has by then linked the latest node (lines 313-315) and cut the edge to point at the new node (lines 321-322).
  - When the `IndexError` comes from line 324 or line 330, Python raises before line 332 appends the new node. The tree is left with a destination outside the node list, which the model's invariant rules out. One input that reaches this: `buildTree("aa")` and then `buildTree("ab")` on the same tree.
  - When it comes from line 340, Python has already appended the new node (line 332), made it the latest node (line 333) and lowered the active length (line 337). Its tree is then well formed, with one node more than the model's, and the remainder is not lowered. One input that reaches this: `buildTree("c$a$ab$caba")` on a fresh tree. At the last character, the fourth pass of the split loop is at the root with active length 0. It splits the root's `'a'` edge at index 0, and line 340 then reads `target[11]`.
- SuffixTrees.SuffixTree.SplitAndAddLeaf: on an exception the contract states only the exception and that the tree stays well formed. A split that raises leaves the state that SplitOnce leaves, not Python's partly changed tree.
- SuffixTrees.SuffixTree.ProcessChar: on an exception the contract states only the exception and that the tree stays well formed. The counter has already advanced, and a raising split leaves the state that SplitOnce leaves, not Python's partly changed tree.
- SuffixTrees.SuffixTree.BuildTree: on an exception the contract states only the exception and that the tree stays well formed. The characters before the failing one have been processed, and the failing one leaves the state ProcessChar leaves, not Python's partly changed tree.
- SuffixTrees.SuffixTree.FollowExistingChild: on the `KeyError` at line 259 the method has already raised the remainder and the active length, as Python has. The contract states only the exception and that the tree stays well formed.
- SuffixTrees.SuffixTree.SplitEdge: requires that the split raises nothing. The raising cases are modelled one level up, in SplitOnce.
- Object identity: nodes are arena entries and edges are values.
  - An edge shared between two dicts would be aliased in Python, but the code never shares one.
  - The shared counter is a single object that every open edge reads, modelled by the `Open` tag.
- `getLength` and `getSuffix` read the counter through the edge; their models take the counter's value as an argument.
- Whole-tree suffix-tree correctness (every suffix spelled by a root-to-leaf path, leaf counts): the code departs from Ukkonen's algorithm in the ways listed above, so this is not claimed.
- The exact text contents of edge labels: only the indices are modelled, not the characters they span.
