# anytree tree iterators, modelled in Dafny

This project models the four tree-walking strategies of anytree's
`anytree/iterators.py` and proves what they visit and in which order. It
covers `PreOrderIter`, `PostOrderIter`, `LevelOrderIter` and
`LevelGroupOrderIter`.

The traversals need only one thing from a node: its ordered, finite children.
A node is therefore the datatype `Tree = Node(name, children)` in `Trees.dfy`.
Because the datatype is inductive, every tree is finite and acyclic. Datatype
values compare structurally, so "each node once" is stated over the multiset of
node names: the names the doctests print with `[node.name for node in ...]`,
counted with multiplicity.

Each iterator class is a Dafny class. Its `const node` is set by the
constructor, which models `__init__`. Each `__iter__` becomes `Iterate`, which
returns the complete traversal instead of yielding it lazily:

- `PreOrderIter.Iterate` runs the source's frontier loop. It emits the head of
  the frontier and splices the head's children in front of the rest. It is
  proved equal to the recursive reference `PreOrder` (root, then each child's
  pre-order). The loop terminates because the total size of the frontier
  shrinks at every step.
- `PostOrderIter.Iterate` is a function, because the source's `__next` is plain
  recursion. `PostOrderNext` is that generator: for each child, the post-order
  of its children, then the child.
- `LevelOrderIter.Iterate` copies the nested loop: emit the root, then emit each
  level while collecting the next one. `LevelGroupOrderIter.Iterate` copies the
  group loop. Neither reference is built from that loop. Both are defined on
  depths: `Level(t, k)` is the nodes at depth `k`, left to right. The key
  lemma `ChildrenOfForestLevel` connects the two: the children of level `k`,
  concatenated in order, are exactly level `k + 1`.

No `Iterate` modifies anything, so two traversals from the same iterator give
the same result. This is the source's restartability. `Doctest.dfy` builds the
docstring tree f→{b,g}, b→{a,d}, d→{c,e}, g→{i}, i→{h} and proves the four
orders the docstrings print.

## Model

| member | source | states |
|---|---|---|
| PreOrder.PreOrderIter.constructor | anytree/iterators.py:45-46 | the iterator is bound to the given root |
| PreOrder.PreOrderIter.Iterate | anytree/iterators.py:48-53 | the frontier loop (emit head, replace it by its children in front of the rest) terminates and yields exactly the reference pre-order: the root first, every node once, as many nodes as the tree has |
| PreOrder.PreOrderComplete | anytree/iterators.py:48-53 | pre-order emits the tree's multiset of names, and its length is the tree size |
| PreOrder.PreOrderForestAppend | anytree/iterators.py:53 | the pre-order of spliced frontiers `a + b` is pre-order of `a` followed by pre-order of `b`, which is why splicing children in front keeps the order |
| PreOrder.PreOrderSubtree | anytree/iterators.py:48-53 | the node at any position i is followed, from i on, by exactly its own subtree's pre-order: a node precedes all its descendants, and an earlier sibling's subtree is finished before a later sibling |
| PostOrder.PostOrderIter.constructor | anytree/iterators.py:86-87 | the iterator is bound to the given root |
| PostOrder.PostOrderIter.Iterate | anytree/iterators.py:89-97 | the traversal from the root's one-element list emits every node once, ends with the root, and before it emits the post-order of the root's children |
| PostOrder.PostOrderShape | anytree/iterators.py:93-97 | post-order of one tree = the post-orders of its children's subtrees, concatenated in the children's order, then the tree's root |
| PostOrder.PostOrderNextIsPostOrdersOf | anytree/iterators.py:94-97 | the generator over a list of siblings equals each sibling's own post-order, concatenated in order |
| PostOrder.PostOrderNextAppend | anytree/iterators.py:94-97 | the generator over a concatenation of sibling lists is the concatenation of the generators: children are handled one after another, each subtree completely |
| PostOrder.PostOrderNextComplete | anytree/iterators.py:93-97 | the generator emits the multiset of names of the whole forest, as many nodes as the forest has |
| PostOrder.PostOrderNextSubtree | anytree/iterators.py:93-97 | the node at any position i is preceded, ending at i, by exactly its own subtree's post-order: every descendant comes strictly before the node |
| PostOrder.PostOrderIsReversedMirrorPreOrder | anytree/iterators.py:48-97 | the post-order names equal the reverse of the pre-order names of the mirrored tree (the two strategies agree by an independent route) |
| Trees.LevelRoot | anytree/iterators.py:134-136 | depth 0 is the root alone, depth 1 is the root's children in order |
| Trees.LevelSucc | anytree/iterators.py:138-142 | level k + 1 is the in-order concatenation of the children of the level-k nodes |
| Trees.ChildrenOfForestLevel | anytree/iterators.py:139-141 | in a forest, the children of the depth-k nodes, concatenated in encounter order, are the depth-(k+1) nodes |
| Trees.LevelNonEmpty | anytree/iterators.py:137 | a level is non-empty exactly when its depth is at most the tree's height, so the loop stops exactly at the first empty level |
| LevelOrder.LevelOrderIter.constructor | anytree/iterators.py:130-131 | the iterator is bound to the given root |
| LevelOrder.LevelOrderIter.Iterate | anytree/iterators.py:133-142 | the nested loop terminates and yields exactly level 0, level 1, … up to the height, concatenated in depth order; the root first, every node once |
| LevelOrder.LevelOrderComplete | anytree/iterators.py:133-142 | level order emits the tree's multiset of names, and its length is the tree size |
| LevelOrder.LevelOrderStart | anytree/iterators.py:133-137 | level order starts with the root and then its children in order; it is exactly `[root]` if and only if the root has no children |
| LevelGroupOrder.LevelGroupOrderIter.constructor | anytree/iterators.py:179-180 | the iterator is bound to the given root |
| LevelGroupOrder.LevelGroupOrderIter.Iterate | anytree/iterators.py:182-189 | the group loop terminates and yields exactly one group per depth; the first group is `[root]`, no group is empty, and the groups flatten to the level order |
| LevelGroupOrder.LevelGroupsShape | anytree/iterators.py:151-153 | there are height + 1 groups, group k is level k, the first is `[root]`, none is empty, group k+1 is the children of group k, and the last group has no children |
| LevelGroupOrder.FlattenLevelGroups | anytree/iterators.py:182-189 | concatenating the groups gives exactly the level order of the same root |
| Doctest.DoctestPreOrder | anytree/iterators.py:42-43 | on the docstring tree, pre-order names are f,b,a,d,c,e,g,i,h |
| Doctest.DoctestPostOrder | anytree/iterators.py:83-84 | on the docstring tree, post-order names are a,c,e,d,b,h,i,g,f |
| Doctest.DoctestLevels | anytree/iterators.py:165-174 | the docstring tree's levels are [f], [b,g], [a,d,i], [c,e,h], and its height is 3 |
| Doctest.DoctestLevelOrder | anytree/iterators.py:127-128 | on the docstring tree, level-order names are f,b,g,a,d,i,c,e,h |
| Doctest.DoctestLevelGroups | anytree/iterators.py:176-177 | on the docstring tree, the group names are [f],[b,g],[a,d,i],[c,e,h] |
| Doctest.DoctestIterators | anytree/iterators.py:21-43 | running the four iterator classes on the docstring tree gives the four orders their docstrings print |
| Doctest.SingleNode | anytree/iterators.py:48-189 | a root without children yields `[root]` from all three flat iterators and the single group `[[root]]` from the grouped one |

## Left out

- Laziness: each `yield` suspends a Python generator. The model returns each traversal's complete sequence, or sequence of groups, and does not model a cursor that stops partway.
- The `Node` class, `RenderTree` and `AsciiStyle` used in the docstrings are not part of this model. The fixture is built directly as a `Tree` value, and only `name` and `children` are modelled.
- Cyclic or infinite trees, and changes to the tree during a traversal: the source gives them no meaning, and an inductive datatype cannot express them.
- Concurrent traversals: there is no shared mutable state.
- `super().__init__()` and the unused import of `itertools.chain`: Python boilerplate with no effect on traversal order.
- Node identity: a source node is a Python object with its own identity, while the model identifies a node by its name and subtree. "Every node exactly once" is stated as equality of name multisets, which also holds when names repeat.
- PostOrder.PostOrderIter.Iterate: the source's recursive generator is modelled as a recursive function. Python's recursion-depth limit on very deep trees is not modelled.
