/**
 Level-grouped traversal (class `LevelGroupOrderIter` of
 anytree/iterators.py): one group per depth, each group the nodes of that
 depth in breadth-first order. The first group is the root alone and no
 group is empty.
 */
module LevelGroupOrder {
  import opened Trees
  import LevelOrder

  /** The levels of `t` from depth `d` to its height, one group per level. */
  function GroupsFrom(t: Tree, d: nat): seq<seq<Tree>>
    decreases Height(t) + 1 - d
  {
    if d > Height(t) then [] else [Level(t, d)] + GroupsFrom(t, d + 1)
  }

  /** Reference grouping: group k is the level at depth k, for every depth of the tree. */
  function LevelGroups(t: Tree): seq<seq<Tree>>
  {
    GroupsFrom(t, 0)
  }

  lemma {:induction false} GroupsFromAt(t: Tree, d: nat)
    requires d <= Height(t) + 1
    ensures |GroupsFrom(t, d)| == Height(t) + 1 - d
    ensures forall k :: 0 <= k < |GroupsFrom(t, d)| ==> GroupsFrom(t, d)[k] == Level(t, d + k)
    decreases Height(t) + 1 - d
  {
    if d <= Height(t) {
      GroupsFromAt(t, d + 1);
    }
  }

  /**
   The groups are the levels: there is one per depth up to the height, the
   first is the root alone, none is empty, each next group is the in-order
   concatenation of the children of the one before, and the children of the
   last group are none at all.
   */
  lemma {:induction false} LevelGroupsShape(t: Tree)
    ensures |LevelGroups(t)| == Height(t) + 1
    ensures LevelGroups(t)[0] == [t]
    ensures forall k :: 0 <= k < |LevelGroups(t)| ==> LevelGroups(t)[k] == Level(t, k) && LevelGroups(t)[k] != []
    ensures forall k :: 0 <= k < |LevelGroups(t)| - 1 ==> LevelGroups(t)[k + 1] == ChildrenOf(LevelGroups(t)[k])
    ensures ChildrenOf(LevelGroups(t)[Height(t)]) == []
  {
    var g := LevelGroups(t);
    GroupsFromAt(t, 0);
    assert g[0] == [t] by {
      LevelRoot(t);
    }
    forall k | 0 <= k < |g|
      ensures g[k] == Level(t, k) && g[k] != []
    {
      LevelNonEmpty(t, k);
    }
    forall k | 0 <= k < |g| - 1
      ensures g[k + 1] == ChildrenOf(g[k])
    {
      LevelSucc(t, k);
    }
    assert ChildrenOf(g[Height(t)]) == [] by {
      LevelSucc(t, Height(t));
      LevelNonEmpty(t, Height(t) + 1);
    }
  }

  lemma {:induction false} FlattenGroupsFrom(t: Tree, d: nat)
    ensures Flatten(GroupsFrom(t, d)) == LevelOrder.LevelsFrom(t, d)
    decreases Height(t) + 1 - d
  {
    if d <= Height(t) {
      FlattenGroupsFrom(t, d + 1);
      assert Flatten(GroupsFrom(t, d)) == Level(t, d) + Flatten(GroupsFrom(t, d + 1)) by {
        assert ([Level(t, d)] + GroupsFrom(t, d + 1))[1..] == GroupsFrom(t, d + 1);
      }
    }
  }

  /** Concatenating the groups gives exactly the level order of the same root. */
  lemma FlattenLevelGroups(t: Tree)
    ensures Flatten(LevelGroups(t)) == LevelOrder.LevelOrder(t)
  {
    FlattenGroupsFrom(t, 0);
  }

  /** The level-grouped iterator bound to one root (anytree's `LevelGroupOrderIter`). */
  class LevelGroupOrderIter {
    const node: Tree

    constructor (node: Tree)
      ensures this.node == node
    {
      this.node := node;
    }

    /**
     One full traversal: the current group starts as the root alone; while it
     is not empty, emit it and replace it by its nodes' children, concatenated
     in order.
     */
    method Iterate() returns (groups: seq<seq<Tree>>)
      ensures groups == LevelGroups(node)
      ensures groups[0] == [node]
      ensures forall k :: 0 <= k < |groups| ==> groups[k] != []
      ensures Flatten(groups) == LevelOrder.LevelOrder(node)
    {
      groups := [];
      var children := [node];
      ghost var depth: nat := 0;
      LevelRoot(node);
      while children != []
        invariant depth <= Height(node) + 1
        invariant children == Level(node, depth)
        invariant groups + GroupsFrom(node, depth) == LevelGroups(node)
        decreases Height(node) + 1 - depth
      {
        LevelNonEmpty(node, depth);
        groups := groups + [children];
        var nextChildren: seq<Tree> := [];
        for i := 0 to |children|
          invariant nextChildren == ChildrenOf(children[..i])
        {
          assert children[..i + 1] == children[..i] + [children[i]];
          ChildrenOfAppend(children[..i], [children[i]]);
          assert ChildrenOf([children[i]]) == children[i].children + ChildrenOf([]);
          nextChildren := nextChildren + children[i].children;
        }
        assert children[..|children|] == children;
        LevelSucc(node, depth);
        children := nextChildren;
        depth := depth + 1;
      }
      LevelNonEmpty(node, depth);
      LevelGroupsShape(node);
      FlattenLevelGroups(node);
    }
  }
}
