/**
 Level-order (breadth-first) traversal (class `LevelOrderIter` of
 anytree/iterators.py): nodes by increasing depth; within one depth, in the
 order their parents were visited, each parent's children in their own order.

 The reference order is stated on depths alone: the levels `Level(t, 0)`,
 `Level(t, 1)`, ... up to the height, concatenated. The source's loop, which
 builds each next level from the children of the current one, is proved to
 produce it.
 */
module LevelOrder {
  import opened Trees

  /** The levels of `t` from depth `d` to its height, concatenated by increasing depth. */
  function LevelsFrom(t: Tree, d: nat): seq<Tree>
    decreases Height(t) + 1 - d
  {
    if d > Height(t) then [] else Level(t, d) + LevelsFrom(t, d + 1)
  }

  /** Reference level order: every level of the tree, shallowest first. */
  function LevelOrder(t: Tree): seq<Tree>
  {
    LevelsFrom(t, 0)
  }

  lemma {:induction false} LevelsFromNames(t: Tree, d: nat)
    ensures multiset(Names(LevelsFrom(t, d))) == ForestNameBag(Level(t, d))
    decreases Height(t) + 1 - d
  {
    if d <= Height(t) {
      var level, deeper := Level(t, d), LevelsFrom(t, d + 1);
      assert multiset(Names(LevelsFrom(t, d))) == multiset(Names(level)) + multiset(Names(deeper)) by {
        assert LevelsFrom(t, d) == level + deeper;
        NamesAppend(level, deeper);
      }
      assert multiset(Names(deeper)) == ForestNameBag(ChildrenOf(level)) by {
        LevelsFromNames(t, d + 1);
        LevelSucc(t, d);
      }
      ForestNameBagSplit(level);
    } else {
      LevelNonEmpty(t, d);
    }
  }

  /** Level order emits every node of the tree exactly once. */
  lemma LevelOrderComplete(t: Tree)
    ensures multiset(Names(LevelOrder(t))) == NameBag(t)
    ensures |LevelOrder(t)| == Size(t)
  {
    LevelsFromNames(t, 0);
    LevelRoot(t);
    assert ForestNameBag([t]) == NameBag(t) by {
      assert [t][1..] == [];
    }
    NameBagSize(t);
    assert |multiset(Names(LevelOrder(t)))| == |LevelOrder(t)|;
  }

  /**
   Level order starts with the root, then the root's children in order; a
   root without children yields the root alone.
   */
  lemma LevelOrderStart(t: Tree)
    ensures |LevelOrder(t)| >= 1 + |t.children|
    ensures LevelOrder(t)[..1] == [t]
    ensures t.children != [] ==> LevelOrder(t)[1..1 + |t.children|] == t.children
    ensures t.children == [] <==> LevelOrder(t) == [t]
  {
    LevelRoot(t);
    LevelNonEmpty(t, 1);
    assert LevelOrder(t) == [t] + LevelsFrom(t, 1);
    if t.children != [] {
      assert LevelsFrom(t, 1) == t.children + LevelsFrom(t, 2);
    } else {
      assert LevelsFrom(t, 1) == [];
    }
  }

  /** The level-order iterator bound to one root (anytree's `LevelOrderIter`). */
  class LevelOrderIter {
    const node: Tree

    constructor (node: Tree)
      ensures this.node == node
    {
      this.node := node;
    }

    /**
     One full traversal: emit the root; then, while the current level is not
     empty, emit its nodes in order while collecting their children as the
     next level.
     */
    method Iterate() returns (out: seq<Tree>)
      ensures out == LevelOrder(node)
      ensures out[0] == node
      ensures |out| == Size(node) && multiset(Names(out)) == NameBag(node)
    {
      out := [node];
      var children := node.children;
      ghost var depth: nat := 1;
      LevelRoot(node);
      while children != []
        invariant 1 <= depth <= Height(node) + 1
        invariant children == Level(node, depth)
        invariant out + LevelsFrom(node, depth) == LevelOrder(node)
        decreases Height(node) + 1 - depth
      {
        LevelNonEmpty(node, depth);
        ghost var before := out;
        var nextChildren: seq<Tree> := [];
        for i := 0 to |children|
          invariant out == before + children[..i]
          invariant nextChildren == ChildrenOf(children[..i])
        {
          out := out + [children[i]];
          assert children[..i + 1] == children[..i] + [children[i]];
          ChildrenOfAppend(children[..i], [children[i]]);
          assert ChildrenOf([children[i]]) == children[i].children + ChildrenOf([]);
          nextChildren := nextChildren + children[i].children;
        }
        assert children[..|children|] == children;
        LevelSucc(node, depth);
        children := nextChildren;
        depth := depth + 1;
      }
      LevelNonEmpty(node, depth);
      LevelOrderComplete(node);
    }
  }
}
