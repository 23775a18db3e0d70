/**
 Post-order traversal (class `PostOrderIter` of anytree/iterators.py): every
 node is emitted after all of its descendants, and siblings keep their order.

 The source drives a recursive generator over a list of children; here that
 generator is the pure function `PostOrderNext`, and a traversal from a root
 is `PostOrderNext([root])`.
 */
module PostOrder {
  import opened Trees
  import PreOrder

  /**
   The generator over a sequence of siblings: for each child in turn, the
   post-order of the child's own children, then the child itself.
   */
  function PostOrderNext(children: seq<Tree>): seq<Tree>
  {
    if children == [] then []
    else PostOrderNext(children[0].children) + [children[0]] + PostOrderNext(children[1..])
  }

  /**
   The generator over a concatenation of sibling lists is the concatenation
   of the generators over each: the post-order of a forest is the post-order
   of each of its trees in turn.
   */
  lemma {:induction false} PostOrderNextAppend(a: seq<Tree>, b: seq<Tree>)
    ensures PostOrderNext(a + b) == PostOrderNext(a) + PostOrderNext(b)
  {
    if a == [] {
      assert a + b == b;
    } else {
      assert (a + b)[1..] == a[1..] + b;
      assert (a + b)[0] == a[0];
      PostOrderNextAppend(a[1..], b);
    }
  }

  /** One step of the generator on a one-element list: the children's generator, then the node. */
  lemma PostOrderUnfold(t: Tree)
    ensures PostOrderNext([t]) == PostOrderNext(t.children) + [t]
  {
  }

  /** The post-orders of the trees of a forest, each started on its own root, concatenated in order. */
  function PostOrdersOf(cs: seq<Tree>): seq<Tree>
  {
    if cs == [] then [] else PostOrderNext([cs[0]]) + PostOrdersOf(cs[1..])
  }

  /** The generator over a list of siblings is the concatenation of each sibling's own post-order. */
  lemma {:induction false} PostOrderNextIsPostOrdersOf(cs: seq<Tree>)
    ensures PostOrderNext(cs) == PostOrdersOf(cs)
  {
    if cs != [] {
      assert cs == [cs[0]] + cs[1..];
      PostOrderNextAppend([cs[0]], cs[1..]);
      PostOrderNextIsPostOrdersOf(cs[1..]);
    }
  }

  /**
   The post-order of one tree is the post-order of each child's subtree, in
   the children's order, then the root.
   */
  lemma {:induction false} PostOrderShape(t: Tree)
    ensures PostOrderNext([t]) == PostOrdersOf(t.children) + [t]
  {
    PostOrderUnfold(t);
    PostOrderNextIsPostOrdersOf(t.children);
  }

  /** Post-order emits every node of the forest exactly once. */
  lemma {:induction false} PostOrderNextComplete(children: seq<Tree>)
    ensures multiset(Names(PostOrderNext(children))) == ForestNameBag(children)
    ensures |PostOrderNext(children)| == ForestSize(children)
  {
    PostOrderNextNames(children);
    ForestNameBagSize(children);
    assert |multiset(Names(PostOrderNext(children)))| == |PostOrderNext(children)|;
  }

  lemma {:induction false} PostOrderNextNames(children: seq<Tree>)
    ensures multiset(Names(PostOrderNext(children))) == ForestNameBag(children)
  {
    if children != [] {
      var c := children[0];
      var below, rest := PostOrderNext(c.children), PostOrderNext(children[1..]);
      var names := Names(below) + [c.name] + Names(rest);
      assert Names(PostOrderNext(children)) == names by {
        assert PostOrderNext(children) == below + [c] + rest;
        NamesAppend(below, [c]);
        NamesAppend(below + [c], rest);
      }
      assert multiset(names) == ForestNameBag(children) by {
        PostOrderNextNames(c.children);
        PostOrderNextNames(children[1..]);
      }
    }
  }

  /**
   Every node emitted at position i is preceded, ending at i, by exactly its
   own post-order: all of its descendants come before it, together and
   after anything before its subtree.
   */
  lemma {:induction false} PostOrderNextSubtree(children: seq<Tree>, i: nat)
    requires i < |PostOrderNext(children)|
    ensures |PostOrderNext([PostOrderNext(children)[i]])| <= i + 1
    ensures PostOrderNext(children)[i + 1 - |PostOrderNext([PostOrderNext(children)[i]])|..i + 1]
         == PostOrderNext([PostOrderNext(children)[i]])
    decreases children
  {
    var c := children[0];
    var below, rest := PostOrderNext(c.children), PostOrderNext(children[1..]);
    var f := PostOrderNext(children);
    assert f == below + [c] + rest;
    PostOrderUnfold(c);
    if i < |below| {
      PostOrderNextSubtree(c.children, i);
      var n := |PostOrderNext([below[i]])|;
      assert f[i] == below[i];
      assert f[i + 1 - n..i + 1] == below[i + 1 - n..i + 1];
    } else if i == |below| {
      assert f[i] == c;
      assert f[0..i + 1] == below + [c];
    } else {
      var j := i - |below| - 1;
      PostOrderNextSubtree(children[1..], j);
      var n := |PostOrderNext([rest[j]])|;
      assert f[i] == rest[j];
      assert f[i + 1 - n..i + 1] == rest[j + 1 - n..j + 1];
    }
  }

  /**
   Post-order is pre-order run backwards on the mirror image: reversing the
   pre-order names of the tree with every children sequence reversed gives
   the post-order names.
   */
  lemma {:induction false} PostOrderIsReversedMirrorPreOrder(t: Tree)
    ensures Names(PostOrderNext([t])) == Reverse(Names(PreOrder.PreOrder(Mirror(t))))
  {
    PostOrderNextMirror([t]);
    assert MirrorForest([t]) == [Mirror(t)] by {
      assert [t][1..] == [];
    }
    assert PreOrder.PreOrderForest([Mirror(t)]) == PreOrder.PreOrder(Mirror(t)) by {
      assert [Mirror(t)][1..] == [];
    }
  }

  lemma {:induction false} PostOrderNextMirror(children: seq<Tree>)
    ensures Names(PostOrderNext(children))
         == Reverse(Names(PreOrder.PreOrderForest(MirrorForest(children))))
    decreases children
  {
    if children != [] {
      var c, rest := children[0], children[1..];
      PostOrderNextMirror(c.children);
      PostOrderNextMirror(rest);
      var mc, pc := PreOrder.PreOrderForest(MirrorForest(c.children)), PreOrder.PreOrderForest(MirrorForest(rest));
      // the mirrored forest is the mirrored rest followed by the mirrored first child
      PreOrder.PreOrderForestAppend(MirrorForest(rest), [Mirror(c)]);
      assert PreOrder.PreOrderForest([Mirror(c)]) == [Mirror(c)] + mc by {
        assert [Mirror(c)][1..] == [];
      }
      var pre := pc + ([Mirror(c)] + mc);
      assert PreOrder.PreOrderForest(MirrorForest(children)) == pre;
      NamesAppend(pc, [Mirror(c)] + mc);
      NamesAppend([Mirror(c)], mc);
      ReverseAppend(Names(pc), Names([Mirror(c)]) + Names(mc));
      ReverseAppend(Names([Mirror(c)]), Names(mc));
      assert Reverse(Names([Mirror(c)])) == [c.name];
      NamesAppend(PostOrderNext(c.children), [c]);
      NamesAppend(PostOrderNext(c.children) + [c], PostOrderNext(rest));
    }
  }

  /** The post-order iterator bound to one root (anytree's `PostOrderIter`). */
  class PostOrderIter {
    const node: Tree

    constructor (node: Tree)
      ensures this.node == node
    {
      this.node := node;
    }

    /** One full traversal: the generator started on the one-element list holding the root. */
    function Iterate(): (r: seq<Tree>)
      ensures |r| == Size(node) && multiset(Names(r)) == NameBag(node)
      ensures r[|r| - 1] == node && r[..|r| - 1] == PostOrderNext(node.children)
    {
      PostOrderUnfold(node);
      PostOrderNextComplete([node]);
      assert ForestSize([node]) == Size(node) && ForestNameBag([node]) == NameBag(node) by {
        assert [node][1..] == [];
      }
      PostOrderNext([node])
    }
  }
}
