/**
 Pre-order traversal (class `PreOrderIter` of anytree/iterators.py): a node
 is emitted before its descendants, and the subtree of an earlier sibling is
 emitted in full before a later sibling.

 `PreOrder` is the recursive reference order; `PreOrderIter.Iterate` is the
 source's frontier loop, proved to produce exactly that order.
 */
module PreOrder {
  import opened Trees

  /** Reference pre-order: the root, then the pre-order of each child, in order. */
  function PreOrder(t: Tree): seq<Tree>
  {
    [t] + PreOrderForest(t.children)
  }

  /** The pre-orders of the trees of a forest, concatenated in order. */
  function PreOrderForest(ts: seq<Tree>): seq<Tree>
  {
    if ts == [] then [] else PreOrder(ts[0]) + PreOrderForest(ts[1..])
  }

  lemma {:induction false} PreOrderForestAppend(a: seq<Tree>, b: seq<Tree>)
    ensures PreOrderForest(a + b) == PreOrderForest(a) + PreOrderForest(b)
  {
    if a == [] {
      assert a + b == b;
    } else {
      assert (a + b)[1..] == a[1..] + b;
      PreOrderForestAppend(a[1..], b);
    }
  }

  /** Pre-order emits every node of the tree exactly once. */
  lemma {:induction false} PreOrderComplete(t: Tree)
    ensures multiset(Names(PreOrder(t))) == NameBag(t)
    ensures |PreOrder(t)| == Size(t)
  {
    PreOrderForestComplete(t.children);
    NamesAppend([t], PreOrderForest(t.children));
  }

  lemma {:induction false} PreOrderForestComplete(ts: seq<Tree>)
    ensures multiset(Names(PreOrderForest(ts))) == ForestNameBag(ts)
    ensures |PreOrderForest(ts)| == ForestSize(ts)
  {
    if ts != [] {
      PreOrderComplete(ts[0]);
      PreOrderForestComplete(ts[1..]);
      NamesAppend(PreOrder(ts[0]), PreOrderForest(ts[1..]));
    }
  }

  /**
   Every node emitted at position i is followed, starting at i, by exactly
   its own pre-order: a node comes before all of its descendants, and they
   are emitted together before anything outside its subtree.
   */
  lemma {:induction false} PreOrderSubtree(t: Tree, i: nat)
    requires i < |PreOrder(t)|
    ensures i + |PreOrder(PreOrder(t)[i])| <= |PreOrder(t)|
    ensures PreOrder(t)[i..i + |PreOrder(PreOrder(t)[i])|] == PreOrder(PreOrder(t)[i])
    decreases t
  {
    if i > 0 {
      var f := PreOrderForest(t.children);
      assert PreOrder(t)[i] == f[i - 1];
      PreOrderForestSubtree(t.children, i - 1);
      var n := |PreOrder(f[i - 1])|;
      assert PreOrder(t)[i..i + n] == f[i - 1..i - 1 + n];
    }
  }

  lemma {:induction false} PreOrderForestSubtree(ts: seq<Tree>, i: nat)
    requires i < |PreOrderForest(ts)|
    ensures i + |PreOrder(PreOrderForest(ts)[i])| <= |PreOrderForest(ts)|
    ensures PreOrderForest(ts)[i..i + |PreOrder(PreOrderForest(ts)[i])|] == PreOrder(PreOrderForest(ts)[i])
    decreases ts
  {
    var first, rest := PreOrder(ts[0]), PreOrderForest(ts[1..]);
    var f := PreOrderForest(ts);
    assert f == first + rest;
    if i < |first| {
      PreOrderSubtree(ts[0], i);
      var n := |PreOrder(first[i])|;
      assert f[i] == first[i];
      assert f[i..i + n] == first[i..i + n];
    } else {
      var j := i - |first|;
      PreOrderForestSubtree(ts[1..], j);
      var n := |PreOrder(rest[j])|;
      assert f[i] == rest[j];
      assert f[i..i + n] == rest[j..j + n];
    }
  }

  /** The pre-order iterator bound to one root (anytree's `PreOrderIter`). */
  class PreOrderIter {
    const node: Tree

    constructor (node: Tree)
      ensures this.node == node
    {
      this.node := node;
    }

    /**
     One full traversal: the frontier starts as the root alone; its head is
     emitted and replaced by its own children, until the frontier is empty.
     The loop ends because the frontier holds fewer nodes in all after each step.
     */
    method Iterate() returns (out: seq<Tree>)
      ensures out == PreOrder(node)
      ensures out[0] == node
      ensures |out| == Size(node) && multiset(Names(out)) == NameBag(node)
    {
      out := [];
      var stack := [node];
      while stack != []
        invariant out + PreOrderForest(stack) == PreOrder(node)
        decreases ForestSize(stack)
      {
        var head := stack[0];
        out := out + [head];
        PreOrderForestAppend(head.children, stack[1..]);
        ForestSizeAppend(head.children, stack[1..]);
        assert ForestSize(stack) == 1 + ForestSize(head.children) + ForestSize(stack[1..]);
        stack := head.children + stack[1..];
      }
      PreOrderComplete(node);
    }
  }
}
