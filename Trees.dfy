/**
 The node abstraction every traversal consumes: a node has a name and an
 ordered, finite sequence of children. Because `Tree` is an inductive
 datatype, every tree is finite and acyclic.

 Besides sizes and name bags, this module gives the depth-based view of a
 tree that the breadth-first traversals are specified against: `Level(t, k)`
 is the left-to-right sequence of the nodes at depth `k`.
 */
module Trees {

  datatype Tree = Node(name: string, children: seq<Tree>)

  /** Number of nodes in a tree. */
  function Size(t: Tree): nat
  {
    1 + ForestSize(t.children)
  }

  /** Number of nodes in an ordered forest. */
  function ForestSize(ts: seq<Tree>): nat
  {
    if ts == [] then 0 else Size(ts[0]) + ForestSize(ts[1..])
  }

  /** The multiset of the names of every node of a tree. */
  function NameBag(t: Tree): multiset<string>
  {
    multiset{t.name} + ForestNameBag(t.children)
  }

  function ForestNameBag(ts: seq<Tree>): multiset<string>
  {
    if ts == [] then multiset{} else NameBag(ts[0]) + ForestNameBag(ts[1..])
  }

  /** The names of a sequence of nodes, position by position. */
  function Names(s: seq<Tree>): (r: seq<string>)
    ensures |r| == |s|
  {
    if s == [] then [] else [s[0].name] + Names(s[1..])
  }

  /** Concatenation of a sequence of groups, in order. */
  function Flatten<T>(gs: seq<seq<T>>): seq<T>
  {
    if gs == [] then [] else gs[0] + Flatten(gs[1..])
  }

  function Reverse<T>(s: seq<T>): seq<T>
  {
    if s == [] then [] else Reverse(s[1..]) + [s[0]]
  }

  /** The mirror image of a tree: every children sequence reversed. */
  function Mirror(t: Tree): (r: Tree)
    ensures r.name == t.name
  {
    Node(t.name, MirrorForest(t.children))
  }

  function MirrorForest(ts: seq<Tree>): seq<Tree>
  {
    if ts == [] then [] else MirrorForest(ts[1..]) + [Mirror(ts[0])]
  }

  /** The children of the nodes of `level`, concatenated in encounter order. */
  function ChildrenOf(level: seq<Tree>): seq<Tree>
  {
    if level == [] then [] else level[0].children + ChildrenOf(level[1..])
  }

  /** The nodes at depth `k` of an ordered forest (its roots are at depth 0), left to right. */
  function ForestLevel(ts: seq<Tree>, k: nat): seq<Tree>
  {
    if ts == [] then []
    else (if k == 0 then [ts[0]] else ForestLevel(ts[0].children, k - 1)) + ForestLevel(ts[1..], k)
  }

  /** The nodes at depth `k` of a tree, left to right; the root alone is at depth 0. */
  function Level(t: Tree, k: nat): seq<Tree>
  {
    ForestLevel([t], k)
  }

  /** Number of non-empty levels of a forest. */
  function LevelCount(ts: seq<Tree>): nat
  {
    if ts == [] then 0
    else
      var below := 1 + LevelCount(ts[0].children);
      var right := LevelCount(ts[1..]);
      if below < right then right else below
  }

  /** The greatest depth of a node of the tree (a leaf has height 0). */
  function Height(t: Tree): nat
  {
    LevelCount(t.children)
  }

  // ---------------------------------------------------------------------------
  // Lemmas about sequences of nodes

  lemma {:induction false} NamesAppend(a: seq<Tree>, b: seq<Tree>)
    ensures Names(a + b) == Names(a) + Names(b)
  {
    if a == [] {
      assert a + b == b;
    } else {
      assert (a + b)[1..] == a[1..] + b;
      NamesAppend(a[1..], b);
    }
  }

  /** Position i of the names is the name of the node at position i. */
  lemma {:induction false} NamesAt(s: seq<Tree>)
    ensures forall i :: 0 <= i < |s| ==> Names(s)[i] == s[i].name
  {
    if s != [] {
      NamesAt(s[1..]);
      assert Names(s) == [s[0].name] + Names(s[1..]);
    }
  }

  lemma {:induction false} ReverseAppend<T>(a: seq<T>, b: seq<T>)
    ensures Reverse(a + b) == Reverse(b) + Reverse(a)
  {
    if a == [] {
      assert a + b == b;
    } else {
      assert (a + b)[1..] == a[1..] + b;
      ReverseAppend(a[1..], b);
    }
  }

  lemma {:induction false} ForestSizeAppend(a: seq<Tree>, b: seq<Tree>)
    ensures ForestSize(a + b) == ForestSize(a) + ForestSize(b)
  {
    if a == [] {
      assert a + b == b;
    } else {
      assert (a + b)[1..] == a[1..] + b;
      ForestSizeAppend(a[1..], b);
    }
  }

  lemma {:induction false} ForestNameBagAppend(a: seq<Tree>, b: seq<Tree>)
    ensures ForestNameBag(a + b) == ForestNameBag(a) + ForestNameBag(b)
  {
    if a == [] {
      assert a + b == b;
    } else {
      assert (a + b)[1..] == a[1..] + b;
      ForestNameBagAppend(a[1..], b);
    }
  }

  /** A tree holds as many names, counted with multiplicity, as it has nodes. */
  lemma {:induction false} NameBagSize(t: Tree)
    ensures |NameBag(t)| == Size(t)
  {
    ForestNameBagSize(t.children);
  }

  lemma {:induction false} ForestNameBagSize(ts: seq<Tree>)
    ensures |ForestNameBag(ts)| == ForestSize(ts)
  {
    if ts != [] {
      NameBagSize(ts[0]);
      ForestNameBagSize(ts[1..]);
    }
  }

  lemma {:induction false} ChildrenOfAppend(a: seq<Tree>, b: seq<Tree>)
    ensures ChildrenOf(a + b) == ChildrenOf(a) + ChildrenOf(b)
  {
    if a == [] {
      assert a + b == b;
    } else {
      assert (a + b)[1..] == a[1..] + b;
      ChildrenOfAppend(a[1..], b);
    }
  }

  /**
   Every node of a level is either named in the level itself or lies below
   it: the name bag of a forest splits into its roots' names and the name bag
   of their children.
   */
  lemma {:induction false} ForestNameBagSplit(level: seq<Tree>)
    ensures ForestNameBag(level) == multiset(Names(level)) + ForestNameBag(ChildrenOf(level))
  {
    if level != [] {
      var rest := level[1..];
      ForestNameBagSplit(rest);
      ForestNameBagAppend(level[0].children, ChildrenOf(rest));
      assert level == [level[0]] + rest;
      NamesAppend([level[0]], rest);
      assert multiset(Names(level)) == multiset{level[0].name} + multiset(Names(rest));
      calc {
        ForestNameBag(level);
        NameBag(level[0]) + ForestNameBag(rest);
        multiset{level[0].name} + ForestNameBag(level[0].children) + ForestNameBag(rest);
        multiset{level[0].name} + ForestNameBag(level[0].children)
          + multiset(Names(rest)) + ForestNameBag(ChildrenOf(rest));
        multiset(Names(level)) + ForestNameBag(ChildrenOf(level));
      }
    }
  }

  // ---------------------------------------------------------------------------
  // Lemmas about levels

  /** Depth 0 of a forest is the forest itself. */
  lemma {:induction false} ForestLevelZero(ts: seq<Tree>)
    ensures ForestLevel(ts, 0) == ts
  {
    if ts != [] {
      ForestLevelZero(ts[1..]);
    }
  }

  /**
   The nodes at depth k + 1 are exactly the children of the nodes at depth k,
   concatenated in order.
   */
  lemma {:induction false} ChildrenOfForestLevel(ts: seq<Tree>, k: nat)
    ensures ChildrenOf(ForestLevel(ts, k)) == ForestLevel(ts, k + 1)
    decreases ts
  {
    if ts != [] {
      var head := if k == 0 then [ts[0]] else ForestLevel(ts[0].children, k - 1);
      var rest := ForestLevel(ts[1..], k);
      assert ForestLevel(ts, k) == head + rest;
      ChildrenOfAppend(head, rest);
      ChildrenOfForestLevel(ts[1..], k);
      if k == 0 {
        assert ChildrenOf(head) == ts[0].children + ChildrenOf([]);
        ForestLevelZero(ts[0].children);
      } else {
        ChildrenOfForestLevel(ts[0].children, k - 1);
      }
      assert ForestLevel(ts, k + 1) == ForestLevel(ts[0].children, k) + ForestLevel(ts[1..], k + 1);
    }
  }

  /** Level k + 1 of a tree is the in-order concatenation of the children of level k. */
  lemma LevelSucc(t: Tree, k: nat)
    ensures Level(t, k + 1) == ChildrenOf(Level(t, k))
  {
    ChildrenOfForestLevel([t], k);
  }

  /** The only node at depth 0 is the root, and depth 1 holds its children in order. */
  lemma LevelRoot(t: Tree)
    ensures Level(t, 0) == [t]
    ensures Level(t, 1) == t.children
  {
    assert [t][1..] == [];
    ForestLevelZero([t]);
    ForestLevelZero(t.children);
    assert Level(t, 1) == ForestLevel(t.children, 0) + ForestLevel([], 1);
  }

  /** A forest has a node at depth k exactly when k is below its number of levels. */
  lemma {:induction false} ForestLevelNonEmpty(ts: seq<Tree>, k: nat)
    ensures ForestLevel(ts, k) != [] <==> k < LevelCount(ts)
    decreases ts
  {
    if ts != [] {
      ForestLevelNonEmpty(ts[1..], k);
      if k > 0 {
        ForestLevelNonEmpty(ts[0].children, k - 1);
      }
    }
  }

  /** A tree has a node at depth k exactly when k is at most its height. */
  lemma LevelNonEmpty(t: Tree, k: nat)
    ensures Level(t, k) != [] <==> k <= Height(t)
  {
    ForestLevelNonEmpty([t], k);
    assert [t][1..] == [];
  }
}
