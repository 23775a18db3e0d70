/**
 The example tree of the docstrings in anytree/iterators.py, and the order
 in which each of the four iterators visits it:

   f
   |-- b
   |   |-- a
   |   +-- d
   |       |-- c
   |       +-- e
   +-- g
       +-- i
           +-- h
 */
module Doctest {
  import opened Trees
  import opened PreOrder
  import opened PostOrder
  import opened LevelOrder
  import opened LevelGroupOrder

  const A := Node("a", [])
  const C := Node("c", [])
  const E := Node("e", [])
  const H := Node("h", [])
  const D := Node("d", [C, E])
  const B := Node("b", [A, D])
  const I := Node("i", [H])
  const G := Node("g", [I])
  const F := Node("f", [B, G])

  /** The names of each group, group by group. */
  function GroupNames(gs: seq<seq<Tree>>): (r: seq<seq<string>>)
    ensures |r| == |gs|
  {
    if gs == [] then [] else [Names(gs[0])] + GroupNames(gs[1..])
  }

  /** Splitting the sibling lists of the example tree into head and rest. */
  lemma SiblingTails()
    ensures [C, E][1..] == [E] && [A, D][1..] == [D] && [B, G][1..] == [G]
    ensures [A][1..] == [] && [C][1..] == [] && [E][1..] == [] && [H][1..] == []
    ensures [D][1..] == [] && [I][1..] == [] && [G][1..] == [] && [F][1..] == []
  {
  }

  lemma DoctestPreOrder()
    ensures Names(PreOrder.PreOrder(F)) == ["f", "b", "a", "d", "c", "e", "g", "i", "h"]
  {
    SiblingTails();
    assert PreOrderForest([E]) == [E];
    assert PreOrderForest([C, E]) == [C, E];
    assert PreOrder.PreOrder(D) == [D, C, E];
    assert PreOrderForest([D]) == [D, C, E];
    assert PreOrderForest([A, D]) == [A, D, C, E];
    assert PreOrder.PreOrder(B) == [B, A, D, C, E];
    assert PreOrderForest([H]) == [H];
    assert PreOrderForest([I]) == [I, H];
    assert PreOrderForest([G]) == [G, I, H];
    assert PreOrderForest([B, G]) == [B, A, D, C, E, G, I, H];
    assert PreOrder.PreOrder(F) == [F, B, A, D, C, E, G, I, H];
    NamesAt([F, B, A, D, C, E, G, I, H]);
  }

  lemma DoctestPostOrder()
    ensures Names(PostOrderNext([F])) == ["a", "c", "e", "d", "b", "h", "i", "g", "f"]
  {
    SiblingTails();
    assert PostOrderNext([E]) == [E];
    assert PostOrderNext([C, E]) == [C, E];
    assert PostOrderNext([D]) == [C, E, D];
    assert PostOrderNext([A, D]) == [A, C, E, D];
    assert PostOrderNext([H]) == [H];
    assert PostOrderNext([I]) == [H, I];
    assert PostOrderNext([G]) == [H, I, G];
    assert PostOrderNext([B, G]) == [A, C, E, D, B, H, I, G];
    assert PostOrderNext([F]) == [A, C, E, D, B, H, I, G, F];
    NamesAt([A, C, E, D, B, H, I, G, F]);
  }

  /** The levels of the example tree, and its height. */
  lemma {:induction false} DoctestLevels()
    ensures Level(F, 0) == [F] && Level(F, 1) == [B, G]
    ensures Level(F, 2) == [A, D, I] && Level(F, 3) == [C, E, H]
    ensures Height(F) == 3
  {
    assert Level(F, 0) == [F] && Level(F, 1) == [B, G] by {
      LevelRoot(F);
    }
    assert Level(F, 2) == [A, D, I] by {
      LevelSucc(F, 1);
      SiblingTails();
      assert ChildrenOf([G]) == [I];
      assert ChildrenOf([B, G]) == [A, D, I];
    }
    assert Level(F, 3) == [C, E, H] by {
      LevelSucc(F, 2);
      assert [A, D, I][1..] == [D, I] && [D, I][1..] == [I];
      SiblingTails();
      assert ChildrenOf([I]) == [H];
      assert ChildrenOf([D, I]) == [C, E, H];
      assert ChildrenOf([A, D, I]) == [C, E, H];
    }
    assert Level(F, 4) == [] by {
      LevelSucc(F, 3);
      assert [C, E, H][1..] == [E, H] && [E, H][1..] == [H];
      SiblingTails();
      assert ChildrenOf([H]) == [];
      assert ChildrenOf([E, H]) == [];
      assert ChildrenOf([C, E, H]) == [];
    }
    LevelNonEmpty(F, 3);
    LevelNonEmpty(F, 4);
  }

  lemma DoctestLevelOrder()
    ensures Names(LevelOrder.LevelOrder(F)) == ["f", "b", "g", "a", "d", "i", "c", "e", "h"]
  {
    DoctestLevels();
    assert LevelsFrom(F, 4) == [];
    assert LevelsFrom(F, 3) == [C, E, H];
    assert LevelsFrom(F, 2) == [A, D, I, C, E, H];
    assert LevelsFrom(F, 1) == [B, G, A, D, I, C, E, H];
    assert LevelOrder.LevelOrder(F) == [F, B, G, A, D, I, C, E, H];
    NamesAt([F, B, G, A, D, I, C, E, H]);
  }

  lemma DoctestLevelGroups()
    ensures GroupNames(LevelGroups(F)) == [["f"], ["b", "g"], ["a", "d", "i"], ["c", "e", "h"]]
  {
    DoctestLevels();
    assert GroupsFrom(F, 4) == [];
    assert GroupsFrom(F, 3) == [[C, E, H]];
    assert GroupsFrom(F, 2) == [[A, D, I], [C, E, H]];
    assert GroupsFrom(F, 1) == [[B, G], [A, D, I], [C, E, H]];
    var g := [[F], [B, G], [A, D, I], [C, E, H]];
    assert LevelGroups(F) == g;
    assert g[1..] == [[B, G], [A, D, I], [C, E, H]];
    assert g[2..] == [[A, D, I], [C, E, H]];
    assert g[3..] == [[C, E, H]];
    assert g[4..] == [];
    NamesAt([F]);
    NamesAt([B, G]);
    NamesAt([A, D, I]);
    NamesAt([C, E, H]);
    assert Names([F]) == ["f"] && Names([B, G]) == ["b", "g"];
    assert Names([A, D, I]) == ["a", "d", "i"] && Names([C, E, H]) == ["c", "e", "h"];
    assert GroupNames(g[4..]) == [];
    assert GroupNames(g[3..]) == [["c", "e", "h"]];
    assert GroupNames(g[2..]) == [["a", "d", "i"], ["c", "e", "h"]];
    assert GroupNames(g[1..]) == [["b", "g"], ["a", "d", "i"], ["c", "e", "h"]];
  }

  /** Running each iterator on the example tree gives the orders its docstring shows. */
  method DoctestIterators() returns (pre: seq<string>, post: seq<string>, level: seq<string>, groups: seq<seq<string>>)
    ensures pre == ["f", "b", "a", "d", "c", "e", "g", "i", "h"]
    ensures post == ["a", "c", "e", "d", "b", "h", "i", "g", "f"]
    ensures level == ["f", "b", "g", "a", "d", "i", "c", "e", "h"]
    ensures groups == [["f"], ["b", "g"], ["a", "d", "i"], ["c", "e", "h"]]
  {
    var preIter := new PreOrderIter(F);
    var preNodes := preIter.Iterate();
    DoctestPreOrder();
    pre := Names(preNodes);

    var postIter := new PostOrderIter(F);
    DoctestPostOrder();
    post := Names(postIter.Iterate());

    var levelIter := new LevelOrderIter(F);
    var levelNodes := levelIter.Iterate();
    DoctestLevelOrder();
    level := Names(levelNodes);

    var groupIter := new LevelGroupOrderIter(F);
    var groupNodes := groupIter.Iterate();
    DoctestLevelGroups();
    groups := GroupNames(groupNodes);
  }

  /** A root without children: every traversal yields that root alone. */
  lemma {:induction false} SingleNode(t: Tree)
    requires t.children == []
    ensures PreOrder.PreOrder(t) == [t]
    ensures PostOrderNext([t]) == [t]
    ensures LevelOrder.LevelOrder(t) == [t]
    ensures LevelGroups(t) == [[t]]
  {
    PostOrderUnfold(t);
    LevelOrderStart(t);
    LevelGroupsShape(t);
  }
}
