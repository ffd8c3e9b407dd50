/** Concrete drops that show what `onDragEnd` does with small lists. */
module ReorderExamples {
  import opened Nav
  import opened TreeBuilder
  import opened Flatten
  import opened TreeFacts
  import opened Reordering

  function Item(id: string, parent: ParentRef, order: int): NavItem
  {
    NavItem(id, id, Grid, None, parent, Some(order))
  }

  // ---------------------------------------------------------------------------
  // The former sibling group keeps its numbers
  // ---------------------------------------------------------------------------

  /** Two roots A (order 0) and B (order 1), and C under B. */
  const TwoRoots: seq<NavItem> := [Item("A", Absent, 0), Item("B", Absent, 1), Item("C", Ref("B"), 0)]

  lemma TwoRootsLookup()
    ensures IndexOf(TwoRoots, "A") == Some(0)
    ensures IndexOf(TwoRoots, "B") == Some(1)
    ensures |ChildrenOf(TwoRoots, "B")| == 1
    ensures Siblings(TwoRoots, Ref("B"), "A") == [TwoRoots[2]]
  {
    assert TwoRoots[1..][0].id == "B";
    assert IndexOf(TwoRoots[1..], "B") == Some(0);
    assert TwoRoots[1..][1..] == [TwoRoots[2]];
    assert TwoRoots[2..] == [TwoRoots[2]];
  }

  /** Dropping A inside B makes A B's second child (order 1) and leaves C at
      order 0; B, the only root left, keeps order 1: the group A left is not
      renumbered. */
  lemma InsideLeavesOldGroup()
    ensures Reorder(TwoRoots, "A", Some("B"), Some(Inside)) ==
      Some([Item("A", Ref("B"), 1), Item("B", Absent, 1), Item("C", Ref("B"), 0)])
  {
    TwoRootsLookup();
    var sibs := Siblings(TwoRoots, Ref("B"), "A");
    assert IndexOf(sibs, "C") == Some(0);
    var r := Renumber(TwoRoots, "A", Ref("B"), 1);
    var expected := [Item("A", Ref("B"), 1), Item("B", Absent, 1), Item("C", Ref("B"), 0)];
    assert r[0] == expected[0] && r[1] == expected[1] && r[2] == expected[2];
    assert r == expected;
  }

  // ---------------------------------------------------------------------------
  // `inside` counts the dragged item among the children
  // ---------------------------------------------------------------------------

  /** P with two children, A (order 0) and B (order 1). */
  const Family: seq<NavItem> := [Item("P", Absent, 0), Item("A", Ref("P"), 0), Item("B", Ref("P"), 1)]

  lemma FamilyLookup()
    ensures IndexOf(Family, "A") == Some(1)
    ensures IndexOf(Family, "P") == Some(0)
    ensures |ChildrenOf(Family, "P")| == 2
    ensures Siblings(Family, Ref("P"), "A") == [Family[2]]
  {
    assert Family[1..][0].id == "A";
    assert IndexOf(Family[1..], "A") == Some(0);
    assert Family[1..][1..] == [Family[2]];
    assert Family[2..] == [Family[2]];
  }

  /** Dropping A inside its own parent P gives A order 2 and B order 0: no
      child of P has order 1. */
  lemma InsideOwnParentGap()
    ensures Reorder(Family, "A", Some("P"), Some(Inside)) ==
      Some([Item("P", Absent, 0), Item("A", Ref("P"), 2), Item("B", Ref("P"), 0)])
    ensures forall i :: 0 <= i < 3 ==>
      !(Reorder(Family, "A", Some("P"), Some(Inside)).value[i].parent == Ref("P") &&
        Reorder(Family, "A", Some("P"), Some(Inside)).value[i].order == Some(1))
  {
    FamilyLookup();
    var sibs := Siblings(Family, Ref("P"), "A");
    assert IndexOf(sibs, "B") == Some(0);
    var r := Renumber(Family, "A", Ref("P"), 2);
    var expected := [Item("P", Absent, 0), Item("A", Ref("P"), 2), Item("B", Ref("P"), 0)];
    assert r[0] == expected[0] && r[1] == expected[1] && r[2] == expected[2];
    assert r == expected;
  }

  // ---------------------------------------------------------------------------
  // The new group is renumbered by list position, not by old order
  // ---------------------------------------------------------------------------

  /** P with children B (order 1) and A (order 0), listed B first, and a
      second root X. */
  const Crossed: seq<NavItem> := [Item("P", Absent, 0), Item("B", Ref("P"), 1), Item("A", Ref("P"), 0), Item("X", Absent, 1)]

  lemma CrossedLookup()
    ensures IndexOf(Crossed, "X") == Some(3)
    ensures IndexOf(Crossed, "A") == Some(2)
    ensures Siblings(Crossed, Ref("P"), "X") == [Crossed[1], Crossed[2]]
  {
    assert Crossed[1..][1..][0].id == "A";
    assert IndexOf(Crossed[1..][1..], "A") == Some(0);
    assert Crossed[1..][1..][1..][0].id == "X";
    assert IndexOf(Crossed[1..][1..][1..], "X") == Some(0);
    assert Crossed[1..][1..][1..][1..] == [];
  }

  /** Dropping X before A: A showed above B (order 0 against 1), but the
      group is renumbered by position in the list, where B comes first, so
      B gets 0, X gets 1 and A gets 2, and B now shows above A although the
      drop touched neither. */
  lemma SiblingsSwap()
    ensures Crossed[2].order.value < Crossed[1].order.value
    ensures Reorder(Crossed, "X", Some("A"), Some(Before)) ==
      Some([Item("P", Absent, 0), Item("B", Ref("P"), 0), Item("A", Ref("P"), 2), Item("X", Ref("P"), 1)])
  {
    CrossedLookup();
    var sibs := Siblings(Crossed, Ref("P"), "X");
    assert sibs[1..][0].id == "A";
    assert IndexOf(sibs[1..], "A") == Some(0);
    assert IndexOf(sibs, "A") == Some(1);
    assert IndexOf(sibs, "B") == Some(0);
    var r := Renumber(Crossed, "X", Ref("P"), 1);
    var expected := [Item("P", Absent, 0), Item("B", Ref("P"), 0), Item("A", Ref("P"), 2), Item("X", Ref("P"), 1)];
    assert r[0] == expected[0] && r[1] == expected[1] && r[2] == expected[2] && r[3] == expected[3];
    assert r == expected;
  }

  // ---------------------------------------------------------------------------
  // No cycle guard
  // ---------------------------------------------------------------------------

  /** P with one child C. */
  const Pair: seq<NavItem> := [Item("P", Absent, 0), Item("C", Ref("P"), 0)]

  /** The list after dropping P inside its own child C. */
  const Looped: seq<NavItem> := [Item("P", Ref("C"), 0), Item("C", Ref("P"), 0)]

  lemma PairLookup()
    ensures IndexOf(Pair, "P") == Some(0)
    ensures IndexOf(Pair, "C") == Some(1)
    ensures |ChildrenOf(Pair, "C")| == 0
  {
    assert Pair[1..][0].id == "C";
    assert IndexOf(Pair[1..], "C") == Some(0);
  }

  /** Nothing stops P from being dropped inside its own child. */
  lemma DropIntoDescendant()
    ensures Reorder(Pair, "P", Some("C"), Some(Inside)) == Some(Looped)
  {
    PairLookup();
    var r := Renumber(Pair, "P", Ref("C"), 0);
    assert r[0] == Looped[0] && r[1] == Looped[1];
    assert r == Looped;
  }

  lemma LoopedLinks()
    ensures Attached(Looped, 0) && Up(Looped, 0) == 1
    ensures Attached(Looped, 1) && Up(Looped, 1) == 0
  {
    assert Looped[1..][0].id == "C";
    assert IndexOf(Looped[1..], "C") == Some(0);
    assert IndexOf(Looped, "C") == Some(1);
    assert IndexOf(Looped, "P") == Some(0);
  }

  /** The two items now name each other: neither is reached from a root, and
      the tree built from the new list is empty. */
  lemma LoopedVanishes()
    ensures !Rooted(Looped, 0) && !Rooted(Looped, 1)
    ensures Flat(Forest(Looped)) == []
  {
    LoopedLinks();
    assert RootDist(Looped, 0, 0) == None;
    assert RootDist(Looped, 1, 1) == None;
    assert RootDist(Looped, 0, 2) == None;
    assert RootDist(Looped, 1, 0) == None;
    assert RootDist(Looped, 0, 1) == None;
    assert RootDist(Looped, 1, 2) == None;
    ForestListing(Looped);
    ListingMembers(Looped);
    NoDupCard(Listing(Looped), {});
  }
}
