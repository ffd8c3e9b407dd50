/** The reorder/reparent computation of `onDragEnd`: the dragged item gets a
    new parent and order, and every other item of its new sibling group is
    renumbered by its position among those siblings. The result is the list
    handed to `onItemsChange`, or `None` when the drop is ignored. */
module Reordering {
  import opened Nav

  // ---------------------------------------------------------------------------
  // Sibling groups
  // ---------------------------------------------------------------------------

  /** `items.filter(i => i.parentId === parent && i.id !== dragId)`. */
  function Siblings(items: seq<NavItem>, parent: ParentRef, dragId: string): seq<NavItem>
    decreases |items|
  {
    if items == [] then []
    else
      (if items[0].parent == parent && items[0].id != dragId then [items[0]] else []) +
      Siblings(items[1..], parent, dragId)
  }

  /** `items.filter(i => i.parentId === dropId)`: the items naming `dropId`
      as their parent, the dragged item included. */
  function ChildrenOf(items: seq<NavItem>, dropId: string): seq<NavItem>
    decreases |items|
  {
    if items == [] then []
    else (if items[0].parent == Ref(dropId) then [items[0]] else []) + ChildrenOf(items[1..], dropId)
  }

  /** The sibling filter keeps exactly the items of the group other than the
      dragged one. */
  lemma {:induction false} SiblingsMembers(items: seq<NavItem>, parent: ParentRef, dragId: string)
    ensures forall x :: x in Siblings(items, parent, dragId) <==> x in items && x.parent == parent && x.id != dragId
    decreases |items|
  {
    if items != [] {
      SiblingsMembers(items[1..], parent, dragId);
      assert forall x :: x in items <==> x == items[0] || x in items[1..];
    }
  }

  /** Filtering a list with unique ids leaves unique ids. */
  lemma {:induction false} SiblingsUnique(items: seq<NavItem>, parent: ParentRef, dragId: string)
    requires UniqueIds(items)
    ensures UniqueIds(Siblings(items, parent, dragId))
    decreases |items|
  {
    if items != [] {
      var rest := Siblings(items[1..], parent, dragId);
      assert UniqueIds(items[1..]) by {
        forall i, j | 0 <= i < j < |items[1..]| ensures items[1..][i].id != items[1..][j].id {
          assert items[1..][i] == items[i + 1] && items[1..][j] == items[j + 1];
        }
      }
      SiblingsUnique(items[1..], parent, dragId);
      SiblingsMembers(items[1..], parent, dragId);
      forall x | x in rest ensures x.id != items[0].id {
        var j :| 0 <= j < |items[1..]| && items[1..][j] == x;
        assert items[j + 1] == x;
      }
    }
  }

  /** `siblings.findIndex(i => i.id === id)`: `-1` when absent. */
  function FindIndex(s: seq<NavItem>, id: string): int
  {
    match IndexOf(s, id)
    case Some(i) => i
    case None => -1
  }

  // ---------------------------------------------------------------------------
  // onDragEnd
  // ---------------------------------------------------------------------------

  /** The dragged item's new parent reference. For `inside` it is the drop
      target; otherwise the drop target's own parent reference, whatever it
      is (absent, null or an id). */
  function NewParent(dropId: string, dropItem: NavItem, pos: Option<Drop>): ParentRef
  {
    if pos == Some(Inside) then Ref(dropId) else dropItem.parent
  }

  /** The dragged item's new order. For `inside`, the number of items naming
      the target as parent; otherwise the target's index among its siblings
      other than the dragged item, plus one unless the position is
      `before`. */
  function NewOrder(items: seq<NavItem>, dragId: string, dropId: string, dropItem: NavItem, pos: Option<Drop>): int
  {
    if pos == Some(Inside) then |ChildrenOf(items, dropId)|
    else
      var dropItemIndex := FindIndex(Siblings(items, dropItem.parent, dragId), dropId);
      if pos == Some(Before) then dropItemIndex else dropItemIndex + 1
  }

  /** The `items.map` callback: the dragged item moves; other members of the
      new group are renumbered by their index among the group's items other
      than the dragged one, shifted by one at and after the insertion
      point. */
  function Moved(items: seq<NavItem>, item: NavItem, dragId: string, newParent: ParentRef, newOrder: int): NavItem
  {
    if item.id == dragId then item.(parent := newParent, order := Some(newOrder))
    else if item.parent == newParent then
      var currentIndex := FindIndex(Siblings(items, newParent, dragId), item.id);
      item.(order := Some(if currentIndex >= newOrder then currentIndex + 1 else currentIndex))
    else item
  }

  function Renumber(items: seq<NavItem>, dragId: string, newParent: ParentRef, newOrder: int): (r: seq<NavItem>)
    ensures |r| == |items|
    ensures forall i :: 0 <= i < |items| ==> r[i] == Moved(items, items[i], dragId, newParent, newOrder)
  {
    seq(|items|, i requires 0 <= i < |items| => Moved(items, items[i], dragId, newParent, newOrder))
  }

  /** `onDragEnd` up to `onItemsChange`: nothing for a drop outside any
      droppable, onto the dragged item itself, or when either id names no
      item; otherwise the renumbered list. */
  function Reorder(items: seq<NavItem>, dragId: string, droppable: Option<string>, pos: Option<Drop>): Option<seq<NavItem>>
  {
    if droppable.None? then None
    else
      var dropId := droppable.value;
      if dragId == dropId then None
      else match (IndexOf(items, dragId), IndexOf(items, dropId))
        case (Some(_), Some(d)) =>
          var dropItem := items[d];
          Some(Renumber(items, dragId, NewParent(dropId, dropItem, pos), NewOrder(items, dragId, dropId, dropItem, pos)))
        case _ => None
  }

  /** Whether a drop changes anything: an item carries each id. */
  predicate RealDrop(items: seq<NavItem>, dragId: string, droppable: Option<string>)
  {
    droppable.Some? && dragId != droppable.value &&
    (exists i :: 0 <= i < |items| && items[i].id == dragId) &&
    (exists i :: 0 <= i < |items| && items[i].id == droppable.value)
  }

  /** `onItemsChange` is called exactly for a real drop. */
  lemma ReorderCalled(items: seq<NavItem>, dragId: string, droppable: Option<string>, pos: Option<Drop>)
    ensures Reorder(items, dragId, droppable, pos).Some? <==> RealDrop(items, dragId, droppable)
  {
    IndexOfFirst(items, dragId);
    if droppable.Some? {
      IndexOfFirst(items, droppable.value);
    }
  }

  /** The drop target of a real drop: the first item carrying the drop id. */
  function DropItem(items: seq<NavItem>, dropId: string): (d: NavItem)
    requires exists i :: 0 <= i < |items| && items[i].id == dropId
    ensures d in items && d.id == dropId
  {
    IndexOfFirst(items, dropId);
    items[IndexOf(items, dropId).value]
  }

  /** A real drop keeps the list's length and each position's id, name, icon
      and colour; every item carrying the dragged id gets the new parent and
      order; every other item keeps its parent, and an item outside the new
      group is returned unchanged. */
  lemma ReorderShape(items: seq<NavItem>, dragId: string, dropId: string, pos: Option<Drop>)
    requires RealDrop(items, dragId, Some(dropId))
    ensures Reorder(items, dragId, Some(dropId), pos).Some?
    ensures var r := Reorder(items, dragId, Some(dropId), pos).value;
      var dropItem := DropItem(items, dropId);
      var newParent := NewParent(dropId, dropItem, pos);
      var newOrder := NewOrder(items, dragId, dropId, dropItem, pos);
      |r| == |items| &&
      forall i :: 0 <= i < |items| ==>
        r[i].id == items[i].id && r[i].name == items[i].name &&
        r[i].icon == items[i].icon && r[i].iconColor == items[i].iconColor &&
        (items[i].id == dragId ==> r[i].parent == newParent && r[i].order == Some(newOrder)) &&
        (items[i].id != dragId ==> r[i].parent == items[i].parent) &&
        (items[i].id != dragId && items[i].parent != newParent ==> r[i] == items[i])
  {
    ReorderCalled(items, dragId, Some(dropId), pos);
  }

  /** For `before`, `after` or no position, the target sits among the
      siblings, so the new order lies between 0 and the number of
      siblings. */
  lemma BesideOrderRange(items: seq<NavItem>, dragId: string, dropId: string, pos: Option<Drop>)
    requires RealDrop(items, dragId, Some(dropId)) && pos != Some(Inside)
    ensures var dropItem := DropItem(items, dropId);
      0 <= NewOrder(items, dragId, dropId, dropItem, pos) <= |Siblings(items, dropItem.parent, dragId)|
  {
    var dropItem := DropItem(items, dropId);
    SiblingsMembers(items, dropItem.parent, dragId);
    var sibs := Siblings(items, dropItem.parent, dragId);
    assert dropItem in sibs;
    IndexOfFirst(sibs, dropId);
  }

  // ---------------------------------------------------------------------------
  // The renumbered group
  // ---------------------------------------------------------------------------

  /** The orders of a group: the dragged item's, and the renumbered orders of
      the other members, are distinct and run from 0 to the number of other
      members, each value taken. */
  ghost predicate Contiguous(r: seq<NavItem>, group: ParentRef, size: nat)
  {
    (forall i :: 0 <= i < |r| && r[i].parent == group ==>
      r[i].order.Some? && 0 <= r[i].order.value < size) &&
    (forall i, j :: 0 <= i < j < |r| && r[i].parent == group && r[j].parent == group ==>
      r[i].order != r[j].order) &&
    (forall v :: 0 <= v < size ==> exists i :: 0 <= i < |r| && r[i].parent == group && r[i].order == Some(v))
  }

  /** A sibling's renumbered order: its index among the siblings, shifted
      past the insertion point. */
  lemma SiblingOrder(items: seq<NavItem>, dragId: string, newParent: ParentRef, newOrder: int, i: nat)
    requires UniqueIds(items) && i < |items|
    requires items[i].id != dragId && items[i].parent == newParent
    ensures var sibs := Siblings(items, newParent, dragId);
      var c := FindIndex(sibs, items[i].id);
      0 <= c < |sibs| && sibs[c] == items[i] &&
      Moved(items, items[i], dragId, newParent, newOrder).order == Some(if c >= newOrder then c + 1 else c)
  {
    var sibs := Siblings(items, newParent, dragId);
    SiblingsMembers(items, newParent, dragId);
    assert items[i] in items;
    IndexOfFirst(sibs, items[i].id);
    var c := FindIndex(sibs, items[i].id);
    var k :| 0 <= k < |items| && items[k] == sibs[c];
    IndexOfUnique(items, k);
    IndexOfUnique(items, i);
  }

  /** Every value from 0 to the number of siblings is some group member's
      renumbered order. */
  lemma GroupCovers(items: seq<NavItem>, dragId: string, newParent: ParentRef, newOrder: int, d: nat, v: nat)
    requires UniqueIds(items) && d < |items| && items[d].id == dragId
    requires 0 <= newOrder <= |Siblings(items, newParent, dragId)| && v <= |Siblings(items, newParent, dragId)|
    ensures var r := Renumber(items, dragId, newParent, newOrder);
      exists i :: 0 <= i < |r| && r[i].parent == newParent && r[i].order == Some(v)
  {
    var r := Renumber(items, dragId, newParent, newOrder);
    var sibs := Siblings(items, newParent, dragId);
    if v == newOrder {
      assert r[d].parent == newParent && r[d].order == Some(v);
    } else {
      var c := if v < newOrder then v else v - 1;
      SiblingsMembers(items, newParent, dragId);
      SiblingsUnique(items, newParent, dragId);
      assert sibs[c] in sibs;
      var i :| 0 <= i < |items| && items[i] == sibs[c];
      IndexOfUnique(sibs, c);
      SiblingOrder(items, dragId, newParent, newOrder, i);
      assert r[i].parent == newParent && r[i].order == Some(v);
    }
  }

  /** Distinct members of the group get distinct orders. */
  lemma GroupDistinct(items: seq<NavItem>, dragId: string, newParent: ParentRef, newOrder: int, i: nat, j: nat)
    requires UniqueIds(items) && i < j < |items|
    requires 0 <= newOrder
    ensures var r := Renumber(items, dragId, newParent, newOrder);
      r[i].parent == newParent && r[j].parent == newParent ==> r[i].order != r[j].order
  {
    var r := Renumber(items, dragId, newParent, newOrder);
    if r[i].parent == newParent && r[j].parent == newParent {
      if items[i].id != dragId {
        SiblingOrder(items, dragId, newParent, newOrder, i);
      }
      if items[j].id != dragId {
        SiblingOrder(items, dragId, newParent, newOrder, j);
      }
    }
  }

  /** Every group member's order lies between 0 and the number of siblings. */
  lemma GroupInRange(items: seq<NavItem>, dragId: string, newParent: ParentRef, newOrder: int, i: nat)
    requires UniqueIds(items) && i < |items|
    requires 0 <= newOrder <= |Siblings(items, newParent, dragId)|
    ensures var r := Renumber(items, dragId, newParent, newOrder);
      r[i].parent == newParent ==>
        r[i].order.Some? && 0 <= r[i].order.value <= |Siblings(items, newParent, dragId)|
  {
    if items[i].id != dragId && items[i].parent == newParent {
      SiblingOrder(items, dragId, newParent, newOrder, i);
    }
  }

  /** Renumbering around an insertion point within range leaves the group
      numbered 0..n without gaps or duplicates. */
  lemma RenumberContiguous(items: seq<NavItem>, dragId: string, newParent: ParentRef, newOrder: int, d: nat)
    requires UniqueIds(items) && d < |items| && items[d].id == dragId
    requires 0 <= newOrder <= |Siblings(items, newParent, dragId)|
    ensures Contiguous(Renumber(items, dragId, newParent, newOrder), newParent, |Siblings(items, newParent, dragId)| + 1)
  {
    var r := Renumber(items, dragId, newParent, newOrder);
    var n := |Siblings(items, newParent, dragId)|;
    forall i | 0 <= i < |r| && r[i].parent == newParent
      ensures r[i].order.Some? && 0 <= r[i].order.value < n + 1
    {
      GroupInRange(items, dragId, newParent, newOrder, i);
    }
    forall i, j | 0 <= i < j < |r| && r[i].parent == newParent && r[j].parent == newParent
      ensures r[i].order != r[j].order
    {
      GroupDistinct(items, dragId, newParent, newOrder, i, j);
    }
    forall v | 0 <= v < n + 1
      ensures exists i :: 0 <= i < |r| && r[i].parent == newParent && r[i].order == Some(v)
    {
      GroupCovers(items, dragId, newParent, newOrder, d, v);
    }
  }

  /** For `before`, `after` or no position, the dragged item's new sibling
      group comes out numbered 0..n without gaps or duplicates. */
  lemma BesideContiguous(items: seq<NavItem>, dragId: string, dropId: string, pos: Option<Drop>)
    requires UniqueIds(items) && RealDrop(items, dragId, Some(dropId)) && pos != Some(Inside)
    ensures var dropItem := DropItem(items, dropId);
      Reorder(items, dragId, Some(dropId), pos).Some? &&
      Contiguous(Reorder(items, dragId, Some(dropId), pos).value, dropItem.parent,
        |Siblings(items, dropItem.parent, dragId)| + 1)
  {
    var dropItem := DropItem(items, dropId);
    BesideOrderRange(items, dragId, dropId, pos);
    ReorderCalled(items, dragId, Some(dropId), pos);
    var d :| 0 <= d < |items| && items[d].id == dragId;
    RenumberContiguous(items, dragId, dropItem.parent, NewOrder(items, dragId, dropId, dropItem, pos), d);
  }

  /** When the dragged item is not yet a child of the target, the items
      naming the target as parent are exactly its siblings-to-be. */
  lemma {:induction false} ChildrenAreSiblings(items: seq<NavItem>, dragId: string, dropId: string)
    requires forall i :: 0 <= i < |items| && items[i].id == dragId ==> items[i].parent != Ref(dropId)
    ensures ChildrenOf(items, dropId) == Siblings(items, Ref(dropId), dragId)
    decreases |items|
  {
    if items != [] {
      assert forall i :: 0 <= i < |items[1..]| ==> items[1..][i] == items[i + 1];
      ChildrenAreSiblings(items[1..], dragId, dropId);
    }
  }

  /** Dropping `inside` a target the dragged item is not already a child of
      leaves the target's children numbered 0..n without gaps or
      duplicates, the dragged item last. */
  lemma InsideContiguous(items: seq<NavItem>, dragId: string, dropId: string)
    requires UniqueIds(items) && RealDrop(items, dragId, Some(dropId))
    requires forall i :: 0 <= i < |items| && items[i].id == dragId ==> items[i].parent != Ref(dropId)
    ensures Reorder(items, dragId, Some(dropId), Some(Inside)).Some?
    ensures Contiguous(Reorder(items, dragId, Some(dropId), Some(Inside)).value, Ref(dropId),
      |ChildrenOf(items, dropId)| + 1)
    ensures forall i :: 0 <= i < |items| && items[i].id == dragId ==>
      Reorder(items, dragId, Some(dropId), Some(Inside)).value[i].order == Some(|ChildrenOf(items, dropId)|)
  {
    ReorderCalled(items, dragId, Some(dropId), Some(Inside));
    ChildrenAreSiblings(items, dragId, dropId);
    var d :| 0 <= d < |items| && items[d].id == dragId;
    RenumberContiguous(items, dragId, Ref(dropId), |ChildrenOf(items, dropId)|, d);
  }
}
