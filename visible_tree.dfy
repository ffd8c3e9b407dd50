/** `flatItems` applied to the sidebar's own flattened tree: with unique ids
    every ancestor walk stops, and the ids it visits are exactly the ids of
    the entry's ancestors, followed by the dangling parent id of the top
    ancestor when it has one. */
module VisibleTree {
  import opened Nav
  import opened TreeBuilder
  import opened Flatten
  import opened TreeFacts
  import opened Visibility

  /** `all` lists the items at the positions `order`, which are exactly the
      rooted items. */
  ghost predicate ListsRooted(items: seq<NavItem>, all: seq<TreeNode>, order: seq<nat>)
  {
    |all| == |order| &&
    (forall k :: 0 <= k < |all| ==> order[k] < |items| && all[k].item == items[order[k]]) &&
    (forall x: nat :: x in order <==> x < |items| && Rooted(items, x))
  }

  /** The flattened forest lists the rooted items. */
  lemma ForestListsRooted(items: seq<NavItem>)
    ensures ListsRooted(items, Flat(Forest(items)), Listing(items))
  {
    ForestListing(items);
    ListingMembers(items);
  }

  /** The parent ids of a rooted item, nearest first: its parent's id, that
      item's parent's id, and so on; a top-level item contributes its parent
      id only when that id is truthy (it then names no item). */
  ghost function ParentIds(items: seq<NavItem>, x: nat): seq<string>
    requires x < |items| && Rooted(items, x)
    decreases Level(items, x)
  {
    if !HasParentId(items[x].parent) then []
    else if !Attached(items, x) then [items[x].parent.id]
    else
      LevelZero(items, x);
      UpLevel(items, x);
      [items[x].parent.id] + ParentIds(items, Up(items, x))
  }

  /** Looking up a rooted item's id among the entries finds that item. */
  lemma FindRooted(items: seq<NavItem>, all: seq<TreeNode>, order: seq<nat>, x: nat)
    requires UniqueIds(items) && ListsRooted(items, all, order)
    requires x < |items| && Rooted(items, x)
    ensures NextRef(all, items[x].id) == items[x].parent
  {
    assert x in order;
    var j :| 0 <= j < |order| && order[j] == x;
    IndexOfFirst(Entries(all), items[x].id);
    assert Entries(all)[j].id == items[x].id;
    var i := IndexOf(Entries(all), items[x].id).value;
    assert items[order[i]].id == items[x].id;
  }

  /** An id no item carries is not found among the entries. */
  lemma FindDangling(items: seq<NavItem>, all: seq<TreeNode>, order: seq<nat>, id: string)
    requires ListsRooted(items, all, order)
    requires forall i :: 0 <= i < |items| ==> items[i].id != id
    ensures NextRef(all, id) == Absent
  {
    IndexOfFirst(Entries(all), id);
  }

  /** The walk from a rooted item's parent reference visits its parent ids
      and stops within one step more than its level. */
  lemma {:induction false} ChainOfRooted(items: seq<NavItem>, all: seq<TreeNode>, order: seq<nat>, x: nat)
    requires UniqueIds(items) && ListsRooted(items, all, order)
    requires x < |items| && Rooted(items, x)
    ensures Chain(all, items[x].parent, Level(items, x) + 1) == Some(ParentIds(items, x))
    decreases Level(items, x)
  {
    var p := items[x].parent;
    if HasParentId(p) {
      if Attached(items, x) {
        LevelZero(items, x);
        UpLevel(items, x);
        var u := Up(items, x);
        FindRooted(items, all, order, u);
        ChainOfRooted(items, all, order, u);
      } else {
        IndexOfFirst(items, p.id);
        FindDangling(items, all, order, p.id);
        var f := Level(items, x);
        assert Chain(all, NextRef(all, p.id), f) == Some([]);
        assert [p.id] + [] == [p.id];
        assert ParentIds(items, x) == [p.id];
      }
    }
  }

  /** Every walk over such a listing stops, at the entry's parent ids. */
  lemma ListedWalks(items: seq<NavItem>, all: seq<TreeNode>, order: seq<nat>)
    requires UniqueIds(items) && ListsRooted(items, all, order)
    ensures WalksEnd(all)
    ensures forall k :: 0 <= k < |all| ==>
      order[k] < |items| && Rooted(items, order[k]) &&
      ParentChain(all, all[k].item.parent) == ParentIds(items, order[k])
  {
    forall k | 0 <= k < |all|
      ensures order[k] < |items| && Rooted(items, order[k])
      ensures Ends(all, all[k].item.parent)
      ensures ParentChain(all, all[k].item.parent) == ParentIds(items, order[k])
    {
      assert order[k] in order;
      ChainOfRooted(items, all, order, order[k]);
    }
  }

  /** An item has `Level(x)` parent ids, one more exactly when its top
      ancestor has a truthy parent id, and that extra id is the top
      ancestor's parent id. */
  lemma {:induction false} ParentIdsTop(items: seq<NavItem>, x: nat)
    requires x < |items| && Rooted(items, x)
    ensures Level(items, x) <= |ParentIds(items, x)| <= Level(items, x) + 1
    ensures var top := Anc(items, x, 0);
      (|ParentIds(items, x)| == Level(items, x) + 1 <==> HasParentId(items[top].parent)) &&
      (HasParentId(items[top].parent) ==> ParentIds(items, x)[Level(items, x)] == items[top].parent.id)
    decreases Level(items, x)
  {
    LevelZero(items, x);
    if Attached(items, x) {
      AncStep(items, x);
      ParentIdsTop(items, Up(items, x));
    }
  }

  /** The first `Level(x)` parent ids of `x` are the ids of its ancestors,
      nearest first. */
  lemma {:induction false} ParentIdsPrefix(items: seq<NavItem>, x: nat)
    requires x < |items| && Rooted(items, x)
    ensures Level(items, x) <= |ParentIds(items, x)|
    ensures forall i :: 0 <= i < Level(items, x) ==>
      ParentIds(items, x)[i] == items[Anc(items, x, Level(items, x) - 1 - i)].id
    decreases Level(items, x)
  {
    ParentIdsTop(items, x);
    LevelZero(items, x);
    if Attached(items, x) {
      AncStep(items, x);
      var u := Up(items, x);
      ParentIdsPrefix(items, u);
      forall i | 0 <= i < Level(items, x)
        ensures ParentIds(items, x)[i] == items[Anc(items, x, Level(items, x) - 1 - i)].id
      {
        if i > 0 {
          assert ParentIds(items, x)[i] == ParentIds(items, u)[i - 1];
        }
      }
    }
  }

  /** Above level `Level(x)`, the ancestors of `x` are those of its parent. */
  lemma AncStep(items: seq<NavItem>, x: nat)
    requires x < |items| && Rooted(items, x) && Level(items, x) > 0
    ensures Attached(items, x) && Rooted(items, Up(items, x))
    ensures Level(items, Up(items, x)) == Level(items, x) - 1
    ensures forall l :: 0 <= l < Level(items, x) ==> Anc(items, x, l) == Anc(items, Up(items, x), l)
    ensures Anc(items, x, Level(items, x) - 1) == Up(items, x)
  {
    UpLevel(items, x);
  }

  // ---------------------------------------------------------------------------
  // The visible entries of the sidebar's own tree
  // ---------------------------------------------------------------------------

  /** Browse mode on the built tree: an item's entry is shown exactly when
      the ids of all its ancestors are expanded, and, for an item whose top
      ancestor names a parent that does not exist, that dangling id too. */
  lemma BrowseTree(items: seq<NavItem>, expanded: seq<string>)
    requires UniqueIds(items)
    ensures WalksEnd(Flat(Forest(items))) && |Flat(Forest(items))| == |Listing(items)|
    ensures forall k :: 0 <= k < |Flat(Forest(items))| ==>
      Listing(items)[k] < |items| && Rooted(items, Listing(items)[k]) &&
      (BrowseMask(Flat(Forest(items)), expanded)[k] <==> AllIn(ParentIds(items, Listing(items)[k]), expanded))
  {
    ForestListsRooted(items);
    ListedWalks(items, Flat(Forest(items)), Listing(items));
  }

  /** A top-level item whose parent id is truthy but names no item is a root
      of the tree, yet browse mode shows it only when that dangling id is
      expanded. */
  lemma DanglingRootHidden(items: seq<NavItem>, expanded: seq<string>, k: nat)
    requires UniqueIds(items) && k < |Flat(Forest(items))|
    requires HasParentId(Flat(Forest(items))[k].item.parent)
    requires forall i :: 0 <= i < |items| ==> items[i].id != Flat(Forest(items))[k].item.parent.id
    ensures WalksEnd(Flat(Forest(items)))
    ensures BrowseMask(Flat(Forest(items)), expanded)[k] <==> Flat(Forest(items))[k].item.parent.id in expanded
  {
    ForestListsRooted(items);
    DanglingShown(items, Flat(Forest(items)), Listing(items), expanded, k);
  }

  lemma DanglingShown(items: seq<NavItem>, all: seq<TreeNode>, order: seq<nat>, expanded: seq<string>, k: nat)
    requires UniqueIds(items) && ListsRooted(items, all, order) && k < |all|
    requires HasParentId(all[k].item.parent)
    requires forall i :: 0 <= i < |items| ==> items[i].id != all[k].item.parent.id
    ensures WalksEnd(all)
    ensures BrowseMask(all, expanded)[k] <==> all[k].item.parent.id in expanded
  {
    ListedWalks(items, all, order);
    var x := order[k];
    var pid := items[x].parent.id;
    IndexOfFirst(items, pid);
    assert ParentIds(items, x) == [pid];
    assert BrowseMask(all, expanded)[k] == AllIn([pid], expanded);
    assert [pid][0] == pid;
  }

  /** A parent id beyond the ancestors' ids names no item. */
  lemma DanglingTop(items: seq<NavItem>, x: nat)
    requires x < |items| && Rooted(items, x)
    ensures var top := Anc(items, x, 0);
      HasParentId(items[top].parent) ==> forall i :: 0 <= i < |items| ==> items[i].id != items[top].parent.id
  {
    var top := Anc(items, x, 0);
    LevelZero(items, top);
    if HasParentId(items[top].parent) {
      IndexOfFirst(items, items[top].parent.id);
    }
  }

  /** An item whose id is among `x`'s parent ids is a proper ancestor of
      `x`. */
  lemma ParentIdIsAncestor(items: seq<NavItem>, x: nat, y: nat)
    requires UniqueIds(items) && x < |items| && Rooted(items, x) && y < |items|
    requires items[y].id in ParentIds(items, x)
    ensures exists l :: 0 <= l < Level(items, x) && Anc(items, x, l) == y
  {
    var ids := ParentIds(items, x);
    var i :| 0 <= i < |ids| && ids[i] == items[y].id;
    ParentIdNamesItem(items, x, y, i);
    ParentIdsPrefix(items, x);
    var a := Anc(items, x, Level(items, x) - 1 - i);
    SameIdSameItem(items, a, y);
  }

  /** A parent id that is some item's id is not the dangling extra one. */
  lemma ParentIdNamesItem(items: seq<NavItem>, x: nat, y: nat, i: nat)
    requires x < |items| && Rooted(items, x) && y < |items|
    requires i < |ParentIds(items, x)| && ParentIds(items, x)[i] == items[y].id
    ensures i < Level(items, x)
  {
    ParentIdsTop(items, x);
    DanglingTop(items, x);
  }

  lemma SameIdSameItem(items: seq<NavItem>, a: nat, b: nat)
    requires UniqueIds(items) && a < |items| && b < |items| && items[a].id == items[b].id
    ensures a == b
  {
  }

  /** The id of every proper ancestor of `x` is among `x`'s parent ids. */
  lemma AncestorIdIsParentId(items: seq<NavItem>, x: nat, l: nat)
    requires x < |items| && Rooted(items, x) && l < Level(items, x)
    ensures items[Anc(items, x, l)].id in ParentIds(items, x)
  {
    ParentIdsPrefix(items, x);
    assert ParentIds(items, x)[Level(items, x) - 1 - l] == items[Anc(items, x, l)].id;
  }

  /** With unique ids, an item's id is among `x`'s parent ids exactly when
      the item is a proper ancestor of `x`. */
  lemma IdInParentIds(items: seq<NavItem>, x: nat, y: nat)
    requires UniqueIds(items) && x < |items| && Rooted(items, x) && y < |items|
    ensures items[y].id in ParentIds(items, x) <==>
      exists l :: 0 <= l < Level(items, x) && Anc(items, x, l) == y
  {
    if items[y].id in ParentIds(items, x) {
      ParentIdIsAncestor(items, x, y);
    }
    if exists l :: 0 <= l < Level(items, x) && Anc(items, x, l) == y {
      var l :| 0 <= l < Level(items, x) && Anc(items, x, l) == y;
      AncestorIdIsParentId(items, x, l);
    }
  }

  /** `y` is `x` or one of its proper ancestors. */
  ghost predicate SelfOrAncestor(items: seq<NavItem>, y: nat, x: nat)
    requires x < |items| && Rooted(items, x)
  {
    y == x || exists l :: 0 <= l < Level(items, x) && Anc(items, x, l) == y
  }

  /** How the ids of two listed entries relate their items. */
  lemma EntryIds(items: seq<NavItem>, all: seq<TreeNode>, order: seq<nat>, k: nat, j: nat)
    requires UniqueIds(items) && ListsRooted(items, all, order) && k < |all| && j < |all|
    requires Ends(all, all[j].item.parent)
    requires ParentChain(all, all[j].item.parent) == ParentIds(items, order[j])
    ensures order[j] < |items| && Rooted(items, order[j])
    ensures all[k].item.id == all[j].item.id || all[k].item.id in ParentChain(all, all[j].item.parent) <==>
      SelfOrAncestor(items, order[k], order[j])
  {
    assert order[j] in order;
    assert order[k] in order;
    IndexOfUnique(items, order[j]);
    IndexOfUnique(items, order[k]);
    IdInParentIds(items, order[j], order[k]);
  }

  /** Search mode on a listing of the rooted items: an entry is shown exactly
      when its item matches the query or is a proper ancestor of an item that
      does. */
  lemma SearchShown(items: seq<NavItem>, all: seq<TreeNode>, order: seq<nat>, query: string, k: nat)
    requires UniqueIds(items) && ListsRooted(items, all, order) && k < |all|
    ensures WalksEnd(all)
    ensures SearchMask(all, query)[k] <==>
      exists j :: 0 <= j < |all| && NameMatches(all[j].item, query) && order[j] < |items| && Rooted(items, order[j]) &&
        SelfOrAncestor(items, order[k], order[j])
  {
    ListedWalks(items, all, order);
    MarkedMembers(all, query, |all|, all[k].item.id);
    forall j | 0 <= j < |all|
      ensures order[j] < |items| && Rooted(items, order[j])
      ensures all[k].item.id == all[j].item.id || all[k].item.id in ParentChain(all, all[j].item.parent) <==>
        SelfOrAncestor(items, order[k], order[j])
    {
      EntryIds(items, all, order, k, j);
    }
  }

  /** Search mode on the built tree: the shown entries are the matching items
      and their ancestors. */
  lemma SearchTree(items: seq<NavItem>, query: string, k: nat)
    requires UniqueIds(items) && k < |Flat(Forest(items))|
    ensures WalksEnd(Flat(Forest(items))) && |Listing(items)| == |Flat(Forest(items))|
    ensures SearchMask(Flat(Forest(items)), query)[k] <==>
      exists j :: 0 <= j < |Listing(items)| && NameMatches(items[Listing(items)[j]], query) &&
        Listing(items)[j] < |items| && Rooted(items, Listing(items)[j]) &&
        SelfOrAncestor(items, Listing(items)[k], Listing(items)[j])
  {
    ForestListsRooted(items);
    SearchShown(items, Flat(Forest(items)), Listing(items), query, k);
  }
}
