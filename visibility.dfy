/** The `flatItems` memo: which entries of the flattened tree the sidebar
    shows. With an empty (lower-cased) search query an entry is shown when
    every id on its parent chain is in `expandedItems`; with a query, the
    entries whose lower-cased name contains the query are shown together with
    every id on their parent chains.

    The parent chain of an entry is what the `while (currentParentId)` walk
    visits: the entry's own parent id, then the parent id of the first entry
    carrying that id, and so on until a parent id is falsy or names no
    entry. */
module Visibility {
  import opened Nav
  import opened TreeBuilder

  // ---------------------------------------------------------------------------
  // The ancestor walk
  // ---------------------------------------------------------------------------

  /** The items of the flattened entries. */
  function Entries(all: seq<TreeNode>): (r: seq<NavItem>)
    ensures |r| == |all|
    ensures forall k :: 0 <= k < |all| ==> r[k] == all[k].item
  {
    seq(|all|, k requires 0 <= k < |all| => all[k].item)
  }

  /** `parent?.parentId` for `parent = allFlat.find(i => i.id === id)`: the
      parent reference of the first entry carrying `id`, and `undefined` when
      no entry carries it. */
  function NextRef(all: seq<TreeNode>, id: string): ParentRef
  {
    match IndexOf(Entries(all), id)
    case None => Absent
    case Some(k) => all[k].item.parent
  }

  /** The ids the walk visits from `p`, provided it stops within `fuel`
      steps. */
  function Chain(all: seq<TreeNode>, p: ParentRef, fuel: nat): Option<seq<string>>
    decreases fuel
  {
    if !HasParentId(p) then Some([])
    else if fuel == 0 then None
    else match Chain(all, NextRef(all, p.id), fuel - 1)
      case None => None
      case Some(c) => Some([p.id] + c)
  }

  /** More fuel does not change the outcome of a walk that has stopped. */
  lemma {:induction false} ChainFuel(all: seq<TreeNode>, p: ParentRef, f: nat, g: nat)
    requires Chain(all, p, f).Some? && f <= g
    ensures Chain(all, p, g) == Chain(all, p, f)
    decreases f
  {
    if HasParentId(p) {
      ChainFuel(all, NextRef(all, p.id), f - 1, g - 1);
    }
  }

  /** Every amount of fuel with which the walk stops gives the same ids. */
  lemma ChainUnique(all: seq<TreeNode>, p: ParentRef, f: nat)
    requires Chain(all, p, f).Some?
    ensures forall g: nat :: Chain(all, p, g).Some? ==> Chain(all, p, g) == Chain(all, p, f)
  {
    forall g: nat | Chain(all, p, g).Some? ensures Chain(all, p, g) == Chain(all, p, f) {
      if f <= g {
        ChainFuel(all, p, f, g);
      } else {
        ChainFuel(all, p, g, f);
      }
    }
  }

  /** The walk from `p` stops. It runs forever on a cycle of parent ids. */
  ghost predicate Ends(all: seq<TreeNode>, p: ParentRef)
  {
    exists f: nat :: Chain(all, p, f).Some?
  }

  /** The ids visited by a walk that stops. */
  ghost function ParentChain(all: seq<TreeNode>, p: ParentRef): (c: seq<string>)
    requires Ends(all, p)
    ensures forall f: nat :: Chain(all, p, f).Some? ==> Chain(all, p, f) == Some(c)
  {
    var f: nat :| Chain(all, p, f).Some?;
    ChainUnique(all, p, f);
    Chain(all, p, f).value
  }

  /** One step of the walk: a truthy parent id is visited, then the walk goes
      on from the parent reference of the entry it names. */
  lemma ParentChainStep(all: seq<TreeNode>, p: ParentRef)
    requires Ends(all, p)
    ensures !HasParentId(p) ==> ParentChain(all, p) == []
    ensures HasParentId(p) ==>
      Ends(all, NextRef(all, p.id)) &&
      ParentChain(all, p) == [p.id] + ParentChain(all, NextRef(all, p.id))
  {
    var f: nat :| Chain(all, p, f).Some?;
    if HasParentId(p) {
      assert Chain(all, NextRef(all, p.id), f - 1).Some?;
    }
  }

  /** Every entry's walk stops. */
  ghost predicate WalksEnd(all: seq<TreeNode>)
  {
    forall k :: 0 <= k < |all| ==> Ends(all, all[k].item.parent)
  }

  /** Every id of the list is in `expanded`. */
  predicate AllIn(ids: seq<string>, expanded: seq<string>)
  {
    forall i :: 0 <= i < |ids| ==> ids[i] in expanded
  }

  function Elems(s: seq<string>): set<string>
  {
    set x | x in s
  }

  // ---------------------------------------------------------------------------
  // Order-preserving selection (`Array.prototype.filter`)
  // ---------------------------------------------------------------------------

  /** The entries whose flag is set, in their original order. */
  function Select<T>(s: seq<T>, keep: seq<bool>): seq<T>
    requires |keep| == |s|
    decreases |s|
  {
    if s == [] then []
    else Select(s[..|s| - 1], keep[..|s| - 1]) + (if keep[|s| - 1] then [s[|s| - 1]] else [])
  }

  /** The positions whose flag is set, ascending. */
  function Kept(keep: seq<bool>): (r: seq<nat>)
    ensures forall a :: 0 <= a < |r| ==> r[a] < |keep|
    decreases |keep|
  {
    if keep == [] then []
    else Kept(keep[..|keep| - 1]) + (if keep[|keep| - 1] then [|keep| - 1] else [])
  }

  /** A position is kept exactly when its flag is set. */
  lemma {:induction false} KeptMembers(keep: seq<bool>)
    ensures forall k: nat :: k in Kept(keep) <==> k < |keep| && keep[k]
    decreases |keep|
  {
    if keep != [] {
      var m := |keep| - 1;
      KeptMembers(keep[..m]);
      assert forall k :: 0 <= k < m ==> keep[..m][k] == keep[k];
    }
  }

  /** The kept positions ascend. */
  lemma {:induction false} KeptIncreasing(keep: seq<bool>)
    ensures Increasing(Kept(keep))
    decreases |keep|
  {
    if keep != [] {
      KeptIncreasing(keep[..|keep| - 1]);
    }
  }

  /** The `j`-th entry kept is the entry at the `j`-th kept position. */
  lemma {:induction false} SelectAt<T>(s: seq<T>, keep: seq<bool>)
    requires |keep| == |s|
    ensures |Select(s, keep)| == |Kept(keep)|
    ensures forall j :: 0 <= j < |Kept(keep)| ==> Kept(keep)[j] < |s| && Select(s, keep)[j] == s[Kept(keep)[j]]
    decreases |s|
  {
    if s != [] {
      var m := |s| - 1;
      SelectAt(s[..m], keep[..m]);
      assert forall k :: 0 <= k < m ==> s[..m][k] == s[k];
    }
  }

  /** `filter` is an order-preserving subsequence: the `j`-th entry kept is
      the entry at the `j`-th kept position, the kept positions ascend, and a
      position is kept exactly when its flag is set. */
  lemma SelectKept<T>(s: seq<T>, keep: seq<bool>)
    requires |keep| == |s|
    ensures |Select(s, keep)| == |Kept(keep)|
    ensures forall j :: 0 <= j < |Kept(keep)| ==> Kept(keep)[j] < |s| && Select(s, keep)[j] == s[Kept(keep)[j]]
    ensures Increasing(Kept(keep))
    ensures forall k: nat :: k in Kept(keep) <==> k < |s| && keep[k]
  {
    KeptMembers(keep);
    KeptIncreasing(keep);
    SelectAt(s, keep);
  }

  /** Extending the filter by one more entry. */
  lemma SelectSnoc<T>(s: seq<T>, keep: seq<bool>, k: nat)
    requires |keep| == |s| && k < |s|
    ensures Select(s[..k + 1], keep[..k + 1]) ==
      Select(s[..k], keep[..k]) + (if keep[k] then [s[k]] else [])
  {
    assert s[..k + 1][..k] == s[..k];
    assert keep[..k + 1][..k] == keep[..k];
  }

  // ---------------------------------------------------------------------------
  // Browse mode
  // ---------------------------------------------------------------------------

  /** Browse mode keeps an entry exactly when every id on its parent chain
      is expanded. */
  ghost function BrowseMask(all: seq<TreeNode>, expanded: seq<string>): (keep: seq<bool>)
    requires WalksEnd(all)
    ensures |keep| == |all|
  {
    seq(|all|, k requires 0 <= k < |all| => AllIn(ParentChain(all, all[k].item.parent), expanded))
  }

  /** The body of the browse-mode filter callback: `true` for an entry
      without a parent id, otherwise walk up and fail at the first id that is
      not expanded. */
  method AncestorsExpanded(all: seq<TreeNode>, expanded: seq<string>, item: NavItem) returns (keep: bool)
    requires Ends(all, item.parent)
    ensures keep == AllIn(ParentChain(all, item.parent), expanded)
  {
    if !HasParentId(item.parent) {
      ParentChainStep(all, item.parent);
      return true;
    }
    var cur := item.parent;
    ghost var f: nat :| Chain(all, cur, f).Some?;
    while HasParentId(cur)
      invariant Chain(all, cur, f).Some?
      invariant AllIn(ParentChain(all, item.parent), expanded) == AllIn(ParentChain(all, cur), expanded)
      decreases f
    {
      ParentChainStep(all, cur);
      if cur.id !in expanded {
        assert ParentChain(all, cur)[0] == cur.id;
        return false;
      }
      var next := NextRef(all, cur.id);
      assert ParentChain(all, cur)[1..] == ParentChain(all, next);
      cur := next;
      f := f - 1;
    }
    ParentChainStep(all, cur);
    keep := true;
  }

  /** An entry without a truthy parent id is always shown in browse mode. */
  lemma BrowseKeepsTopLevel(all: seq<TreeNode>, expanded: seq<string>, k: nat)
    requires WalksEnd(all) && k < |all| && !HasParentId(all[k].item.parent)
    ensures BrowseMask(all, expanded)[k]
  {
    ParentChainStep(all, all[k].item.parent);
  }

  /** In browse mode a shown entry's parent is shown too: the parent's chain
      is the rest of the entry's chain. */
  lemma BrowseParentShown(all: seq<TreeNode>, expanded: seq<string>, k: nat, j: nat)
    requires WalksEnd(all) && k < |all| && BrowseMask(all, expanded)[k]
    requires HasParentId(all[k].item.parent)
    requires IndexOf(Entries(all), all[k].item.parent.id) == Some(j)
    ensures BrowseMask(all, expanded)[j]
  {
    var p := all[k].item.parent;
    ParentChainStep(all, p);
    var c := ParentChain(all, p);
    assert c[1..] == ParentChain(all, all[j].item.parent);
    forall i | 0 <= i < |c| - 1 ensures c[1..][i] in expanded {
      assert c[1..][i] == c[i + 1];
    }
  }

  /** Expanding more ids never hides an entry in browse mode. */
  lemma BrowseMonotone(all: seq<TreeNode>, expanded: seq<string>, more: seq<string>)
    requires WalksEnd(all)
    requires forall id :: id in expanded ==> id in more
    ensures forall k: nat :: k in Kept(BrowseMask(all, expanded)) ==> k in Kept(BrowseMask(all, more))
  {
    SelectKept(all, BrowseMask(all, expanded));
    SelectKept(all, BrowseMask(all, more));
  }

  // ---------------------------------------------------------------------------
  // Search mode
  // ---------------------------------------------------------------------------

  /** `item.name.toLowerCase().includes(query)`, with `query` already
      lower-cased. */
  predicate NameMatches(item: NavItem, query: string)
  {
    Includes(Lower(item.name), query)
  }

  /** The contents of `matchedIds` after the loop has visited the first `m`
      entries: each matching entry adds its id and its parent chain. */
  ghost function MarkedIn(all: seq<TreeNode>, query: string, m: nat): set<string>
    requires WalksEnd(all) && m <= |all|
  {
    if m == 0 then {}
    else
      var item := all[m - 1].item;
      var added := if NameMatches(item, query) then {item.id} + Elems(ParentChain(all, item.parent)) else {};
      MarkedIn(all, query, m - 1) + added
  }

  /** An id is marked exactly when it belongs to a matching entry or lies on
      a matching entry's parent chain. */
  lemma {:induction false} MarkedMembers(all: seq<TreeNode>, query: string, m: nat, id: string)
    requires WalksEnd(all) && m <= |all|
    ensures id in MarkedIn(all, query, m) <==>
      exists k :: 0 <= k < m && NameMatches(all[k].item, query) &&
        (id == all[k].item.id || id in ParentChain(all, all[k].item.parent))
  {
    if m > 0 {
      MarkedMembers(all, query, m - 1, id);
    }
  }

  /** Search mode keeps an entry exactly when its id is marked. */
  ghost function SearchMask(all: seq<TreeNode>, query: string): (keep: seq<bool>)
    requires WalksEnd(all)
    ensures |keep| == |all|
  {
    seq(|all|, k requires 0 <= k < |all| => all[k].item.id in MarkedIn(all, query, |all|))
  }

  /** The inner `while` of the search loop: add the entry's id, then every
      id on its parent chain. */
  method MarkMatch(all: seq<TreeNode>, item: NavItem, matched: set<string>) returns (m: set<string>)
    requires Ends(all, item.parent)
    ensures m == matched + {item.id} + Elems(ParentChain(all, item.parent))
  {
    m := matched + {item.id};
    var cur := item.parent;
    ghost var f: nat :| Chain(all, cur, f).Some?;
    while HasParentId(cur)
      invariant Chain(all, cur, f).Some?
      invariant m + Elems(ParentChain(all, cur)) == matched + {item.id} + Elems(ParentChain(all, item.parent))
      decreases f
    {
      ParentChainStep(all, cur);
      var next := NextRef(all, cur.id);
      assert Elems(ParentChain(all, cur)) == {cur.id} + Elems(ParentChain(all, next));
      m := m + {cur.id};
      cur := next;
      f := f - 1;
    }
    ParentChainStep(all, cur);
  }

  /** A matching entry is shown in search mode. */
  lemma SearchKeepsMatch(all: seq<TreeNode>, query: string, k: nat)
    requires WalksEnd(all) && k < |all| && NameMatches(all[k].item, query)
    ensures SearchMask(all, query)[k]
  {
    MarkedMembers(all, query, |all|, all[k].item.id);
  }

  /** An id on a walk's chain is followed by the walk from the entry it
      names: that walk's ids all lie on the chain. */
  lemma {:induction false} ChainSuffix(all: seq<TreeNode>, p: ParentRef, id: string)
    requires Ends(all, p) && id in ParentChain(all, p)
    ensures Ends(all, NextRef(all, id))
    ensures Elems(ParentChain(all, NextRef(all, id))) <= Elems(ParentChain(all, p))
    decreases |ParentChain(all, p)|
  {
    ParentChainStep(all, p);
    if id != p.id {
      ChainSuffix(all, NextRef(all, p.id), id);
    }
  }

  /** In search mode the parent of a shown entry is shown too, when entry
      ids are unique (as they are in a built tree). */
  lemma SearchParentShown(all: seq<TreeNode>, query: string, k: nat, j: nat)
    requires WalksEnd(all) && UniqueIds(Entries(all)) && k < |all| && SearchMask(all, query)[k]
    requires HasParentId(all[k].item.parent)
    requires IndexOf(Entries(all), all[k].item.parent.id) == Some(j)
    ensures SearchMask(all, query)[j]
  {
    var id := all[k].item.id;
    var pid := all[k].item.parent.id;
    MarkedMembers(all, query, |all|, id);
    var z :| 0 <= z < |all| && NameMatches(all[z].item, query) &&
      (id == all[z].item.id || id in ParentChain(all, all[z].item.parent));
    ParentChainStep(all, all[k].item.parent);
    assert pid in ParentChain(all, all[k].item.parent);
    if id == all[z].item.id {
      assert Entries(all)[z].id == Entries(all)[k].id;
      assert z == k;
    } else {
      ChainSuffix(all, all[z].item.parent, id);
      IndexOfUnique(Entries(all), k);
      assert NextRef(all, id) == all[k].item.parent;
      assert pid in Elems(ParentChain(all, all[k].item.parent));
    }
    MarkedMembers(all, query, |all|, pid);
  }

  // ---------------------------------------------------------------------------
  // flatItems
  // ---------------------------------------------------------------------------

  /** What `flatItems` returns for the flattened tree `all`. */
  ghost function View(all: seq<TreeNode>, searchQuery: string, expanded: seq<string>): seq<TreeNode>
    requires WalksEnd(all)
  {
    var query := Lower(searchQuery);
    if query == [] then Select(all, BrowseMask(all, expanded))
    else Select(all, SearchMask(all, query))
  }

  method BrowseFilter(all: seq<TreeNode>, expanded: seq<string>) returns (visible: seq<TreeNode>)
    requires WalksEnd(all)
    ensures visible == Select(all, BrowseMask(all, expanded))
  {
    ghost var mask := BrowseMask(all, expanded);
    visible := [];
    for k := 0 to |all|
      invariant visible == Select(all[..k], mask[..k])
    {
      var keep := AncestorsExpanded(all, expanded, all[k].item);
      if keep {
        visible := visible + [all[k]];
      }
      SelectSnoc(all, mask, k);
    }
    assert all[..|all|] == all && mask[..|all|] == mask;
  }

  method SearchFilter(all: seq<TreeNode>, query: string) returns (visible: seq<TreeNode>)
    requires WalksEnd(all)
    ensures visible == Select(all, SearchMask(all, query))
  {
    var matchedIds: set<string> := {};
    for k := 0 to |all|
      invariant matchedIds == MarkedIn(all, query, k)
    {
      var item := all[k].item;
      if Includes(Lower(item.name), query) {
        matchedIds := MarkMatch(all, item, matchedIds);
      }
    }
    ghost var mask := SearchMask(all, query);
    visible := [];
    for k := 0 to |all|
      invariant visible == Select(all[..k], mask[..k])
    {
      if all[k].item.id in matchedIds {
        visible := visible + [all[k]];
      }
      SelectSnoc(all, mask, k);
    }
    assert all[..|all|] == all && mask[..|all|] == mask;
  }

  /** `flatItems`: browse mode for an empty lower-cased query, search mode
      otherwise. */
  method FlatItems(all: seq<TreeNode>, searchQuery: string, expanded: seq<string>) returns (visible: seq<TreeNode>)
    requires WalksEnd(all)
    ensures visible == View(all, searchQuery, expanded)
  {
    var query := Lower(searchQuery);
    if query == [] {
      visible := BrowseFilter(all, expanded);
    } else {
      visible := SearchFilter(all, query);
    }
  }
}
