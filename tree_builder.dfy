/** `buildTree`: turns the flat item list into a forest. Items are indexed by
    id, each item is attached under the item its `parentId` names (or becomes
    a root), the depth of a child is its parent's depth at that moment plus
    one, and every sibling list is then sorted stably by `order ?? 0`.

    Items are referred to by their position in the input list. The recursion
    that sorts and copies the nodes terminates because every node reached from
    a root sits at a finite distance from it; that distance (`Level`) is
    bounded by the number of items. */
module TreeBuilder {
  import opened Nav

  // ---------------------------------------------------------------------------
  // Parent links
  // ---------------------------------------------------------------------------

  /** Item `i` goes under another node: its parent id is truthy and names an
      item of the list. Otherwise it is pushed to the roots. */
  predicate Attached(items: seq<NavItem>, i: nat)
    requires i < |items|
  {
    HasParentId(items[i].parent) && IndexOf(items, items[i].parent.id).Some?
  }

  /** The position of the item an attached item names as its parent. */
  function Up(items: seq<NavItem>, i: nat): (p: nat)
    requires i < |items| && Attached(items, i)
    ensures p < |items| && items[p].id == items[i].parent.id
  {
    IndexOf(items, items[i].parent.id).value
  }

  /** Number of parent hops from `i` to a root, if a root is reached within
      `fuel` hops. */
  function RootDist(items: seq<NavItem>, i: nat, fuel: nat): Option<nat>
    requires i < |items|
    decreases fuel
  {
    if !Attached(items, i) then Some(0)
    else if fuel == 0 then None
    else match RootDist(items, Up(items, i), fuel - 1)
      case None => None
      case Some(d) => Some(d + 1)
  }

  /** Item `i` is reachable from a root: following parent links from it
      reaches an item that is not attached. Items on a parent cycle (an item
      naming itself included) and their descendants are not rooted. */
  predicate Rooted(items: seq<NavItem>, i: nat)
    requires i < |items|
  {
    RootDist(items, i, |items|).Some?
  }

  /** The nesting level of a rooted item: 0 for a root, parent's level + 1. */
  function Level(items: seq<NavItem>, i: nat): nat
    requires i < |items| && Rooted(items, i)
  {
    RootDist(items, i, |items|).value
  }

  /** The ancestor `t` hops above `i` (stopping at a root). */
  function Climb(items: seq<NavItem>, i: nat, t: nat): (a: nat)
    requires i < |items|
    ensures a < |items|
    decreases t
  {
    if t == 0 || !Attached(items, i) then i else Climb(items, Up(items, i), t - 1)
  }

  /** A root reached within `f` hops is reached within any `g` at least as
      large as the distance, at the same distance. */
  lemma {:induction false} RootDistMonotone(items: seq<NavItem>, i: nat, f: nat, g: nat)
    requires i < |items| && RootDist(items, i, f).Some?
    ensures RootDist(items, i, f).value <= f
    ensures g >= RootDist(items, i, f).value ==> RootDist(items, i, g) == RootDist(items, i, f)
    decreases f
  {
    if Attached(items, i) {
      RootDistMonotone(items, Up(items, i), f - 1, if g > 0 then g - 1 else 0);
    }
  }

  /** Walking `t` hops up from an item `d` hops away from a root lands on an
      item `d - t` hops away from it. */
  lemma {:induction false} ClimbDist(items: seq<NavItem>, i: nat, f: nat, t: nat)
    requires i < |items| && RootDist(items, i, f).Some?
    requires t <= RootDist(items, i, f).value
    ensures t <= f
    ensures RootDist(items, Climb(items, i, t), f - t) == Some(RootDist(items, i, f).value - t)
    decreases t
  {
    RootDistMonotone(items, i, f, f);
    if t > 0 {
      ClimbDist(items, Up(items, i), f - 1, t - 1);
    }
  }

  /** A set of numbers below `n` has at most `n` elements. */
  lemma {:induction false} SmallSet(s: set<nat>, n: nat)
    requires forall x :: x in s ==> x < n
    ensures |s| <= n
    decreases n
  {
    if n == 0 {
      assert s == {};
    } else {
      SmallSet(s - {n - 1}, n - 1);
    }
  }

  /** Pigeonhole: the `d + 1` items on the way from `i` to its root are
      pairwise different, so `d` is smaller than the number of items. */
  lemma RootDistBound(items: seq<NavItem>, i: nat, f: nat)
    requires i < |items| && RootDist(items, i, f).Some?
    ensures RootDist(items, i, f).value < |items|
  {
    var d := RootDist(items, i, f).value;
    var count: nat := 0;
    var seen: set<nat> := {};
    while count <= d
      invariant count <= d + 1
      invariant forall x :: x in seen ==> x < |items|
      invariant forall x :: x in seen ==> exists t :: 0 <= t < count && Climb(items, i, t) == x
      invariant |seen| == count
    {
      var x := Climb(items, i, count);
      if x in seen {
        var s :| 0 <= s < count && Climb(items, i, s) == x;
        ClimbDist(items, i, f, s);
        ClimbDist(items, i, f, count);
        RootDistMonotone(items, x, f - s, f);
        RootDistMonotone(items, x, f - count, f);
        assert false;
      }
      forall y | y in seen + {x}
        ensures exists t :: 0 <= t < count + 1 && Climb(items, i, t) == y
      {
        if y != x {
          var t :| 0 <= t < count && Climb(items, i, t) == y;
          assert 0 <= t < count + 1;
        }
      }
      seen := seen + {x};
      count := count + 1;
    }
    SmallSet(seen, |items|);
  }

  /** The child of a rooted item is rooted, one level further down. */
  lemma ChildLevel(items: seq<NavItem>, p: nat, c: nat)
    requires p < |items| && Rooted(items, p)
    requires c < |items| && Attached(items, c) && Up(items, c) == p
    ensures Rooted(items, c) && Level(items, c) == Level(items, p) + 1
  {
    RootDistBound(items, p, |items|);
    RootDistMonotone(items, p, |items|, |items| - 1);
  }

  // ---------------------------------------------------------------------------
  // What the two loops of buildTree compute
  // ---------------------------------------------------------------------------

  /** Positions below `m` whose item is pushed to `roots`, in input order. */
  function RootsIn(items: seq<NavItem>, m: nat): seq<nat>
    requires m <= |items|
  {
    if m == 0 then []
    else RootsIn(items, m - 1) + (if Attached(items, m - 1) then [] else [m - 1])
  }

  function Roots(items: seq<NavItem>): seq<nat>
  {
    RootsIn(items, |items|)
  }

  /** Positions below `m` whose item is pushed to `p`'s `children`. */
  function ChildrenIn(items: seq<NavItem>, p: nat, m: nat): seq<nat>
    requires m <= |items|
  {
    if m == 0 then []
    else ChildrenIn(items, p, m - 1)
         + (if Attached(items, m - 1) && Up(items, m - 1) == p then [m - 1] else [])
  }

  function ChildTable(items: seq<NavItem>): seq<seq<nat>>
  {
    seq(|items|, p requires 0 <= p < |items| => ChildrenIn(items, p, |items|))
  }

  /** `node.depth = parent.depth + 1` is evaluated when the child is visited:
      a parent visited earlier has its final depth, one visited later (or the
      item itself) still has depth 0. */
  function Depth(items: seq<NavItem>, i: nat): nat
    requires i < |items|
    decreases i
  {
    if !Attached(items, i) then 0
    else if Up(items, i) < i then Depth(items, Up(items, i)) + 1
    else 1
  }

  function DepthTable(items: seq<NavItem>): seq<nat>
  {
    seq(|items|, i requires 0 <= i < |items| => Depth(items, i))
  }

  /** The roots list holds exactly the items that are not attached, each once,
      in input order. */
  lemma {:induction false} RootsInFacts(items: seq<NavItem>, m: nat)
    requires m <= |items|
    ensures forall x: nat :: x in RootsIn(items, m) <==> x < m && !Attached(items, x)
    ensures Increasing(RootsIn(items, m))
  {
    if m > 0 {
      RootsInFacts(items, m - 1);
      var prev := RootsIn(items, m - 1);
      assert forall k :: 0 <= k < |prev| ==> prev[k] in prev;
    }
  }

  /** A children list holds exactly the items attached under `p`, each once,
      in input order. */
  lemma {:induction false} ChildrenInFacts(items: seq<NavItem>, p: nat, m: nat)
    requires m <= |items|
    ensures forall x: nat :: x in ChildrenIn(items, p, m) <==>
      x < m && Attached(items, x) && Up(items, x) == p
    ensures Increasing(ChildrenIn(items, p, m))
  {
    if m > 0 {
      ChildrenInFacts(items, p, m - 1);
      var prev := ChildrenIn(items, p, m - 1);
      assert forall k :: 0 <= k < |prev| ==> prev[k] in prev;
    }
  }

  predicate Increasing(s: seq<nat>)
  {
    forall a, b :: 0 <= a < b < |s| ==> s[a] < s[b]
  }

  // ---------------------------------------------------------------------------
  // sortByOrder: a stable sort on `order ?? 0`
  // ---------------------------------------------------------------------------

  predicate Indices(items: seq<NavItem>, s: seq<nat>)
  {
    forall k :: 0 <= k < |s| ==> s[k] < |items|
  }

  function Key(items: seq<NavItem>, i: nat): int
    requires i < |items|
  {
    OrderKey(items[i])
  }

  /** Ascending by `order ?? 0`. */
  predicate SortedByOrder(items: seq<NavItem>, s: seq<nat>)
    requires Indices(items, s)
  {
    forall a, b :: 0 <= a < b < |s| ==> Key(items, s[a]) <= Key(items, s[b])
  }

  /** Ascending by `order ?? 0`, equal keys in input order. */
  predicate StablySorted(items: seq<NavItem>, s: seq<nat>)
    requires Indices(items, s)
  {
    forall a, b :: 0 <= a < b < |s| ==>
      Key(items, s[a]) < Key(items, s[b]) || (Key(items, s[a]) == Key(items, s[b]) && s[a] < s[b])
  }

  /** Insert `x` behind every element whose key is not larger than its own. */
  function InsertByOrder(items: seq<NavItem>, s: seq<nat>, x: nat): (r: seq<nat>)
    requires Indices(items, s) && x < |items|
    ensures |r| == |s| + 1 && multiset(r) == multiset(s) + multiset{x}
    ensures forall y :: y in r <==> y in s || y == x
    ensures Indices(items, r)
  {
    if s == [] then [x]
    else if Key(items, x) < Key(items, s[0]) then [x] + s
    else
      assert s == [s[0]] + s[1..];
      [s[0]] + InsertByOrder(items, s[1..], x)
  }

  lemma {:induction false} InsertSorted(items: seq<NavItem>, s: seq<nat>, x: nat)
    requires Indices(items, s) && x < |items| && SortedByOrder(items, s)
    ensures SortedByOrder(items, InsertByOrder(items, s, x))
  {
    if s != [] && Key(items, x) >= Key(items, s[0]) {
      InsertSorted(items, s[1..], x);
      var r := InsertByOrder(items, s, x);
      forall b | 1 <= b < |r| ensures Key(items, r[0]) <= Key(items, r[b]) {
        assert r[b] in InsertByOrder(items, s[1..], x);
        if r[b] != x {
          var j :| 0 <= j < |s[1..]| && s[1..][j] == r[b];
        }
      }
    }
  }

  /** Inserting an index larger than every entry keeps the list ordered by
      key and, for equal keys, by index. */
  lemma {:induction false} InsertStable(items: seq<NavItem>, s: seq<nat>, x: nat)
    requires Indices(items, s) && x < |items| && StablySorted(items, s)
    requires forall y :: y in s ==> y < x
    ensures StablySorted(items, InsertByOrder(items, s, x))
  {
    if s != [] && Key(items, x) >= Key(items, s[0]) {
      assert s[0] in s;
      forall y | y in s[1..] ensures y < x {
        var j :| 0 <= j < |s[1..]| && s[1..][j] == y;
        assert s[j + 1] == y && s[j + 1] in s;
      }
      InsertStable(items, s[1..], x);
      var r := InsertByOrder(items, s, x);
      forall b | 1 <= b < |r|
        ensures Key(items, r[0]) < Key(items, r[b]) || (Key(items, r[0]) == Key(items, r[b]) && r[0] < r[b])
      {
        assert r[b] in InsertByOrder(items, s[1..], x);
        if r[b] != x {
          var j :| 0 <= j < |s[1..]| && s[1..][j] == r[b];
          assert s[j + 1] == r[b];
        }
      }
    }
  }

  /** `nodes.sort((a, b) => (a.order ?? 0) - (b.order ?? 0))`: Array sort is
      stable, modelled by insertion in input order. */
  function SortByOrder(items: seq<NavItem>, s: seq<nat>): (r: seq<nat>)
    requires Indices(items, s)
    ensures |r| == |s| && multiset(r) == multiset(s)
    ensures forall y :: y in r <==> y in s
    ensures Indices(items, r) && SortedByOrder(items, r)
  {
    if s == [] then []
    else
      var init := s[..|s| - 1];
      assert s == init + [s[|s| - 1]];
      InsertSorted(items, SortByOrder(items, init), s[|s| - 1]);
      InsertByOrder(items, SortByOrder(items, init), s[|s| - 1])
  }

  /** The sort is stable: a list in input order comes out ordered by key and,
      among equal keys, still in input order. */
  lemma {:induction false} SortStable(items: seq<NavItem>, s: seq<nat>)
    requires Indices(items, s) && Increasing(s)
    ensures StablySorted(items, SortByOrder(items, s))
  {
    if s != [] {
      var init := s[..|s| - 1];
      assert s == init + [s[|s| - 1]];
      SortStable(items, init);
      forall y | y in SortByOrder(items, init) ensures y < s[|s| - 1] {
        var j :| 0 <= j < |init| && init[j] == y;
      }
      InsertStable(items, SortByOrder(items, init), s[|s| - 1]);
    }
  }

  // ---------------------------------------------------------------------------
  // The forest
  // ---------------------------------------------------------------------------

  /** Every entry of `kids[p]` is an item attached under `p`. */
  predicate Linked(items: seq<NavItem>, kids: seq<seq<nat>>)
  {
    |kids| == |items| &&
    forall p, k :: 0 <= p < |items| && 0 <= k < |kids[p]| ==>
      kids[p][k] < |items| && Attached(items, kids[p][k]) && Up(items, kids[p][k]) == p
  }

  /** Every entry of `ids` is a rooted item at nesting level `lvl`. */
  predicate AtLevel(items: seq<NavItem>, ids: seq<nat>, lvl: nat)
  {
    forall k :: 0 <= k < |ids| ==>
      ids[k] < |items| && Rooted(items, ids[k]) && Level(items, ids[k]) == lvl
  }

  /** Sorting a list keeps its entries, and so their level. */
  lemma AtLevelSorted(items: seq<NavItem>, ids: seq<nat>, lvl: nat)
    requires Indices(items, ids) && AtLevel(items, ids, lvl)
    ensures AtLevel(items, SortByOrder(items, ids), lvl)
  {
    var r := SortByOrder(items, ids);
    forall k | 0 <= k < |r|
      ensures r[k] < |items| && Rooted(items, r[k]) && Level(items, r[k]) == lvl
    {
      assert r[k] in r;
      var j :| 0 <= j < |ids| && ids[j] == r[k];
    }
  }

  lemma KidsAtLevel(items: seq<NavItem>, kids: seq<seq<nat>>, p: nat)
    requires Linked(items, kids) && p < |items| && Rooted(items, p)
    ensures Level(items, p) < |items|
    ensures AtLevel(items, kids[p], Level(items, p) + 1)
  {
    RootDistBound(items, p, |items|);
    forall k | 0 <= k < |kids[p]|
      ensures Rooted(items, kids[p][k]) && Level(items, kids[p][k]) == Level(items, p) + 1
    {
      ChildLevel(items, p, kids[p][k]);
    }
  }

  /** `{ ...node, children: sortByOrder(node.children) }` for item `p`. */
  function Node(items: seq<NavItem>, kids: seq<seq<nat>>, depth: seq<nat>, p: nat): (t: TreeNode)
    requires Linked(items, kids) && |depth| == |items|
    requires p < |items| && Rooted(items, p)
    ensures t.item == items[p] && t.depth == depth[p]
    decreases |items| - Level(items, p), 0
  {
    KidsAtLevel(items, kids, p);
    TreeNode(items[p], Trees(items, kids, depth, kids[p], Level(items, p) + 1), depth[p])
  }

  /** `sortByOrder(nodes)`: sort the list, then rebuild each node with its
      own children sorted. */
  function Trees(items: seq<NavItem>, kids: seq<seq<nat>>, depth: seq<nat>, ids: seq<nat>, ghost lvl: nat): (r: seq<TreeNode>)
    requires Linked(items, kids) && |depth| == |items| && AtLevel(items, ids, lvl)
    ensures |r| == |ids|
    decreases |items| - lvl, 2
  {
    AtLevelSorted(items, ids, lvl);
    Nodes(items, kids, depth, SortByOrder(items, ids), lvl)
  }

  function Nodes(items: seq<NavItem>, kids: seq<seq<nat>>, depth: seq<nat>, s: seq<nat>, ghost lvl: nat): (r: seq<TreeNode>)
    requires Linked(items, kids) && |depth| == |items| && AtLevel(items, s, lvl)
    ensures |r| == |s|
    ensures forall k :: 0 <= k < |s| ==> r[k] == Node(items, kids, depth, s[k])
    decreases |items| - lvl, 1, |s|
  {
    if s == [] then []
    else [Node(items, kids, depth, s[0])] + Nodes(items, kids, depth, s[1..], lvl)
  }

  lemma LinkedChildTable(items: seq<NavItem>)
    ensures Linked(items, ChildTable(items))
  {
    forall p, k | 0 <= p < |items| && 0 <= k < |ChildTable(items)[p]|
      ensures ChildTable(items)[p][k] < |items| && Attached(items, ChildTable(items)[p][k])
      ensures Up(items, ChildTable(items)[p][k]) == p
    {
      ChildrenInFacts(items, p, |items|);
      assert ChildTable(items)[p][k] in ChildrenIn(items, p, |items|);
    }
  }

  lemma RootsAtLevelZero(items: seq<NavItem>)
    ensures AtLevel(items, Roots(items), 0)
  {
    RootsInFacts(items, |items|);
    forall k | 0 <= k < |Roots(items)|
      ensures Roots(items)[k] < |items| && Rooted(items, Roots(items)[k])
      ensures Level(items, Roots(items)[k]) == 0
    {
      assert Roots(items)[k] in Roots(items);
    }
  }

  /** The forest `buildTree(items)` returns. */
  function Forest(items: seq<NavItem>): seq<TreeNode>
  {
    LinkedChildTable(items);
    RootsAtLevelZero(items);
    Trees(items, ChildTable(items), DepthTable(items), Roots(items), 0)
  }

  /** The children lists after the second loop has visited the first `m`
      items. */
  function KidsAfter(items: seq<NavItem>, m: nat): (t: seq<seq<nat>>)
    requires m <= |items|
    ensures |t| == |items|
  {
    seq(|items|, p requires 0 <= p < |items| => ChildrenIn(items, p, m))
  }

  /** The depths after the second loop has visited the first `m` items; the
      items not yet visited still hold 0. */
  function DepthsAfter(items: seq<NavItem>, m: nat): (t: seq<nat>)
    requires m <= |items|
    ensures |t| == |items|
  {
    seq(|items|, j requires 0 <= j < |items| => if j < m then Depth(items, j) else 0)
  }

  /** Visiting an attached item appends it to its parent's children. */
  lemma KidsStepAttached(items: seq<NavItem>, i: nat)
    requires i < |items| && Attached(items, i)
    ensures KidsAfter(items, i + 1)
      == KidsAfter(items, i)[Up(items, i) := KidsAfter(items, i)[Up(items, i)] + [i]]
  {
    var p := Up(items, i);
    var before, after := KidsAfter(items, i), KidsAfter(items, i + 1);
    forall q | 0 <= q < |items|
      ensures after[q] == before[p := before[p] + [i]][q]
    {
    }
  }

  /** Visiting a root leaves every children list as it was. */
  lemma KidsStepRoot(items: seq<NavItem>, i: nat)
    requires i < |items| && !Attached(items, i)
    ensures KidsAfter(items, i + 1) == KidsAfter(items, i)
  {
    forall q | 0 <= q < |items| ensures KidsAfter(items, i + 1)[q] == KidsAfter(items, i)[q] {
    }
  }

  /** Visiting item `i` records its depth, read off the parent's current
      entry. */
  lemma DepthStep(items: seq<NavItem>, i: nat)
    requires i < |items|
    ensures DepthsAfter(items, i + 1) == DepthsAfter(items, i)[i := Depth(items, i)]
    ensures Attached(items, i) ==> Depth(items, i) == DepthsAfter(items, i)[Up(items, i)] + 1
  {
  }

  /** `itemMap` maps exactly the ids of the list, each to its position. */
  ghost predicate IdMap(items: seq<NavItem>, itemMap: map<string, nat>)
  {
    (forall id :: id in itemMap <==> IndexOf(items, id).Some?)
    && (forall id :: id in itemMap ==> itemMap[id] == IndexOf(items, id).value)
  }

  /** The test `item.parentId && itemMap.has(item.parentId)` decides
      `Attached`, and the map lookup finds `Up`. */
  lemma IdMapLookup(items: seq<NavItem>, itemMap: map<string, nat>, i: nat)
    requires IdMap(items, itemMap) && i < |items|
    ensures Attached(items, i)
      <==> HasParentId(items[i].parent) && items[i].parent.id in itemMap
    ensures Attached(items, i) ==> Up(items, i) == itemMap[items[i].parent.id]
  {
  }

  /** The first loop of `buildTree`: every item's id is mapped to its
      position. */
  method IndexById(items: seq<NavItem>) returns (itemMap: map<string, nat>)
    requires UniqueIds(items)
    ensures IdMap(items, itemMap)
  {
    itemMap := map[];
    for i := 0 to |items|
      invariant forall id :: id in itemMap ==> itemMap[id] < i && items[itemMap[id]].id == id
      invariant forall j :: 0 <= j < i ==> items[j].id in itemMap
    {
      itemMap := itemMap[items[i].id := i];
    }
    forall id ensures id in itemMap <==> IndexOf(items, id).Some? {
      IndexOfFirst(items, id);
    }
    forall id | id in itemMap ensures itemMap[id] == IndexOf(items, id).value {
      IndexOfUnique(items, itemMap[id]);
    }
  }

  /** `buildTree`: the first loop fills the id map, the second attaches each
      item under its parent (recording its depth) or pushes it to the roots;
      the roots are then sorted recursively. */
  method BuildTree(items: seq<NavItem>) returns (forest: seq<TreeNode>)
    requires UniqueIds(items)
    ensures forest == Forest(items)
  {
    var n := |items|;
    var itemMap := IndexById(items);
    var roots: seq<nat> := [];
    var kids: seq<seq<nat>> := seq(n, _ => []);
    var depth: seq<nat> := seq(n, _ => 0);
    assert kids == KidsAfter(items, 0);
    assert depth == DepthsAfter(items, 0);
    for i := 0 to n
      invariant roots == RootsIn(items, i)
      invariant kids == KidsAfter(items, i)
      invariant depth == DepthsAfter(items, i)
    {
      var item := items[i];
      DepthStep(items, i);
      IdMapLookup(items, itemMap, i);
      if HasParentId(item.parent) && item.parent.id in itemMap {
        var p := itemMap[item.parent.id];
        KidsStepAttached(items, i);
        depth := depth[i := depth[p] + 1];
        kids := kids[p := kids[p] + [i]];
      } else {
        KidsStepRoot(items, i);
        assert depth[i := 0] == depth;
        roots := roots + [i];
      }
    }
    assert kids == ChildTable(items);
    assert depth == DepthTable(items);
    LinkedChildTable(items);
    RootsAtLevelZero(items);
    forest := Trees(items, kids, depth, roots, 0);
  }
}
