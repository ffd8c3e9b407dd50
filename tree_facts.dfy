/** What the forest built by `buildTree` contains, stated in terms of the
    input items: who the roots and the children are, in which order they come,
    which items the flattened forest lists (and how often), and at which
    depth. */
module TreeFacts {
  import opened Nav
  import opened TreeBuilder
  import opened Flatten

  // ---------------------------------------------------------------------------
  // Levels and ancestors
  // ---------------------------------------------------------------------------

  /** A rooted item at a positive level is attached, and its parent is rooted
      one level up. */
  lemma UpLevel(items: seq<NavItem>, y: nat)
    requires y < |items| && Rooted(items, y) && Level(items, y) > 0
    ensures Attached(items, y)
    ensures Rooted(items, Up(items, y)) && Level(items, Up(items, y)) == Level(items, y) - 1
  {
    var n := |items|;
    RootDistMonotone(items, Up(items, y), n - 1, n);
  }

  /** A level-0 rooted item is one `buildTree` pushes to the roots. */
  lemma LevelZero(items: seq<NavItem>, y: nat)
    requires y < |items| && Rooted(items, y)
    ensures Level(items, y) == 0 <==> !Attached(items, y)
  {
  }

  /** The ancestor of `y` at level `lvl`. */
  ghost function Anc(items: seq<NavItem>, y: nat, lvl: nat): (a: nat)
    requires y < |items| && Rooted(items, y) && lvl <= Level(items, y)
    ensures a < |items| && Rooted(items, a) && Level(items, a) == lvl
    decreases Level(items, y)
  {
    if Level(items, y) == lvl then y
    else
      UpLevel(items, y);
      Anc(items, Up(items, y), lvl)
  }

  /** The ancestor one level further down hangs under the ancestor at `lvl`. */
  lemma {:induction false} AncUp(items: seq<NavItem>, y: nat, lvl: nat)
    requires y < |items| && Rooted(items, y) && lvl + 1 <= Level(items, y)
    ensures Attached(items, Anc(items, y, lvl + 1))
    ensures Up(items, Anc(items, y, lvl + 1)) == Anc(items, y, lvl)
    decreases Level(items, y)
  {
    UpLevel(items, y);
    if Level(items, y) > lvl + 1 {
      AncUp(items, Up(items, y), lvl);
    }
  }

  // ---------------------------------------------------------------------------
  // Children lists
  // ---------------------------------------------------------------------------

  /** `kids[p]` lists exactly the items attached under `p`, in input order. */
  ghost predicate ChildLists(items: seq<NavItem>, kids: seq<seq<nat>>)
  {
    Linked(items, kids) &&
    (forall p, x :: 0 <= p < |items| && 0 <= x < |items| && Attached(items, x) && Up(items, x) == p
      ==> x in kids[p]) &&
    (forall p :: 0 <= p < |items| ==> Increasing(kids[p]))
  }

  /** The children table `buildTree` fills is such a list. */
  lemma ChildTableLists(items: seq<NavItem>)
    ensures ChildLists(items, ChildTable(items))
  {
    LinkedChildTable(items);
    forall p | 0 <= p < |items|
      ensures Increasing(ChildTable(items)[p])
      ensures forall x ::
                0 <= x < |items| && Attached(items, x) && Up(items, x) == p ==> x in ChildTable(items)[p]
    {
      ChildrenInFacts(items, p, |items|);
    }
  }

  // ---------------------------------------------------------------------------
  // The forest as positions: the order in which the flattening lists items
  // ---------------------------------------------------------------------------

  /** Every entry is a rooted item. */
  ghost predicate AllRooted(items: seq<NavItem>, r: seq<nat>)
  {
    forall k :: 0 <= k < |r| ==> r[k] < |items| && Rooted(items, r[k])
  }

  /** Positions of the items the flattening of `sortByOrder(ids)` lists. */
  ghost function RTrees(items: seq<NavItem>, kids: seq<seq<nat>>, ids: seq<nat>, lvl: nat): (r: seq<nat>)
    requires Linked(items, kids) && AtLevel(items, ids, lvl)
    ensures AllRooted(items, r)
    decreases |items| - lvl, 2
  {
    AtLevelSorted(items, ids, lvl);
    RNodes(items, kids, SortByOrder(items, ids), lvl)
  }

  ghost function RNodes(items: seq<NavItem>, kids: seq<seq<nat>>, s: seq<nat>, lvl: nat): (r: seq<nat>)
    requires Linked(items, kids) && AtLevel(items, s, lvl)
    ensures AllRooted(items, r)
    decreases |items| - lvl, 1, |s|
  {
    if s == [] then []
    else
      KidsAtLevel(items, kids, s[0]);
      [s[0]] + RTrees(items, kids, kids[s[0]], lvl + 1) + RNodes(items, kids, s[1..], lvl)
  }

  /** The nodes `buildTree` makes for a list of rooted positions. */
  ghost function NodesAt(items: seq<NavItem>, kids: seq<seq<nat>>, depth: seq<nat>, r: seq<nat>): (ns: seq<TreeNode>)
    requires Linked(items, kids) && |depth| == |items| && AllRooted(items, r)
    ensures |ns| == |r|
    ensures forall k :: 0 <= k < |r| ==> ns[k] == Node(items, kids, depth, r[k])
  {
    seq(|r|, k requires 0 <= k < |r| => Node(items, kids, depth, r[k]))
  }

  lemma NodesAtAppend(items: seq<NavItem>, kids: seq<seq<nat>>, depth: seq<nat>, a: seq<nat>, b: seq<nat>)
    requires Linked(items, kids) && |depth| == |items|
    requires AllRooted(items, a) && AllRooted(items, b)
    ensures AllRooted(items, a + b)
    ensures NodesAt(items, kids, depth, a + b) == NodesAt(items, kids, depth, a) + NodesAt(items, kids, depth, b)
  {
  }

  /** Flattening the nodes built from `ids` lists the nodes of the positions
      `RTrees` gives, in that order. */
  ghost predicate FlatTreesIs(items: seq<NavItem>, kids: seq<seq<nat>>, depth: seq<nat>, ids: seq<nat>, lvl: nat)
    requires Linked(items, kids) && |depth| == |items| && AtLevel(items, ids, lvl)
  {
    Flat(Trees(items, kids, depth, ids, lvl)) == NodesAt(items, kids, depth, RTrees(items, kids, ids, lvl))
  }

  ghost predicate FlatNodesIs(items: seq<NavItem>, kids: seq<seq<nat>>, depth: seq<nat>, s: seq<nat>, lvl: nat)
    requires Linked(items, kids) && |depth| == |items| && AtLevel(items, s, lvl)
  {
    Flat(Nodes(items, kids, depth, s, lvl)) == NodesAt(items, kids, depth, RNodes(items, kids, s, lvl))
  }

  lemma {:induction false} FlatTrees(items: seq<NavItem>, kids: seq<seq<nat>>, depth: seq<nat>, ids: seq<nat>, lvl: nat)
    requires Linked(items, kids) && |depth| == |items| && AtLevel(items, ids, lvl)
    ensures FlatTreesIs(items, kids, depth, ids, lvl)
    decreases |items| - lvl, 2
  {
    AtLevelSorted(items, ids, lvl);
    FlatNodes(items, kids, depth, SortByOrder(items, ids), lvl);
  }

  lemma {:induction false} FlatNodes(items: seq<NavItem>, kids: seq<seq<nat>>, depth: seq<nat>, s: seq<nat>, lvl: nat)
    requires Linked(items, kids) && |depth| == |items| && AtLevel(items, s, lvl)
    ensures FlatNodesIs(items, kids, depth, s, lvl)
    decreases |items| - lvl, 1, |s|
  {
    if s != [] {
      KidsAtLevel(items, kids, s[0]);
      FlatTrees(items, kids, depth, kids[s[0]], lvl + 1);
      FlatNodes(items, kids, depth, s[1..], lvl);
      FlatNodesStep(items, kids, depth, s, lvl);
    }
  }

  /** The inductive step of `FlatNodes`. */
  lemma FlatNodesStep(items: seq<NavItem>, kids: seq<seq<nat>>, depth: seq<nat>, s: seq<nat>, lvl: nat)
    requires Linked(items, kids) && |depth| == |items| && AtLevel(items, s, lvl) && s != []
    requires Level(items, s[0]) < |items| && AtLevel(items, kids[s[0]], lvl + 1)
    requires FlatTreesIs(items, kids, depth, kids[s[0]], lvl + 1)
    requires FlatNodesIs(items, kids, depth, s[1..], lvl)
    ensures FlatNodesIs(items, kids, depth, s, lvl)
  {
    var t := RTrees(items, kids, kids[s[0]], lvl + 1);
    var rest := RNodes(items, kids, s[1..], lvl);
    NodesCons(items, kids, depth, s, lvl);
    NodesAtAppend(items, kids, depth, [s[0]], t);
    NodesAtAppend(items, kids, depth, [s[0]] + t, rest);
    assert NodesAt(items, kids, depth, [s[0]]) == [Node(items, kids, depth, s[0])];
  }

  /** Flattening the nodes of `s`: the first node, its subtree, the rest. */
  lemma NodesCons(items: seq<NavItem>, kids: seq<seq<nat>>, depth: seq<nat>, s: seq<nat>, lvl: nat)
    requires Linked(items, kids) && |depth| == |items| && AtLevel(items, s, lvl) && s != []
    ensures Level(items, s[0]) < |items| && AtLevel(items, kids[s[0]], lvl + 1)
    ensures Flat(Nodes(items, kids, depth, s, lvl))
      == [Node(items, kids, depth, s[0])] + Flat(Trees(items, kids, depth, kids[s[0]], lvl + 1))
         + Flat(Nodes(items, kids, depth, s[1..], lvl))
  {
    KidsAtLevel(items, kids, s[0]);
    var ns := Nodes(items, kids, depth, s, lvl);
    assert ns[1..] == Nodes(items, kids, depth, s[1..], lvl);
    assert ns[0].children == Trees(items, kids, depth, kids[s[0]], lvl + 1);
  }

  /** Item `y` is rooted, no higher than `lvl`, and its ancestor at `lvl` is
      one of `ids`. */
  ghost predicate Under(items: seq<NavItem>, y: nat, lvl: nat, ids: seq<nat>)
  {
    y < |items| && Rooted(items, y) && lvl <= Level(items, y) && Anc(items, y, lvl) in ids
  }

  /** An item is listed under `ids` exactly when it is `Under` them. */
  lemma {:induction false} RTreesMembers(items: seq<NavItem>, kids: seq<seq<nat>>, ids: seq<nat>, lvl: nat)
    requires ChildLists(items, kids) && AtLevel(items, ids, lvl)
    ensures forall y: nat :: y in RTrees(items, kids, ids, lvl) <==> Under(items, y, lvl, ids)
    decreases |items| - lvl, 2
  {
    AtLevelSorted(items, ids, lvl);
    RNodesMembers(items, kids, SortByOrder(items, ids), lvl);
  }

  /** A descendant of a child of `p` is under `p` one level up. */
  lemma UnderKids(items: seq<NavItem>, kids: seq<seq<nat>>, p: nat, y: nat, lvl: nat)
    requires ChildLists(items, kids)
    requires p < |items| && Rooted(items, p) && Level(items, p) == lvl
    requires y < |items| && Rooted(items, y) && lvl + 1 <= Level(items, y)
    ensures Under(items, y, lvl + 1, kids[p]) <==> Anc(items, y, lvl) == p
  {
    AncUp(items, y, lvl);
    if Anc(items, y, lvl + 1) in kids[p] {
      var k :| 0 <= k < |kids[p]| && kids[p][k] == Anc(items, y, lvl + 1);
    }
  }

  lemma {:induction false} RNodesMembers(items: seq<NavItem>, kids: seq<seq<nat>>, s: seq<nat>, lvl: nat)
    requires ChildLists(items, kids) && AtLevel(items, s, lvl)
    ensures forall y: nat :: y in RNodes(items, kids, s, lvl) <==> Under(items, y, lvl, s)
    decreases |items| - lvl, 1, |s|
  {
    if s != [] {
      KidsAtLevel(items, kids, s[0]);
      RTreesMembers(items, kids, kids[s[0]], lvl + 1);
      RNodesMembers(items, kids, s[1..], lvl);
      assert s == [s[0]] + s[1..];
      forall y: nat ensures y in RNodes(items, kids, s, lvl) <==> Under(items, y, lvl, s) {
        if y < |items| && Rooted(items, y) && lvl + 1 <= Level(items, y) {
          UnderKids(items, kids, s[0], y, lvl);
        }
      }
    }
  }

  // ---------------------------------------------------------------------------
  // Nothing is listed twice
  // ---------------------------------------------------------------------------

  predicate NoDup(s: seq<nat>)
  {
    forall a, b :: 0 <= a < b < |s| ==> s[a] != s[b]
  }

  lemma StableNoDup(items: seq<NavItem>, s: seq<nat>)
    requires Indices(items, s) && StablySorted(items, s)
    ensures NoDup(s)
  {
  }

  lemma NoDupConcat(a: seq<nat>, b: seq<nat>)
    requires NoDup(a) && NoDup(b) && forall x :: x in a ==> x !in b
    ensures NoDup(a + b)
  {
    forall i, j | 0 <= i < j < |a + b| ensures (a + b)[i] != (a + b)[j] {
      if i < |a| && j >= |a| {
        assert (a + b)[i] in a && (a + b)[j] == b[j - |a|];
      }
    }
  }

  lemma HeadNotInTail(s: seq<nat>)
    requires NoDup(s) && s != []
    ensures s[0] !in s[1..]
  {
    forall j | 0 <= j < |s[1..]| ensures s[1..][j] != s[0] {
      assert s[1..][j] == s[j + 1];
    }
  }

  /** `s[0]` is not listed in its own subtree nor under the rest of `s`. */
  lemma HeadOnce(items: seq<NavItem>, kids: seq<seq<nat>>, s: seq<nat>, lvl: nat)
    requires ChildLists(items, kids) && AtLevel(items, s, lvl) && NoDup(s) && s != []
    ensures Level(items, s[0]) < |items| && AtLevel(items, kids[s[0]], lvl + 1)
    ensures s[0] !in RTrees(items, kids, kids[s[0]], lvl + 1)
    ensures s[0] !in RNodes(items, kids, s[1..], lvl)
  {
    KidsAtLevel(items, kids, s[0]);
    RTreesMembers(items, kids, kids[s[0]], lvl + 1);
    RNodesMembers(items, kids, s[1..], lvl);
    HeadNotInTail(s);
  }

  /** The subtree of `s[0]` and the subtrees of the other entries of `s`
      share no item. */
  lemma SubtreesApart(items: seq<NavItem>, kids: seq<seq<nat>>, s: seq<nat>, lvl: nat, y: nat)
    requires ChildLists(items, kids) && AtLevel(items, s, lvl) && NoDup(s) && s != []
    requires Level(items, s[0]) < |items| && AtLevel(items, kids[s[0]], lvl + 1)
    requires y in RTrees(items, kids, kids[s[0]], lvl + 1)
    ensures y !in RNodes(items, kids, s[1..], lvl)
  {
    RTreesMembers(items, kids, kids[s[0]], lvl + 1);
    RNodesMembers(items, kids, s[1..], lvl);
    HeadNotInTail(s);
    UnderKids(items, kids, s[0], y, lvl);
  }

  lemma {:induction false} RTreesNoDup(items: seq<NavItem>, kids: seq<seq<nat>>, ids: seq<nat>, lvl: nat)
    requires ChildLists(items, kids) && AtLevel(items, ids, lvl) && Increasing(ids)
    ensures NoDup(RTrees(items, kids, ids, lvl))
    decreases |items| - lvl, 2
  {
    AtLevelSorted(items, ids, lvl);
    SortStable(items, ids);
    StableNoDup(items, SortByOrder(items, ids));
    RNodesNoDup(items, kids, SortByOrder(items, ids), lvl);
  }

  lemma {:induction false} RNodesNoDup(items: seq<NavItem>, kids: seq<seq<nat>>, s: seq<nat>, lvl: nat)
    requires ChildLists(items, kids) && AtLevel(items, s, lvl) && NoDup(s)
    ensures NoDup(RNodes(items, kids, s, lvl))
    decreases |items| - lvl, 1, |s|
  {
    if s != [] {
      HeadOnce(items, kids, s, lvl);
      var t := RTrees(items, kids, kids[s[0]], lvl + 1);
      var rest := RNodes(items, kids, s[1..], lvl);
      forall y | y in [s[0]] + t ensures y !in rest {
        if y in t {
          SubtreesApart(items, kids, s, lvl, y);
        }
      }
      RTreesNoDup(items, kids, kids[s[0]], lvl + 1);
      RNodesNoDup(items, kids, s[1..], lvl);
      NoDupConcat([s[0]], t);
      NoDupConcat([s[0]] + t, rest);
    }
  }

  // ---------------------------------------------------------------------------
  // The forest `buildTree` returns
  // ---------------------------------------------------------------------------

  /** The positions of the items `flattenTree(buildTree(items))` lists, in
      display order. */
  ghost function Listing(items: seq<NavItem>): seq<nat>
  {
    ChildTableLists(items);
    RootsAtLevelZero(items);
    RTrees(items, ChildTable(items), Roots(items), 0)
  }

  /** The order in which `buildTree` returns the roots. */
  function RootOrder(items: seq<NavItem>): (r: seq<nat>)
    ensures Indices(items, r)
  {
    RootsAtLevelZero(items);
    SortByOrder(items, Roots(items))
  }

  /** The flattened forest shows, at each place, the item `Listing` names
      there, with the depth `buildTree` recorded for it. */
  lemma ForestListing(items: seq<NavItem>)
    ensures |Flat(Forest(items))| == |Listing(items)|
    ensures forall k :: 0 <= k < |Listing(items)| ==>
      Listing(items)[k] < |items| &&
      Flat(Forest(items))[k].item == items[Listing(items)[k]] &&
      Flat(Forest(items))[k].depth == Depth(items, Listing(items)[k])
  {
    var kids, depth := ChildTable(items), DepthTable(items);
    ChildTableLists(items);
    RootsAtLevelZero(items);
    FlatTrees(items, kids, depth, Roots(items), 0);
    assert Flat(Forest(items)) == NodesAt(items, kids, depth, Listing(items));
  }

  /** The flattened forest lists exactly the rooted items, and none twice. */
  lemma ListingMembers(items: seq<NavItem>)
    ensures forall x: nat :: x in Listing(items) <==> x < |items| && Rooted(items, x)
    ensures NoDup(Listing(items))
  {
    var kids := ChildTable(items);
    ChildTableLists(items);
    RootsAtLevelZero(items);
    RootsInFacts(items, |items|);
    RTreesMembers(items, kids, Roots(items), 0);
    forall x: nat | x < |items| && Rooted(items, x) ensures x in Listing(items) {
      assert Anc(items, x, 0) in Roots(items);
    }
    RTreesNoDup(items, kids, Roots(items), 0);
  }

  /** The roots: an item is one exactly when its parent id is missing, empty
      or names no item; they come sorted by `order ?? 0`, ties in input
      order. */
  lemma ForestRoots(items: seq<NavItem>)
    ensures |Forest(items)| == |RootOrder(items)|
    ensures forall k :: 0 <= k < |RootOrder(items)| ==>
      RootOrder(items)[k] < |items| && Forest(items)[k].item == items[RootOrder(items)[k]]
    ensures forall x: nat :: x in RootOrder(items) <==>
      x < |items| &&
      (!HasParentId(items[x].parent) || forall j :: 0 <= j < |items| ==> items[j].id != items[x].parent.id)
    ensures StablySorted(items, RootOrder(items))
    ensures forall a, b :: 0 <= a < b < |Forest(items)| ==>
      OrderKey(Forest(items)[a].item) <= OrderKey(Forest(items)[b].item)
  {
    var kids, depth := ChildTable(items), DepthTable(items);
    LinkedChildTable(items);
    RootsAtLevelZero(items);
    RootsInFacts(items, |items|);
    AtLevelSorted(items, Roots(items), 0);
    SortStable(items, Roots(items));
    forall x: nat | x < |items| && HasParentId(items[x].parent) {
      IndexOfFirst(items, items[x].parent.id);
    }
    NodesItems(items, kids, depth, RootOrder(items), 0);
  }

  /** The nodes built from a list of items of one level carry those items. */
  lemma NodesItems(items: seq<NavItem>, kids: seq<seq<nat>>, depth: seq<nat>, s: seq<nat>, lvl: nat)
    requires Linked(items, kids) && |depth| == |items| && AtLevel(items, s, lvl)
    ensures forall k :: 0 <= k < |s| ==>
      Nodes(items, kids, depth, s, lvl)[k] == Node(items, kids, depth, s[k]) &&
      Nodes(items, kids, depth, s, lvl)[k].item == items[s[k]]
  {
  }

  /** The children of a node: exactly the items whose parent id names it,
      sorted by `order ?? 0`, ties in input order. */
  lemma NodeChildren(items: seq<NavItem>, p: nat)
    requires UniqueIds(items) && p < |items| && Rooted(items, p)
    ensures Linked(items, ChildTable(items))
    ensures var node := Node(items, ChildTable(items), DepthTable(items), p);
      var order := SortByOrder(items, ChildTable(items)[p]);
      Indices(items, order) &&
      |node.children| == |order| &&
      (forall k :: 0 <= k < |order| ==> node.children[k].item == items[order[k]]) &&
      (forall x: nat :: x in order <==>
         x < |items| && HasParentId(items[x].parent) && items[x].parent.id == items[p].id) &&
      StablySorted(items, order)
  {
    var kids, depth := ChildTable(items), DepthTable(items);
    LinkedChildTable(items);
    KidsAtLevel(items, kids, p);
    ChildrenInFacts(items, p, |items|);
    AtLevelSorted(items, kids[p], Level(items, p) + 1);
    SortStable(items, kids[p]);
    NodesItems(items, kids, depth, SortByOrder(items, kids[p]), Level(items, p) + 1);
    IndexOfUnique(items, p);
  }

  // ---------------------------------------------------------------------------
  // Input order, cycles and self-parenting
  // ---------------------------------------------------------------------------

  /** Every attached item comes after the item it names as its parent. */
  ghost predicate ParentsFirst(items: seq<NavItem>)
  {
    forall i :: 0 <= i < |items| && Attached(items, i) ==> Up(items, i) < i
  }

  /** With parents listed before their children, every item is rooted and the
      recorded depth is the true nesting level. */
  lemma {:induction false} ParentsFirstDepth(items: seq<NavItem>, i: nat)
    requires ParentsFirst(items) && i < |items|
    ensures Rooted(items, i) && Depth(items, i) == Level(items, i)
    decreases i
  {
    if Attached(items, i) {
      var p := Up(items, i);
      ParentsFirstDepth(items, p);
      ChildLevel(items, p, i);
    }
  }

  /** A duplicate-free list holding exactly the members of a set has as many
      entries as the set. */
  lemma {:induction false} NoDupCard(s: seq<nat>, m: set<nat>)
    requires NoDup(s) && forall x :: x in s <==> x in m
    ensures |s| == |m|
    decreases s
  {
    if s == [] {
      assert m == {};
    } else {
      var t := s[1..];
      forall x ensures x in t <==> x in m - {s[0]} {
        assert x in s <==> x == s[0] || x in t;
        if x in t {
          var j :| 0 <= j < |t| && t[j] == x;
          assert s[j + 1] == x;
        }
      }
      NoDupCard(t, m - {s[0]});
    }
  }

  /** The numbers below `n`. */
  ghost function Below(n: nat): (r: set<nat>)
    ensures forall x: nat :: x in r <==> x < n
  {
    if n == 0 then {} else Below(n - 1) + {n - 1}
  }

  /** There are `n` numbers below `n`. */
  lemma {:induction false} BelowCard(n: nat)
    ensures |Below(n)| == n
  {
    if n > 0 {
      BelowCard(n - 1);
      assert n - 1 !in Below(n - 1);
    }
  }

  /** A duplicate-free list whose entries are exactly `0 .. n - 1` has `n`
      entries. */
  lemma NoDupLength(s: seq<nat>, n: nat)
    requires NoDup(s) && forall x: nat :: x in s <==> x < n
    ensures |s| == n
  {
    NoDupCard(s, Below(n));
    BelowCard(n);
  }

  /** When parents come first, `flattenTree(buildTree(items))` lists every
      item exactly once and shows each at its true level. */
  lemma ParentsFirstListsAll(items: seq<NavItem>)
    requires ParentsFirst(items)
    ensures |Flat(Forest(items))| == |Listing(items)| == |items|
    ensures forall k :: 0 <= k < |Flat(Forest(items))| ==>
      Listing(items)[k] < |items| && Rooted(items, Listing(items)[k]) &&
      Flat(Forest(items))[k].depth == Level(items, Listing(items)[k])
  {
    ForestListing(items);
    ListingMembers(items);
    forall x: nat | x < |items| ensures Rooted(items, x) && Depth(items, x) == Level(items, x) {
      ParentsFirstDepth(items, x);
    }
    NoDupLength(Listing(items), |items|);
  }

  /** An item whose parent id is its own id is attached under itself: it is
      never reached from a root and does not appear in the flattened
      forest. */
  lemma SelfParentHidden(items: seq<NavItem>, i: nat)
    requires UniqueIds(items) && i < |items|
    requires HasParentId(items[i].parent) && items[i].parent.id == items[i].id
    ensures !Rooted(items, i)
    ensures forall k :: 0 <= k < |Flat(Forest(items))| ==> Flat(Forest(items))[k].item != items[i]
  {
    IndexOfUnique(items, i);
    SelfParentNoRoot(items, i, |items|);
    ForestListing(items);
    ListingMembers(items);
    forall k | 0 <= k < |Flat(Forest(items))| ensures Flat(Forest(items))[k].item != items[i] {
      var x := Listing(items)[k];
      assert x in Listing(items);
      if x != i {
        assert items[x].id != items[i].id;
      }
    }
  }

  lemma {:induction false} SelfParentNoRoot(items: seq<NavItem>, i: nat, f: nat)
    requires i < |items| && Attached(items, i) && Up(items, i) == i
    ensures RootDist(items, i, f).None?
    decreases f
  {
    if f > 0 {
      SelfParentNoRoot(items, i, f - 1);
    }
  }

  /** `hasChildren` on a non-empty id agrees with the tree: the item has
      children exactly when `buildTree` gave it a child. */
  lemma HasChildrenTree(items: seq<NavItem>, p: nat)
    requires UniqueIds(items) && p < |items| && items[p].id != ""
    ensures HasChildren(items, items[p].id) <==> ChildTable(items)[p] != []
  {
    ChildrenInFacts(items, p, |items|);
    IndexOfUnique(items, p);
    var kids := ChildTable(items)[p];
    if kids != [] {
      var c := kids[0];
      assert c in kids;
      assert items[c].parent == Ref(items[p].id);
    }
    if HasChildren(items, items[p].id) {
      var c :| 0 <= c < |items| && items[c].parent == Ref(items[p].id);
      assert Attached(items, c) && Up(items, c) == p;
      assert c in kids;
    }
  }

  /** An item whose id is empty and an item whose parent id is empty. */
  const EmptyIdPair: seq<NavItem> := [
    NavItem("", "E", Grid, None, Absent, None),
    NavItem("c", "C", Grid, None, Ref(""), None)]

  /** With an empty id the two sides disagree: `hasChildren("")` holds
      because the `===` test matches the empty parent id, yet `buildTree`
      finds that parent id falsy and makes the second item a root, so the
      first item gets no children. */
  lemma EmptyIdHasNoChildren()
    ensures HasChildren(EmptyIdPair, EmptyIdPair[0].id)
    ensures !Attached(EmptyIdPair, 1)
    ensures ChildTable(EmptyIdPair)[0] == []
  {
    assert EmptyIdPair[1].parent == Ref(EmptyIdPair[0].id);
    assert !Attached(EmptyIdPair, 0) && !Attached(EmptyIdPair, 1);
    assert ChildrenIn(EmptyIdPair, 0, 2) == [];
  }

  /** A grandchild listed before its parent, which is listed before the
      root. */
  const ChildFirst: seq<NavItem> := [
    NavItem("c", "C", Grid, None, Ref("b"), None),
    NavItem("b", "B", Grid, None, Ref("a"), None),
    NavItem("a", "A", Grid, None, Absent, None)]

  lemma ChildFirstLookupB()
    ensures IndexOf(ChildFirst, "b") == Some(1)
  {
    assert ChildFirst[1..][0].id == "b";
    assert IndexOf(ChildFirst[1..], "b") == Some(0);
  }

  lemma ChildFirstLookupA()
    ensures IndexOf(ChildFirst, "a") == Some(2)
  {
    assert ChildFirst[2..][0].id == "a";
    assert IndexOf(ChildFirst[2..], "a") == Some(0);
    assert IndexOf(ChildFirst[1..], "a") == Some(1);
  }

  /** The parent links of the example: c under b, b under a, a a root. */
  lemma ChildFirstLinks()
    ensures Attached(ChildFirst, 0) && Up(ChildFirst, 0) == 1
    ensures Attached(ChildFirst, 1) && Up(ChildFirst, 1) == 2
    ensures !Attached(ChildFirst, 2)
  {
    ChildFirstLookupB();
    ChildFirstLookupA();
  }

  /** `depth` depends on input order: with a child listed before its parent,
      the grandchild at level 2 is recorded at depth 1. */
  lemma ChildBeforeParentDepth()
    ensures Rooted(ChildFirst, 0) && Level(ChildFirst, 0) == 2 && Depth(ChildFirst, 0) == 1
  {
    ChildFirstDist();
    ChildFirstDepth();
  }

  lemma ChildFirstDist()
    ensures RootDist(ChildFirst, 0, 3) == Some(2)
  {
    ChildFirstLinks();
    assert RootDist(ChildFirst, 2, 1) == Some(0);
    assert RootDist(ChildFirst, 1, 2) == Some(1);
  }

  lemma ChildFirstDepth()
    ensures Depth(ChildFirst, 0) == 1
  {
    ChildFirstLinks();
  }
}
