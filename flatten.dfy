/** `flattenTree`: the forest listed in display order, each node followed by
    the flattened list of its children. */
module Flatten {
  import opened Nav

  /** Pre-order listing of a forest. */
  function Flat(ns: seq<TreeNode>): seq<TreeNode>
    decreases ns
  {
    if ns == [] then [] else [ns[0]] + Flat(ns[0].children) + Flat(ns[1..])
  }

  /** Number of nodes in a forest. */
  function Size(ns: seq<TreeNode>): nat
    decreases ns
  {
    if ns == [] then 0 else 1 + Size(ns[0].children) + Size(ns[1..])
  }

  /** The listing of one node: the node, then its subtree. */
  lemma FlatOne(n: TreeNode)
    ensures Flat([n]) == [n] + Flat(n.children)
  {
    assert [n][1..] == [];
  }

  /** Listing two forests one after the other lists the first, then the
      second. */
  lemma {:induction false} FlatAppend(a: seq<TreeNode>, b: seq<TreeNode>)
    ensures Flat(a + b) == Flat(a) + Flat(b)
    decreases a
  {
    if a != [] {
      assert (a + b)[0] == a[0];
      assert (a + b)[1..] == a[1..] + b;
      FlatAppend(a[1..], b);
    } else {
      assert a + b == b;
    }
  }

  /** Listing a forest with one more node at the end. */
  lemma FlatSnoc(s: seq<TreeNode>, n: TreeNode)
    ensures Flat(s + [n]) == Flat(s) + [n] + Flat(n.children)
  {
    FlatAppend(s, [n]);
    FlatOne(n);
  }

  /** The listing contains every node of the forest once: its length is the
      number of nodes. */
  lemma {:induction false} FlatSize(ns: seq<TreeNode>)
    ensures |Flat(ns)| == Size(ns)
    decreases ns
  {
    if ns != [] {
      FlatSize(ns[0].children);
      FlatSize(ns[1..]);
    }
  }

  /** Pre-order: the `k`-th top-level node is listed immediately before its
      own subtree, after the listings of the nodes before it. */
  lemma {:induction false} PreOrder(ns: seq<TreeNode>, k: nat)
    requires k < |ns|
    ensures var at := |Flat(ns[..k])|;
      at + 1 + |Flat(ns[k].children)| <= |Flat(ns)| &&
      Flat(ns)[at] == ns[k] &&
      Flat(ns)[at + 1 .. at + 1 + |Flat(ns[k].children)|] == Flat(ns[k].children)
  {
    assert ns == ns[..k] + [ns[k]] + ns[k + 1..];
    FlatAppend(ns[..k] + [ns[k]], ns[k + 1..]);
    FlatAppend(ns[..k], [ns[k]]);
    FlatOne(ns[k]);
  }

  /** A node listed in the flattening is either a top-level node or is listed
      in the flattening of some top-level node's children. */
  lemma {:induction false} FlatMember(ns: seq<TreeNode>, x: TreeNode)
    requires x in Flat(ns)
    ensures x in ns || exists k :: 0 <= k < |ns| && x in Flat(ns[k].children)
    decreases ns
  {
    if x != ns[0] && x !in Flat(ns[0].children) {
      assert x in Flat(ns[1..]);
      FlatMember(ns[1..], x);
      if x !in ns[1..] {
        var k :| 0 <= k < |ns[1..]| && x in Flat(ns[1..][k].children);
        assert ns[k + 1] == ns[1..][k];
      }
    }
  }

  /** `traverse(items)`: push each node, then traverse its children if it
      has any. `acc` is the shared `result` array as it was on entry. */
  method Traverse(nodes: seq<TreeNode>, acc: seq<TreeNode>) returns (res: seq<TreeNode>)
    ensures res == acc + Flat(nodes)
    decreases nodes
  {
    res := acc;
    for k := 0 to |nodes|
      invariant res == acc + Flat(nodes[..k])
    {
      var item := nodes[k];
      res := res + [item];
      if |item.children| > 0 {
        res := Traverse(item.children, res);
      }
      assert nodes[..k + 1] == nodes[..k] + [item];
      FlatSnoc(nodes[..k], item);
    }
    assert nodes[..|nodes|] == nodes;
  }

  /** `flattenTree(nodes)`: the pre-order listing of the forest. */
  method FlattenTree(nodes: seq<TreeNode>) returns (result: seq<TreeNode>)
    ensures result == Flat(nodes)
    ensures |result| == Size(nodes)
  {
    result := Traverse(nodes, []);
    FlatSize(nodes);
  }
}
