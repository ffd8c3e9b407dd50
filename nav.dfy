/** Data model of the sidebar's navigation tree: the flat items the host owns,
    the tree nodes derived from them, and the small predicates every other
    module uses (JavaScript truthiness of ids, the `order ?? 0` key, lookup by
    id, ASCII lower-casing and substring search). */
module Nav {

  datatype Option<+T> = None | Some(value: T)

  /** The JavaScript type `parentId?: string | null`: the property may be
      absent (undefined), explicitly null, or an id. Strict equality (`===`)
      tells the three apart; truthiness does not tell them from "". */
  datatype ParentRef = Absent | Null | Ref(id: string)

  datatype IconType = Grid | Star | Tag | Alert | User

  /** Where a dragged item lands relative to the hovered row. The signal
      `dropPosition` is `Option<Drop>`: `None` is JavaScript `null`. */
  datatype Drop = Before | After | Inside

  /** A flat navigation item as the host supplies it. */
  datatype NavItem = NavItem(
    id: string,
    name: string,
    icon: IconType,
    iconColor: Option<string>,
    parent: ParentRef,
    order: Option<int>)

  /** A node of the derived forest: the item, its sorted children, and the
      depth recorded while the tree was built. */
  datatype TreeNode = TreeNode(item: NavItem, children: seq<TreeNode>, depth: int)

  /** `if (item.parentId)`: a parent id that is present and non-empty. */
  predicate HasParentId(p: ParentRef)
  {
    p.Ref? && p.id != ""
  }

  /** Truthiness of a `string | null` signal such as `activeId()`. */
  predicate IsSet(s: Option<string>)
  {
    s.Some? && s.value != ""
  }

  /** The sort key `item.order ?? 0`. */
  function OrderKey(item: NavItem): int
  {
    match item.order
    case Some(o) => o
    case None => 0
  }

  /** Every id occurs at most once in the list. */
  predicate UniqueIds(items: seq<NavItem>)
  {
    forall i, j :: 0 <= i < j < |items| ==> items[i].id != items[j].id
  }

  /** The position of the first item with the given id (`findIndex`). */
  function IndexOf(items: seq<NavItem>, id: string): (r: Option<nat>)
    ensures r.Some? ==> r.value < |items| && items[r.value].id == id
  {
    if |items| == 0 then None
    else if items[0].id == id then Some(0)
    else match IndexOf(items[1..], id)
      case None => None
      case Some(k) => Some(k + 1)
  }

  /** `findIndex` finds the first match, and finds nothing only when no item
      has the id. */
  lemma {:induction false} IndexOfFirst(items: seq<NavItem>, id: string)
    ensures IndexOf(items, id).Some? ==>
      forall j :: 0 <= j < IndexOf(items, id).value ==> items[j].id != id
    ensures IndexOf(items, id).None? <==> forall j :: 0 <= j < |items| ==> items[j].id != id
  {
    if |items| > 0 && items[0].id != id {
      IndexOfFirst(items[1..], id);
      assert forall j :: 1 <= j < |items| ==> items[j] == items[1..][j - 1];
    }
  }

  /** With unique ids, the position of an item is found from its id. */
  lemma IndexOfUnique(items: seq<NavItem>, j: nat)
    requires UniqueIds(items) && j < |items|
    ensures IndexOf(items, items[j].id) == Some(j)
  {
    IndexOfFirst(items, items[j].id);
  }

  /** `hasChildren(id)`: some item's `parentId` is strictly equal to `id`. */
  predicate HasChildren(items: seq<NavItem>, id: string)
  {
    exists i :: 0 <= i < |items| && items[i].parent == Ref(id)
  }

  /** ASCII-only `toLowerCase` of one character. */
  function LowerChar(c: char): (r: char)
    ensures 'A' <= c <= 'Z' ==> r as int == c as int + 32
    ensures !('A' <= c <= 'Z') ==> r == c
  {
    if 'A' <= c <= 'Z' then (c as int + 32) as char else c
  }

  /** ASCII-only `toLowerCase`. */
  function Lower(s: string): (r: string)
    ensures |r| == |s|
    ensures forall i :: 0 <= i < |s| ==> r[i] == LowerChar(s[i])
  {
    seq(|s|, i requires 0 <= i < |s| => LowerChar(s[i]))
  }

  /** Lower-casing is idempotent. */
  lemma LowerIdempotent(s: string)
    ensures Lower(Lower(s)) == Lower(s)
  {
  }

  /** `s.includes(q)`: `q` occurs in `s` as a contiguous block, i.e. it is
      a prefix of some suffix of `s`. */
  predicate Includes(s: string, q: string)
  {
    q <= s || (s != [] && Includes(s[1..], q))
  }
}
