# Sidebar navigation tree, modelled in Dafny

This project models the navigation-tree engine of the `Sidebar` component
(`src/components/Sidebar/index.tsx`), a SolidJS sidebar that shows a flat list of
`NavItem`s as a collapsible, searchable, drag-and-drop reorderable tree. It covers:

- **`buildTree`** (`tree_builder.dfy`). One loop fills a map from id to node. A second loop
  attaches each item to the item its `parentId` names or pushes it to the roots. Then every
  level is sorted by `order ?? 0`. The method `TreeBuilder.BuildTree` keeps the two loops and is proved equal to
  the specification function `TreeBuilder.Forest`.
- **`flattenTree`** (`flatten.dfy`). This is the pre-order traversal that accumulates into
  `result`, proved against `Flatten.Flat`.
- **Facts about the built and flattened tree** (`tree_facts.dfy`):
  - which items appear, each exactly once;
  - which items become roots;
  - children are sorted stably;
  - `depth` depends on input order;
  - a self-parented item is hidden;
  - `hasChildren` agrees with the children table.
- **The `flatItems` memo** (`visibility.dfy`, `visible_tree.dfy`). These cover the browse filter
  and the search filter, with their ancestor walks as `while` loops. They are proved against
  masks over the flattened list and then restated on the built tree in terms of ancestors.
- **The drop-position thirds rule of `handleMouseMove`** (`drop_zone.dfy`).
- **The reorder/reparent computation of `onDragEnd`** (`reorder.dfy`), with small concrete drops
  in `reorder_examples.dfy`.
- **The drag-state signals, `expandedItems`, `toggleExpanded` and the auto-expand timer**
  (`drag_session.dfy`). These form the class `DragSession.Sidebar`. The timer is a pending
  target with a ticket, and `TimerFire` is the step of it firing.
- **The width clamp of pointer and keyboard resizing** (`resize.dfy`).

A `parentId` is modelled as `Absent | Null | Ref(id)`, so `===` can tell `undefined` from
`null`, while the truthiness tests (`item.parentId && …`, `while (currentParentId)`) treat
`Absent`, `Null` and `Ref("")` alike. `order` is `Option<int>` and sorts by `order ?? 0`.

Where the code and the intended behaviour differ, the model follows the code:

- Dropping `inside` does not renumber the dragged item's former sibling group.
  `ReorderExamples.InsideLeavesOldGroup` shows a former sibling keeping order 1 with no order-0
  sibling.
- A drop with no droppable, onto itself, or with an unknown id reports no list at all. It does
  not report the unchanged list.
- In browse mode, a top-level item whose `parentId` names no item is shown only when that
  dangling id is expanded.
- The `inside` order counts the dragged item if it already is a child of the target.
- The new sibling group is renumbered by the items' positions in the list, not by their old
  `order`. Two siblings the drop did not touch can therefore swap places on screen.
  `ReorderExamples.SiblingsSwap` shows this.
- A self-parented item vanishes from the tree. It does not become a root.
- An item whose id is the empty string has `hasChildren` true as soon as some item's `parentId`
  is `""`, because that test uses `===`. `buildTree` finds that `parentId` falsy and makes the
  other item a root, so the row shows a chevron but has no children.
  `TreeFacts.EmptyIdHasNoChildren` shows this.
- Entering a new row keeps the previous drop position until the pointer moves. A drop straight
  after entering a childless row can therefore still be `inside`, and the childless item becomes
  a parent. `DragSession.InsideCarriesOver` shows this.

## Model

| member | source | states |
|---|---|---|
| Nav.IndexOfFirst | src/components/Sidebar/index.tsx:305 | `find` by id returns the first item with that id, and only none when no item has it |
| Nav.LowerIdempotent | src/components/Sidebar/index.tsx:295 | lower-casing an already lower-cased query changes nothing, so the query and a lower-cased name compare alike |
| Nav.IndexOfUnique | src/components/Sidebar/index.tsx:124-130 | with unique ids, looking up an item's id finds that very item |
| TreeBuilder.Up | src/components/Sidebar/index.tsx:136-137 | an attached item's parent is an item whose id is the attached item's `parentId` |
| TreeBuilder.RootDistBound | src/components/Sidebar/index.tsx:133-145 | the number of hops from an item to its root is below the number of items (pigeonhole) |
| TreeBuilder.ChildLevel | src/components/Sidebar/index.tsx:136-140 | a child of an item reachable from a root is reachable too, one level deeper |
| TreeBuilder.RootsInFacts | src/components/Sidebar/index.tsx:133-145 | `roots` holds exactly the items whose `parentId` is falsy or names no item, in input order |
| TreeBuilder.ChildrenInFacts | src/components/Sidebar/index.tsx:133-145 | a parent's `children` holds exactly the items attached to it, in input order |
| TreeBuilder.DepthStep | src/components/Sidebar/index.tsx:139 | the depth a node gets is its parent's depth at that moment plus one |
| TreeBuilder.InsertByOrder | src/components/Sidebar/index.tsx:148-150 | inserting keeps every element and adds the new one (a permutation of the input plus one) |
| TreeBuilder.InsertSorted | src/components/Sidebar/index.tsx:148-150 | inserting into a list sorted by `order ?? 0` keeps it sorted |
| TreeBuilder.InsertStable | src/components/Sidebar/index.tsx:148-150 | inserting a later item keeps equal keys in input order |
| TreeBuilder.SortByOrder | src/components/Sidebar/index.tsx:148-150 | the sort returns a permutation of its input, sorted by `order ?? 0` |
| TreeBuilder.SortStable | src/components/Sidebar/index.tsx:148-150 | the sort is stable: items with equal keys keep input order |
| TreeBuilder.IndexById | src/components/Sidebar/index.tsx:124-130 | the map loop maps every id to the position of its item |
| TreeBuilder.BuildTree | src/components/Sidebar/index.tsx:123-158 | the map loop, the attach loop and the recursive sort return exactly the forest `Forest(items)` |
| Flatten.FlatAppend | src/components/Sidebar/index.tsx:161-173 | flattening distributes over concatenation of sibling lists |
| Flatten.FlatSize | src/components/Sidebar/index.tsx:161-173 | the flattened list has one entry per node of the forest |
| Flatten.PreOrder | src/components/Sidebar/index.tsx:161-173 | each node comes right before the flattening of its own subtree |
| Flatten.FlatMember | src/components/Sidebar/index.tsx:161-173 | every flattened entry is a top-level node or lies in some node's subtree |
| Flatten.Traverse | src/components/Sidebar/index.tsx:163-170 | the `traverse` loop appends exactly the pre-order flattening to `result` |
| Flatten.FlattenTree | src/components/Sidebar/index.tsx:161-173 | `flattenTree` returns the pre-order flattening, one entry per node |
| TreeFacts.ForestListing | src/components/Sidebar/index.tsx:123-173 | the flattened tree lists items by a listing of positions, each entry with its item and its `depth` |
| TreeFacts.ListingMembers | src/components/Sidebar/index.tsx:123-173 | the flattened tree holds exactly the items reachable from a root, each exactly once |
| TreeFacts.ForestRoots | src/components/Sidebar/index.tsx:133-157 | the top level is exactly the items whose `parentId` is falsy or names no item, stably sorted by `order ?? 0` |
| TreeFacts.NodeChildren | src/components/Sidebar/index.tsx:136-157 | a node's children are exactly the items whose `parentId` is its id, stably sorted by `order ?? 0` |
| TreeFacts.ParentsFirstDepth | src/components/Sidebar/index.tsx:139 | when every parent precedes its children in the input, `depth` is the true level |
| TreeFacts.ParentsFirstListsAll | src/components/Sidebar/index.tsx:123-173 | when parents precede children, every item appears once in the flattened tree with its true level as depth |
| TreeFacts.ChildBeforeParentDepth | src/components/Sidebar/index.tsx:139 | with a child listed before its parent, an item two levels deep gets depth 1 |
| TreeFacts.SelfParentHidden | src/components/Sidebar/index.tsx:136-144 | an item naming itself as parent is reached from no root and appears nowhere in the tree |
| TreeFacts.HasChildrenTree | src/components/Sidebar/index.tsx:331-333 | with unique ids and a non-empty id, `hasChildren(id)` holds exactly when the built tree gives the item children |
| TreeFacts.EmptyIdHasNoChildren | src/components/Sidebar/index.tsx:331-333 | an item with the empty id passes `hasChildren` while `buildTree` (line 136) gives it no children |
| Visibility.ChainUnique | src/components/Sidebar/index.tsx:302-307 | an ancestor walk that ends yields the same ids whatever bound is used |
| Visibility.ParentChainStep | src/components/Sidebar/index.tsx:302-307 | a walk stops at a falsy id and otherwise records the id and continues from the first match's `parentId` |
| Visibility.KeptMembers | src/components/Sidebar/index.tsx:299 | the filter keeps exactly the positions whose test holds |
| Visibility.SelectKept | src/components/Sidebar/index.tsx:299 | `filter` returns the kept entries as an order-preserving subsequence |
| Visibility.AncestorsExpanded | src/components/Sidebar/index.tsx:300-308 | the browse test holds exactly when every id on the parent walk is expanded |
| Visibility.BrowseKeepsTopLevel | src/components/Sidebar/index.tsx:300 | an entry with a falsy `parentId` is always shown in browse mode |
| Visibility.BrowseParentShown | src/components/Sidebar/index.tsx:297-309 | a shown entry's parent entry is shown too |
| Visibility.BrowseMonotone | src/components/Sidebar/index.tsx:297-309 | expanding more ids never hides an entry |
| Visibility.MarkedMembers | src/components/Sidebar/index.tsx:313-325 | `matchedIds` holds exactly the ids of matching entries and the ids on their parent walks |
| Visibility.MarkMatch | src/components/Sidebar/index.tsx:316-323 | one match adds its own id and every id on its parent walk |
| Visibility.SearchKeepsMatch | src/components/Sidebar/index.tsx:315-327 | an entry whose lower-cased name contains the query is shown |
| Visibility.SearchParentShown | src/components/Sidebar/index.tsx:313-327 | with unique ids, a shown entry's parent entry is shown too |
| Visibility.BrowseFilter | src/components/Sidebar/index.tsx:297-309 | the browse filter keeps exactly the entries whose parent walk is all expanded, in order |
| Visibility.SearchFilter | src/components/Sidebar/index.tsx:313-327 | the search filter keeps exactly the entries whose id was marked, in order |
| Visibility.FlatItems | src/components/Sidebar/index.tsx:293-328 | `flatItems` is the browse view for an empty lower-cased query and the search view otherwise |
| VisibleTree.ChainOfRooted | src/components/Sidebar/index.tsx:302-307 | on the built tree, every walk ends, after the item's level plus one steps, with its ancestors' ids |
| VisibleTree.ListedWalks | src/components/Sidebar/index.tsx:302-307 | every walk over the flattened built tree ends |
| VisibleTree.ParentIdsTop | src/components/Sidebar/index.tsx:302-307 | a walk yields one id per ancestor, plus the top ancestor's dangling parent id when it is truthy |
| VisibleTree.ParentIdsPrefix | src/components/Sidebar/index.tsx:302-307 | the walk's ids are the ancestors' ids, nearest first |
| VisibleTree.IdInParentIds | src/components/Sidebar/index.tsx:302-307 | with unique ids, an item's id is on the walk exactly when it is a proper ancestor |
| VisibleTree.BrowseTree | src/components/Sidebar/index.tsx:297-309 | browse mode shows a tree entry exactly when its ancestors' ids, and any dangling top id, are all expanded |
| VisibleTree.DanglingRootHidden | src/components/Sidebar/index.tsx:300-307 | a root whose `parentId` names no item is shown exactly when that dangling id is expanded |
| VisibleTree.SearchTree | src/components/Sidebar/index.tsx:313-327 | search mode shows a tree entry exactly when it or one of its descendants matches the query |
| Reordering.SiblingsMembers | src/components/Sidebar/index.tsx:412 | the sibling filter keeps exactly the items with that parent other than the dragged one |
| Reordering.ReorderCalled | src/components/Sidebar/index.tsx:372-392 | a list is reported exactly when there is a droppable with another id and both ids are found |
| Reordering.DropItem | src/components/Sidebar/index.tsx:387 | the drop target found is an item of the list with the drop id |
| Reordering.ReorderShape | src/components/Sidebar/index.tsx:400-436 | a real drop keeps the length and each position's id, name, icon and colour; only the dragged item's parent changes; items outside the new group are unchanged |
| Reordering.BesideOrderRange | src/components/Sidebar/index.tsx:411-414 | for before, after or no position, the new order lies between 0 and the number of siblings |
| Reordering.RenumberContiguous | src/components/Sidebar/index.tsx:418-436 | with the new order in range, the new group is numbered 0..n with every value taken once |
| Reordering.BesideContiguous | src/components/Sidebar/index.tsx:409-436 | for before, after or no position, the new sibling group is numbered 0..n without gaps or duplicates |
| Reordering.InsideContiguous | src/components/Sidebar/index.tsx:400-436 | dropping inside a new parent numbers its children 0..n with the dragged item last |
| ReorderExamples.InsideLeavesOldGroup | src/components/Sidebar/index.tsx:400-436 | the dragged item's former group keeps its old numbers |
| ReorderExamples.InsideOwnParentGap | src/components/Sidebar/index.tsx:403-404 | dropping an item inside its own parent leaves a gap in the numbering |
| ReorderExamples.SiblingsSwap | src/components/Sidebar/index.tsx:409-436 | dropping an item before a sibling renumbers the group by list position, so two untouched siblings swap display order |
| ReorderExamples.DropIntoDescendant | src/components/Sidebar/index.tsx:400-436 | nothing stops dropping an item inside its own child |
| ReorderExamples.LoopedVanishes | src/components/Sidebar/index.tsx:133-145 | the resulting two-item cycle disappears from the built tree |
| DropZone.ClassifyZones | src/components/Sidebar/index.tsx:205-221 | before exactly in the top third; inside exactly in the middle third of an item with children; after otherwise |
| DropZone.ClassifyMonotone | src/components/Sidebar/index.tsx:205-221 | moving the pointer down never moves the position up |
| Resize.ClampRange | src/components/Sidebar/index.tsx:493 | with ordered bounds the width lies within them and an in-range width is kept; with crossed bounds the maximum wins |
| Resize.ClampIdempotent | src/components/Sidebar/index.tsx:493 | clamping twice is clamping once |
| Resize.ClampMonotone | src/components/Sidebar/index.tsx:493 | a wider request never gives a narrower width |
| Resize.PointerMirror | src/components/Sidebar/index.tsx:489-495 | a right-hand sidebar follows the pointer mirrored about the start point |
| Resize.PointerMonotone | src/components/Sidebar/index.tsx:489-495 | moving a left-hand sidebar's handle right never narrows it |
| Resize.KeyRoundTrip | src/components/Sidebar/index.tsx:540-554 | ArrowLeft then ArrowRight restores the width when no bound is reached |
| Resize.KeyInRange | src/components/Sidebar/index.tsx:540-554 | every width the keys report lies within ordered bounds |
| Resize.DefaultResize | src/components/Sidebar/index.tsx:462-467 | without bounds in the props every width the pointer or the keys report lies within 200..500; without a position the sidebar is on the left, so the arrow keys move the default width 280 by one step |
| DragSession.WithoutMembers | src/components/Sidebar/index.tsx:338 | the filter removes every copy of the id and keeps all other ids |
| DragSession.ToggledFlips | src/components/Sidebar/index.tsx:336-340 | toggling flips membership of the id and leaves every other id as it was |
| DragSession.ToggledTwice | src/components/Sidebar/index.tsx:336-340 | expanding a collapsed id and collapsing it again restores the list |
| DragSession.Sidebar.constructor | src/components/Sidebar/index.tsx:180-187 | the component starts with no drag, no hover, no position, nothing expanded and no timer |
| DragSession.Sidebar.Rearm | src/components/Sidebar/index.tsx:239-266 | the effect clears the timer and arms a fresh one for the hovered item exactly when dragging over the middle of a collapsed item with children |
| DragSession.Sidebar.DragStart | src/components/Sidebar/index.tsx:349-351 | records the dragged id; a new id re-runs the timer effect, while writing the same id again restarts nothing |
| DragSession.Sidebar.DragOver | src/components/Sidebar/index.tsx:354-366 | leaving all droppables clears hover and position; entering one records its id and keeps the position; a changed hover or position re-runs the timer effect |
| DragSession.Sidebar.MouseMove | src/components/Sidebar/index.tsx:198-236 | while dragging over a found row, the position becomes the thirds rule's value, and it is written, re-running the timer effect, only when it changes |
| DragSession.Sidebar.ResetDragState | src/components/Sidebar/index.tsx:444-448 | clears the drag, hover and position, leaving no timer |
| DragSession.Sidebar.DragEnd | src/components/Sidebar/index.tsx:369-442 | reports the reordered list exactly on a real drop, expands a collapsed target of an inside drop, and always ends reset with no timer |
| DragSession.Sidebar.Toggle | src/components/Sidebar/index.tsx:336-340 | `expandedItems` becomes the toggled list and the timer follows the new state |
| DragSession.Sidebar.Receive | src/components/Sidebar/index.tsx:331-333 | new items replace the old, and the timer follows the new `hasChildren` |
| DragSession.Sidebar.TimerFire | src/components/Sidebar/index.tsx:259-264 | the pending timer always finds its condition still true and expands its target; a cleared timer changes nothing |
| DragSession.OutAndBack | src/components/Sidebar/index.tsx:239-266 | moving out of the middle third and back clears the first timer: firing its ticket afterwards expands nothing, and any timer then pending has a fresh ticket |
| DragSession.InsideCarriesOver | src/components/Sidebar/index.tsx:354-366 | an `inside` position carried onto a childless row makes it the dragged item's parent on drop |

## Left out

- Rendering, CSS, icons, the settings dialog, the panel selector, the collapse toggle and the collapsed width are not modelled. They are markup over UI libraries.
- Item selection (`selectedItem`, `handleItemSelect` and its props sync effect) is not modelled, because no other behaviour depends on it.
- The drag-and-drop library's gesture detection is not modelled. Its events are the method calls `DragStart`, `DragOver` and `DragEnd`.
- DOM access is not modelled:
  - `querySelector` and `getBoundingClientRect` become the `Option<Row>` argument of `MouseMove`;
  - listener registration becomes the rule that mouse moves count only while an item is dragged;
  - body styles and `onCleanup` are left out.
- Solid reactivity is replaced by explicit calls. A handler that changes a signal the auto-expand effect reads calls `Rearm` once at its end, even where the source writes several signals one after another. Only the final timer state is modelled, not the intermediate timers that are armed and cleared within one handler.
- Real time is not modelled, and neither is the 500 ms delay. A timer fires through `TimerFire(ticket)`, and a cleared timer never fires.
- Pointer offsets and row heights are whole pixels. `relY < height / 3` is compared as `3 * relY < height`, and floating-point rounding is not modelled.
- Nav.Lower lower-cases ASCII letters only. Unicode case mapping is not modelled.
- TreeBuilder.BuildTree requires unique item ids. With duplicate ids the source's map keeps the last item per id, and `sortByOrder` can revisit a node through two parents or loop forever.
- Visibility.FlatItems requires every ancestor walk over its input to end; the source loops forever otherwise. `VisibleTree.ListedWalks` proves that walks always end on the flattened built tree.
- Visibility.SearchParentShown requires unique ids among the entries. With duplicates a parent walk can follow a different item with the same id.
- Reordering.InsideContiguous covers only a target the dragged item is not already a child of. `ReorderExamples.InsideOwnParentGap` shows that the numbering otherwise has a gap.
- The `props.onItemsChange?.` call is the value returned by `DragSession.Sidebar.DragEnd`. `DragSession.Sidebar.Receive` models the host passing a list back. The host's choice to do so is outside this component.
- Sidebar position, width and bounds come from props. They are the optional arguments of `Resize.KeyResize` and `Resize.PointerResize`, which fall back to the defaults. Where the new width goes (`onWidthChange`) is the host's concern.
