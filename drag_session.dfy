/** The sidebar's drag-and-drop state: the `activeId`, `overId` and
    `dropPosition` signals, the `expandedItems` list, and the auto-expand
    timer. The timer is a pending target and ticket; real time is replaced
    by a `TimerFire` step naming the ticket of the timer that fires. A timer
    that has been cleared never fires, so firing a ticket other than the
    pending one changes nothing.

    Solid effects are replaced by explicit calls: every handler that changes
    a signal the auto-expand effect reads runs the effect (`Rearm`)
    afterwards, and one that writes a signal's current value again does not,
    as a Solid signal does not notify on an equal value. */
module DragSession {
  import opened Nav
  import opened DropZone
  import opened Reordering

  /** An armed auto-expand timer: the row it expands and the ticket that
      tells it from timers cleared before it. */
  datatype Timer = Timer(target: string, ticket: nat)

  /** The pointer's offset below the top of the hovered row and the row's
      height, as the mouse event and `getBoundingClientRect` give them. */
  datatype Row = Row(relY: int, height: int)

  /** `prev.filter(item => item !== id)`. */
  function Without(s: seq<string>, id: string): (r: seq<string>)
    decreases |s|
  {
    if s == [] then [] else (if s[0] == id then [] else [s[0]]) + Without(s[1..], id)
  }

  /** Filtering drops every copy of `id` and keeps every other id. */
  lemma {:induction false} WithoutMembers(s: seq<string>, id: string)
    ensures forall x :: x in Without(s, id) <==> x in s && x != id
    decreases |s|
  {
    if s != [] {
      WithoutMembers(s[1..], id);
      assert forall x :: x in s <==> x == s[0] || x in s[1..];
    }
  }

  /** Filtering out an id the list does not hold gives the list back. */
  lemma {:induction false} WithoutAbsent(s: seq<string>, id: string)
    requires id !in s
    ensures Without(s, id) == s
    decreases |s|
  {
    if s != [] {
      assert s[1..] + [] == s[1..];
      WithoutAbsent(s[1..], id);
    }
  }

  /** `toggleExpanded`: remove every copy of an expanded id, or append an id
      that is not expanded. */
  function Toggled(expanded: seq<string>, id: string): seq<string>
  {
    if id in expanded then Without(expanded, id) else expanded + [id]
  }

  /** Toggling flips whether `id` is expanded and leaves every other id as
      it was. */
  lemma ToggledFlips(expanded: seq<string>, id: string)
    ensures id in Toggled(expanded, id) <==> id !in expanded
    ensures forall x :: x != id ==> (x in Toggled(expanded, id) <==> x in expanded)
  {
    WithoutMembers(expanded, id);
  }

  /** Expanding a collapsed id and collapsing it again restores the list. */
  lemma ToggledTwice(expanded: seq<string>, id: string)
    requires id !in expanded
    ensures Toggled(Toggled(expanded, id), id) == expanded
  {
    WithoutAppend(expanded, id);
    WithoutAbsent(expanded, id);
  }

  lemma {:induction false} WithoutAppend(s: seq<string>, id: string)
    ensures Without(s + [id], id) == Without(s, id)
    decreases |s|
  {
    if s == [] {
      assert [id][1..] == [];
    } else {
      assert (s + [id])[1..] == s[1..] + [id];
      WithoutAppend(s[1..], id);
    }
  }

  class Sidebar {
    /** `props.items`, as the host last supplied it. */
    var items: seq<NavItem>
    var expanded: seq<string>
    var activeId: Option<string>
    var overId: Option<string>
    var dropPosition: Option<Drop>
    /** The timer `expandTimerRef` refers to, while it has not fired. */
    var pending: Option<Timer>
    /** The ticket the next armed timer gets. */
    var tickets: nat

    /** The auto-expand condition: dragging, hovering the middle of a
        collapsed item that has children. */
    predicate ShouldArm()
      reads this
    {
      IsSet(activeId) && IsSet(overId) && HasChildren(items, overId.value) &&
      overId.value !in expanded && dropPosition == Some(Inside)
    }

    /** A timer is pending exactly while the auto-expand condition holds;
        it targets the hovered item and its ticket has been handed out. */
    ghost predicate Valid()
      reads this
    {
      (pending.Some? <==> ShouldArm()) &&
      (pending.Some? ==> overId == Some(pending.value.target) && pending.value.ticket < tickets)
    }

    /** The state the auto-expand effect leaves when it runs with `t0` as
        the next ticket: the old timer is gone, and a fresh timer with
        ticket `t0` is pending exactly when the condition holds. */
    predicate Rearmed(t0: nat)
      reads this
    {
      pending == (if ShouldArm() then Some(Timer(overId.value, t0)) else None) &&
      tickets == (if ShouldArm() then t0 + 1 else t0)
    }

    /** The component's initial state: nothing dragged, nothing expanded. */
    constructor(initial: seq<NavItem>)
      ensures Valid()
      ensures items == initial && expanded == []
      ensures activeId == None && overId == None && dropPosition == None && pending == None
    {
      items := initial;
      expanded := [];
      activeId := None;
      overId := None;
      dropPosition := None;
      pending := None;
      tickets := 0;
    }

    /** The auto-expand effect: clear the pending timer, then arm a fresh
        one for the hovered item when the condition holds. */
    method Rearm()
      modifies this
      ensures Valid()
      ensures items == old(items) && expanded == old(expanded)
      ensures activeId == old(activeId) && overId == old(overId) && dropPosition == old(dropPosition)
      ensures Rearmed(old(tickets))
    {
      pending := None;
      if IsSet(activeId) && IsSet(overId) {
        var id := overId.value;
        if HasChildren(items, id) && id !in expanded && dropPosition == Some(Inside) {
          pending := Some(Timer(id, tickets));
          tickets := tickets + 1;
        }
      }
    }

    /** `onDragStart`. */
    method DragStart(draggableId: string)
      requires Valid()
      modifies this
      ensures Valid()
      ensures activeId == Some(draggableId)
      ensures items == old(items) && expanded == old(expanded)
      ensures overId == old(overId) && dropPosition == old(dropPosition)
      ensures old(activeId) == Some(draggableId) ==> pending == old(pending) && tickets == old(tickets)
      ensures old(activeId) != Some(draggableId) ==> Rearmed(old(tickets))
      ensures tickets >= old(tickets)
    {
      if activeId != Some(draggableId) {
        activeId := Some(draggableId);
        Rearm();
      }
    }

    /** `onDragOver`: leaving every droppable clears the hovered id and the
        position; entering one records its id and leaves the position to
        the mouse-move handler. */
    method DragOver(droppable: Option<string>)
      requires Valid()
      modifies this
      ensures Valid()
      ensures droppable.None? ==> overId == None && dropPosition == None
      ensures droppable.Some? ==> overId == droppable && dropPosition == old(dropPosition)
      ensures items == old(items) && expanded == old(expanded) && activeId == old(activeId)
      ensures overId == old(overId) && dropPosition == old(dropPosition) ==>
        pending == old(pending) && tickets == old(tickets)
      ensures overId != old(overId) || dropPosition != old(dropPosition) ==> Rearmed(old(tickets))
      ensures tickets >= old(tickets)
    {
      var newOver := if droppable.None? then None else droppable;
      var newPosition := if droppable.None? then None else dropPosition;
      if newOver != overId || newPosition != dropPosition {
        overId := newOver;
        dropPosition := newPosition;
        Rearm();
      }
    }

    /** `handleMouseMove`, attached while an item is dragged: classify the
        pointer within the hovered row and write the position only when it
        changes. Nothing happens without a hovered id or when the row is not
        found. */
    method MouseMove(row: Option<Row>)
      requires Valid()
      modifies this
      ensures Valid()
      ensures items == old(items) && expanded == old(expanded)
      ensures activeId == old(activeId) && overId == old(overId)
      ensures IsSet(activeId) && IsSet(overId) && row.Some? ==>
        dropPosition == Some(Classify(row.value.relY, row.value.height, HasChildren(items, overId.value)))
      ensures !(IsSet(activeId) && IsSet(overId) && row.Some?) ==> dropPosition == old(dropPosition)
      ensures dropPosition == old(dropPosition) ==> pending == old(pending) && tickets == old(tickets)
      ensures dropPosition != old(dropPosition) ==> Rearmed(old(tickets))
      ensures tickets >= old(tickets)
    {
      if !IsSet(activeId) || !IsSet(overId) || row.None? {
        return;
      }
      var itemHasChildren := HasChildren(items, overId.value);
      var newPosition := Classify(row.value.relY, row.value.height, itemHasChildren);
      if dropPosition != Some(newPosition) {
        dropPosition := Some(newPosition);
        Rearm();
      }
    }

    /** `resetDragState`. */
    method ResetDragState()
      modifies this
      ensures Valid()
      ensures activeId == None && overId == None && dropPosition == None && pending == None
      ensures items == old(items) && expanded == old(expanded) && tickets == old(tickets)
    {
      activeId := None;
      overId := None;
      dropPosition := None;
      Rearm();
    }

    /** `onDragEnd`: the list handed to `onItemsChange`, if any. A real drop
        `inside` also expands the target if it is collapsed. Every drag ends
        with the drag state reset and no timer pending. */
    method DragEnd(draggableId: string, droppable: Option<string>) returns (change: Option<seq<NavItem>>)
      requires Valid()
      modifies this
      ensures Valid()
      ensures change == Reorder(old(items), draggableId, droppable, old(dropPosition))
      ensures change.Some? && old(dropPosition) == Some(Inside) && droppable.value !in old(expanded) ==>
        expanded == old(expanded) + [droppable.value]
      ensures !(change.Some? && old(dropPosition) == Some(Inside) && droppable.value !in old(expanded)) ==>
        expanded == old(expanded)
      ensures activeId == None && overId == None && dropPosition == None && pending == None
      ensures items == old(items) && tickets == old(tickets)
    {
      change := Reorder(items, draggableId, droppable, dropPosition);
      if change.Some? && dropPosition == Some(Inside) && droppable.value !in expanded {
        expanded := expanded + [droppable.value];
      }
      ResetDragState();
    }

    /** `toggleExpanded`. */
    method Toggle(id: string)
      requires Valid()
      modifies this
      ensures Valid()
      ensures expanded == Toggled(old(expanded), id)
      ensures items == old(items) && activeId == old(activeId) && overId == old(overId)
      ensures dropPosition == old(dropPosition)
      ensures Rearmed(old(tickets))
      ensures tickets >= old(tickets)
    {
      expanded := Toggled(expanded, id);
      Rearm();
    }

    /** The host passes a new item list (for example the one `onDragEnd`
        reported); `hasChildren` now answers from it. */
    method Receive(newItems: seq<NavItem>)
      requires Valid()
      modifies this
      ensures Valid()
      ensures items == newItems && expanded == old(expanded)
      ensures activeId == old(activeId) && overId == old(overId) && dropPosition == old(dropPosition)
      ensures Rearmed(old(tickets))
      ensures tickets >= old(tickets)
    {
      items := newItems;
      Rearm();
    }

    /** The timer with `ticket` fires. Only the pending timer can: it finds
        its condition still holding and appends its target to the expanded
        ids, after which nothing is pending. Any other ticket belongs to a
        cleared timer and changes nothing. */
    method TimerFire(ticket: nat)
      requires Valid()
      modifies this
      ensures Valid()
      ensures old(pending).Some? && old(pending).value.ticket == ticket ==>
        expanded == old(expanded) + [old(pending).value.target] && pending == None
      ensures !(old(pending).Some? && old(pending).value.ticket == ticket) ==>
        expanded == old(expanded) && pending == old(pending)
      ensures items == old(items) && activeId == old(activeId) && overId == old(overId)
      ensures dropPosition == old(dropPosition) && tickets == old(tickets)
    {
      if pending.Some? && pending.value.ticket == ticket {
        var target := pending.value.target;
        pending := None;
        if overId == Some(target) && dropPosition == Some(Inside) && IsSet(activeId) {
          expanded := expanded + [target];
          Rearm();
        }
      }
    }
  }

  /** Moving the pointer out of the middle of a row and back before the
      delay restarts the timer: the first timer is cleared, and firing its
      ticket later changes nothing. */
  method OutAndBack(s: Sidebar, away: Row, back: Row) returns (stale: nat)
    requires s.Valid() && s.pending.Some?
    requires Classify(away.relY, away.height, HasChildren(s.items, s.overId.value)) != Inside
    modifies s
    ensures s.Valid()
    ensures stale == old(s.pending.value.ticket)
    ensures s.pending.None? || s.pending.value.ticket != stale
    ensures s.expanded == old(s.expanded)
  {
    stale := s.pending.value.ticket;
    s.MouseMove(Some(away));
    s.MouseMove(Some(back));
    s.TimerFire(stale);
  }

  /** Entering a row keeps the previous row's position until the pointer
      moves: a drop right after entering a row without children, while the
      position is still `inside`, makes that row the dragged item's
      parent. */
  method InsideCarriesOver(s: Sidebar, dragId: string, dropId: string) returns (change: Option<seq<NavItem>>)
    requires s.Valid() && s.dropPosition == Some(Inside)
    requires !HasChildren(s.items, dropId) && RealDrop(s.items, dragId, Some(dropId))
    modifies s
    ensures change.Some?
    ensures forall i :: 0 <= i < |change.value| && change.value[i].id == dragId ==>
      change.value[i].parent == Ref(dropId)
    ensures !HasChildren(s.items, dropId) && HasChildren(change.value, dropId)
  {
    s.DragOver(Some(dropId));
    ghost var items := s.items;
    change := s.DragEnd(dragId, Some(dropId));
    ReorderShape(items, dragId, dropId, Some(Inside));
    ghost var d :| 0 <= d < |items| && items[d].id == dragId;
    assert change.value[d].parent == Ref(dropId);
  }
}
