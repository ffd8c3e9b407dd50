/** Sidebar width: the clamp shared by pointer and keyboard resizing. A
    resize never reports a width outside `[minWidth, maxWidth]` when the
    bounds are ordered; when they are not, `maxWidth` wins because the
    minimum is taken last. */
module Resize {
  import opened Nav

  const DefaultWidth: int := 280
  const MinWidth: int := 200
  const MaxWidth: int := 500

  datatype Side = Left | Right
  datatype Key = ArrowLeft | ArrowRight | OtherKey

  /** `props.position || 'left'`. */
  function SideOf(position: Option<Side>): Side
  {
    if position.Some? then position.value else Left
  }

  /** `props.x ?? fallback`. */
  function OrElse(v: Option<int>, fallback: int): int
  {
    if v.Some? then v.value else fallback
  }

  /** `Math.min(Math.max(w, lo), hi)`. */
  function Clamp(w: int, lo: int, hi: int): int
  {
    var atLeast := if w > lo then w else lo;
    if atLeast < hi then atLeast else hi
  }

  /** With ordered bounds the clamped width lies within them and a width
      already within them is kept; with crossed bounds the result is the
      maximum. */
  lemma ClampRange(w: int, lo: int, hi: int)
    ensures lo <= hi ==> lo <= Clamp(w, lo, hi) <= hi
    ensures lo <= w <= hi ==> Clamp(w, lo, hi) == w
    ensures lo > hi ==> Clamp(w, lo, hi) == hi
  {
  }

  /** Clamping twice is clamping once. */
  lemma ClampIdempotent(w: int, lo: int, hi: int)
    ensures Clamp(Clamp(w, lo, hi), lo, hi) == Clamp(w, lo, hi)
  {
  }

  /** A wider request never gives a narrower width. */
  lemma ClampMonotone(w1: int, w2: int, lo: int, hi: int)
    requires w1 <= w2
    ensures Clamp(w1, lo, hi) <= Clamp(w2, lo, hi)
  {
  }

  /** `handleResizeMove`: the start width plus the pointer's horizontal
      travel, reversed for a right-hand sidebar, clamped. */
  function PointerWidth(startWidth: int, startX: int, clientX: int, side: Side, lo: int, hi: int): int
  {
    var deltaX := clientX - startX;
    var newWidth := if side == Right then startWidth - deltaX else startWidth + deltaX;
    Clamp(newWidth, lo, hi)
  }

  /** A right-hand sidebar dragged to `x` sizes like a left-hand one dragged
      to the mirror image of `x` about the starting point. */
  lemma PointerMirror(startWidth: int, startX: int, clientX: int, lo: int, hi: int)
    ensures PointerWidth(startWidth, startX, clientX, Right, lo, hi) ==
      PointerWidth(startWidth, startX, 2 * startX - clientX, Left, lo, hi)
  {
  }

  /** Dragging a left-hand sidebar's handle further right never narrows it. */
  lemma PointerMonotone(startWidth: int, startX: int, x1: int, x2: int, lo: int, hi: int)
    requires x1 <= x2
    ensures PointerWidth(startWidth, startX, x1, Left, lo, hi) <= PointerWidth(startWidth, startX, x2, Left, lo, hi)
  {
    ClampMonotone(startWidth + (x1 - startX), startWidth + (x2 - startX), lo, hi);
  }

  /** The keyboard step: 50 pixels with Shift, 10 without. */
  function Step(shift: bool): int
  {
    if shift then 50 else 10
  }

  /** The resize handle's `onKeyDown`: an arrow key moves the edge one step
      in its direction (growing a left-hand sidebar to the right, a
      right-hand one to the left), clamped; any other key reports nothing. */
  function KeyWidth(current: int, key: Key, shift: bool, side: Side, lo: int, hi: int): Option<int>
  {
    var step := Step(shift);
    match key
    case ArrowLeft => Some(Clamp(if side == Left then current - step else current + step, lo, hi))
    case ArrowRight => Some(Clamp(if side == Left then current + step else current - step, lo, hi))
    case OtherKey => None
  }

  /** An arrow key and then the opposite arrow key restore the width when
      neither step reaches a bound. */
  lemma KeyRoundTrip(current: int, shift: bool, side: Side, lo: int, hi: int)
    requires lo + Step(shift) <= current && current + Step(shift) <= hi
    ensures KeyWidth(current, ArrowLeft, shift, side, lo, hi).Some?
    ensures KeyWidth(KeyWidth(current, ArrowLeft, shift, side, lo, hi).value, ArrowRight, shift, side, lo, hi) == Some(current)
  {
  }

  /** Every reported width lies within ordered bounds. */
  lemma KeyInRange(current: int, key: Key, shift: bool, side: Side, lo: int, hi: int)
    requires lo <= hi
    ensures KeyWidth(current, key, shift, side, lo, hi).Some? ==>
      lo <= KeyWidth(current, key, shift, side, lo, hi).value <= hi
  {
  }

  /** The keyboard handler on the component's props: a missing width,
      position or bound falls back to its default. */
  function KeyResize(width: Option<int>, position: Option<Side>, minWidth: Option<int>, maxWidth: Option<int>,
                     key: Key, shift: bool): Option<int>
  {
    KeyWidth(OrElse(width, DefaultWidth), key, shift, SideOf(position),
      OrElse(minWidth, MinWidth), OrElse(maxWidth, MaxWidth))
  }

  /** The pointer handler on the component's props, with the same
      defaults. */
  function PointerResize(width: Option<int>, position: Option<Side>, minWidth: Option<int>, maxWidth: Option<int>,
                         startX: int, clientX: int): int
  {
    PointerWidth(OrElse(width, DefaultWidth), startX, clientX, SideOf(position),
      OrElse(minWidth, MinWidth), OrElse(maxWidth, MaxWidth))
  }

  /** Without bounds in the props every reported width lies between 200 and
      500; without a position the sidebar is on the left, so from the
      default width ArrowRight widens it by one step and ArrowLeft narrows
      it by one. */
  lemma DefaultResize(width: Option<int>, position: Option<Side>, key: Key, shift: bool, startX: int, clientX: int)
    ensures KeyResize(width, position, None, None, key, shift).Some? ==>
      MinWidth <= KeyResize(width, position, None, None, key, shift).value <= MaxWidth
    ensures MinWidth <= PointerResize(width, position, None, None, startX, clientX) <= MaxWidth
    ensures KeyResize(None, None, None, None, ArrowRight, shift) == Some(DefaultWidth + Step(shift))
    ensures KeyResize(None, None, None, None, ArrowLeft, shift) == Some(DefaultWidth - Step(shift))
  {
  }
}
