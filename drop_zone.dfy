/** The drop-position rule of `handleMouseMove`: the hovered row is split
    into thirds of its height; the top third means `before`, the bottom third
    `after`, and the middle `inside` for an item with children and `after`
    otherwise. Offsets and heights are whole pixels, and `relY < height / 3`
    is compared exactly as `3 * relY < height`. */
module DropZone {
  import opened Nav

  /** The position for a pointer `relY` pixels below the top of a row
      `height` pixels tall. */
  function Classify(relY: int, height: int, hasChildren: bool): Drop
  {
    if 3 * relY < height then Before
    else if 3 * relY > 2 * height then After
    else if hasChildren then Inside
    else After
  }

  /** Top to bottom: before, inside, after. */
  function Rank(p: Drop): nat
  {
    match p
    case Before => 0
    case Inside => 1
    case After => 2
  }

  /** The three zones of a row: `before` exactly in the top third, `inside`
      exactly in the middle third of an item with children, `after`
      otherwise. */
  lemma ClassifyZones(relY: int, height: int, hasChildren: bool)
    requires height >= 0
    ensures Classify(relY, height, hasChildren) == Before <==> 3 * relY < height
    ensures Classify(relY, height, hasChildren) == Inside <==>
      height <= 3 * relY <= 2 * height && hasChildren
    ensures Classify(relY, height, hasChildren) == After <==>
      3 * relY > 2 * height || (height <= 3 * relY && !hasChildren)
  {
  }

  /** Moving the pointer down never moves the position up. */
  lemma ClassifyMonotone(y1: int, y2: int, height: int, hasChildren: bool)
    requires 0 <= height && y1 <= y2
    ensures Rank(Classify(y1, height, hasChildren)) <= Rank(Classify(y2, height, hasChildren))
  {
  }
}
