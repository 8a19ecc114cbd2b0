/**
 * The per-level presentation rules the renderers share: an index into a
 * five-entry table that saturates at the last entry, and a font size that
 * shrinks by two pixels a level down to a floor.
 */
module Styles {
  import opened Text

  /** `Math.min(depth, 4)`: always a valid index into a five-element array. */
  function TierIndex(depth: nat): (r: nat)
    ensures r <= 4
    ensures depth <= 4 ==> r == depth
    ensures depth >= 4 ==> r == 4
  {
    if depth <= 4 then depth else 4
  }

  /** `Math.max(floor, top - depth * 2)`. */
  function FontSize(floor: int, top: int, depth: nat): (r: int)
    ensures r >= floor && r >= top - 2 * depth
    ensures r == floor || r == top - 2 * depth
  {
    if floor >= top - 2 * depth then floor else top - 2 * depth
  }

  /** A deeper level never gets a larger font. */
  lemma FontSizeShrinks(floor: int, top: int, d1: nat, d2: nat)
    requires d1 <= d2
    ensures FontSize(floor, top, d2) <= FontSize(floor, top, d1)
  {
  }

  /** Down to the floor, each level is two pixels smaller than the one above. */
  lemma FontSizeSteps(floor: int, top: int, d: nat)
    requires top - 2 * (d + 1) >= floor
    ensures FontSize(floor, top, d + 1) == FontSize(floor, top, d) - 2
  {
  }

  /** `'  '.repeat(depth)`. */
  function Indent(depth: nat): (r: string)
    ensures |r| == 2 * depth && AllWhite(r)
  {
    RepeatChars(' ', 2 * depth);
    Repeat(' ', 2 * depth)
  }
}
