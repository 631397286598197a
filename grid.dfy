/** Grid sizing of the pixel display: how many 6-pixel dots, spaced by a
    3-pixel gap, fit into the viewport. */
module Grid {

  /** Side of one dot, in CSS pixels. */
  const PixelSize: nat := 6
  /** Gap between neighbouring dots, in CSS pixels. */
  const GapSize: nat := 3
  /** Distance from one dot to the next: a dot plus its gap. */
  const Pitch: nat := PixelSize + GapSize

  /** Number of dots along one side of extent `extent`: the largest count whose
      pitches still fit (the floor of `extent / Pitch`). */
  function CellsAlong(extent: nat): (n: nat)
    ensures n * Pitch <= extent < (n + 1) * Pitch
    ensures n == 0 <==> extent < Pitch
  {
    extent / Pitch
  }

  /** Total number of dots in a viewport of `width` by `height` pixels. */
  function CellCount(width: nat, height: nat): (total: nat)
    ensures total == CellsAlong(width) * CellsAlong(height)
    ensures total == 0 <==> width < Pitch || height < Pitch
  {
    var columns := CellsAlong(width);
    var rows := CellsAlong(height);
    columns * rows
  }

  /** Growing the viewport never removes dots. */
  lemma CellCountMonotone(w1: nat, h1: nat, w2: nat, h2: nat)
    requires w1 <= w2 && h1 <= h2
    ensures CellCount(w1, h1) <= CellCount(w2, h2)
  {
    var c1, r1 := CellsAlong(w1), CellsAlong(h1);
    var c2, r2 := CellsAlong(w2), CellsAlong(h2);
    AlongMonotone(w1, w2);
    AlongMonotone(h1, h2);
    MulLeft(c1, c2, r1);
    MulLeft(r1, r2, c2);
  }

  lemma AlongMonotone(e1: nat, e2: nat)
    requires e1 <= e2
    ensures CellsAlong(e1) <= CellsAlong(e2)
  {
    assert Pitch == 9;
  }

  lemma MulLeft(a: nat, b: nat, c: nat)
    requires a <= b
    ensures a * c <= b * c && c * a <= c * b
  {
  }

  /** The dots of the grid, each with its gap, cover no more than the viewport. */
  lemma GridFitsViewport(width: nat, height: nat)
    ensures CellCount(width, height) * Pitch * Pitch <= width * height
  {
    var c, r := CellsAlong(width), CellsAlong(height);
    assert c * Pitch <= width;
    assert r * Pitch <= height;
    assert (c * Pitch) * (r * Pitch) <= width * (r * Pitch);
    assert width * (r * Pitch) <= width * height;
    assert c * r * Pitch * Pitch == (c * Pitch) * (r * Pitch);
  }
}
