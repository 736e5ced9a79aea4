/** The fixed 33-column grid: a cell id names row `id / 33` and column `id % 33`,
    and a tile of `tileW` x `tileH` pixels sits at a pixel rectangle derived from them. */
module Grid {

  /** Number of columns of the grid (`COLS` in both scripts). */
  const COLS: nat := 33

  /** `Math.floor(id / COLS)` for a non-negative id. */
  function Row(id: nat): nat {
    id / COLS
  }

  /** `id % COLS` for a non-negative id (truncated and Euclidean remainder agree here). */
  function Col(id: nat): nat {
    id % COLS
  }

  /** The id of the cell at (row, col). */
  function CellAt(row: nat, col: nat): nat
    requires col < COLS
  {
    row * COLS + col
  }

  /** Every id is recovered from its row and column. */
  lemma PositionRoundTrip(id: nat)
    ensures Col(id) < COLS && CellAt(Row(id), Col(id)) == id
  {
  }

  /** Every (row, col) with col < COLS is recovered from its id. */
  lemma CellAtRoundTrip(row: nat, col: nat)
    requires col < COLS
    ensures Row(CellAt(row, col)) == row && Col(CellAt(row, col)) == col
  {
  }

  /** Two ids with the same row and column are the same id. */
  lemma SamePositionSameId(a: nat, b: nat)
    requires Row(a) == Row(b) && Col(a) == Col(b)
    ensures a == b
  {
    PositionRoundTrip(a);
    PositionRoundTrip(b);
  }

  /** An axis-aligned pixel rectangle. */
  datatype Rect = Rect(left: nat, top: nat, width: nat, height: nat)

  /** The rectangle of cell `id` on a canvas whose first row is grid row `minRow`:
      `(col * tileW, (row - minRow) * tileH, tileW, tileH)`. */
  function TileRect(id: nat, tileW: nat, tileH: nat, minRow: nat): Rect
    requires minRow <= Row(id)
  {
    Rect(Col(id) * tileW, (Row(id) - minRow) * tileH, tileW, tileH)
  }

  /** `r` lies inside a `width` x `height` canvas. */
  predicate Within(r: Rect, width: nat, height: nat) {
    r.left + r.width <= width && r.top + r.height <= height
  }

  /** `a` and `b` share no pixel: one lies wholly left of, or wholly above, the other. */
  predicate Disjoint(a: Rect, b: Rect) {
    a.left + a.width <= b.left || b.left + b.width <= a.left ||
    a.top + a.height <= b.top || b.top + b.height <= a.top
  }

  /** A pixel (x, y) covered by `r`. */
  predicate Covers(r: Rect, x: nat, y: nat) {
    r.left <= x < r.left + r.width && r.top <= y < r.top + r.height
  }

  /** Disjoint rectangles indeed have no pixel in common. */
  lemma DisjointNoSharedPixel(a: Rect, b: Rect, x: nat, y: nat)
    requires Disjoint(a, b)
    ensures !(Covers(a, x, y) && Covers(b, x, y))
  {
  }

  /** One more tile still fits: `x < y` gives `x * k + k <= y * k`. */
  lemma MulStep(x: nat, y: nat, k: nat)
    requires x < y
    ensures x * k + k <= y * k
  {
    var d := y - x;
    assert y * k == x * k + d * k;
    assert d * k >= k by {
      assert d * k == (d - 1) * k + k;
    }
  }

  /** A tile whose row lies in [minRow, maxRow] fits in the `COLS * tileW` x
      `(maxRow - minRow + 1) * tileH` canvas. */
  lemma TileRectWithin(id: nat, tileW: nat, tileH: nat, minRow: nat, maxRow: nat)
    requires minRow <= Row(id) <= maxRow
    ensures Within(TileRect(id, tileW, tileH, minRow), COLS * tileW, (maxRow - minRow + 1) * tileH)
  {
    PositionRoundTrip(id);
    MulStep(Col(id), COLS, tileW);
    MulStep(Row(id) - minRow, maxRow - minRow + 1, tileH);
  }

  /** Cells at different (column, row) positions get rectangles that share no pixel. */
  lemma CellRectsDisjoint(ca: nat, ra: nat, cb: nat, rb: nat, tileW: nat, tileH: nat)
    requires ca != cb || ra != rb
    ensures Disjoint(Rect(ca * tileW, ra * tileH, tileW, tileH), Rect(cb * tileW, rb * tileH, tileW, tileH))
  {
    if ca < cb {
      MulStep(ca, cb, tileW);
    } else if cb < ca {
      MulStep(cb, ca, tileW);
    } else if ra < rb {
      MulStep(ra, rb, tileH);
    } else {
      MulStep(rb, ra, tileH);
    }
  }

  /** Distinct ids get rectangles that share no pixel. */
  lemma TileRectsDisjoint(a: nat, b: nat, tileW: nat, tileH: nat, minRow: nat)
    requires a != b && minRow <= Row(a) && minRow <= Row(b)
    ensures Disjoint(TileRect(a, tileW, tileH, minRow), TileRect(b, tileW, tileH, minRow))
  {
    PositionRoundTrip(a);
    PositionRoundTrip(b);
    var ca, ra, cb, rb := Col(a), Row(a) - minRow, Col(b), Row(b) - minRow;
    assert ca != cb || ra != rb;
    CellRectsDisjoint(ca, ra, cb, rb, tileW, tileH);
  }
}
