// The traversal shared by ConvertToGrayScale, InvertImage and ConvertToBW:
//   for x in [0, width):  for y in [x, height):  visit (x, y)
// Only the cells on or below the diagonal of the x/y grid are visited.

module Traversal {
  import opened Pixels

  datatype Cell = Cell(x: int, y: int)

  /** A grid of pixels indexed g[x][y], as the image's pixels are. */
  type Grid = seq<seq<Pixel>>

  predicate IsGrid(g: Grid, w: nat, h: nat) {
    |g| == w && forall x :: 0 <= x < w ==> |g[x]| == h
  }

  /** The cells the nested loops visit: x < w and x <= y < h. */
  predicate Visited(c: Cell, w: int, h: int) {
    0 <= c.x < w && c.x <= c.y < h
  }

  /** x-major order: a comes strictly before b. */
  predicate Before(a: Cell, b: Cell) {
    a.x < b.x || (a.x == b.x && a.y < b.y)
  }

  /** The cells one run of the inner loop visits, from y = x up to h - 1. */
  function Column(x: nat, h: nat): (col: seq<Cell>)
    ensures |col| == if x < h then h - x else 0
    ensures forall i :: 0 <= i < |col| ==> col[i] == Cell(x, x + i)
  {
    if h <= x then [] else Column(x, h - 1) + [Cell(x, h - 1)]
  }

  /** The visits of the whole traversal over a w-by-h image, in the order they happen. */
  function Visits(w: nat, h: nat): (v: seq<Cell>)
    ensures forall i :: 0 <= i < |v| ==> Visited(v[i], w, h)
    ensures w > 0 ==> |v| >= h
  {
    if w == 0 then [] else Visits(w - 1, h) + Column(w - 1, h)
  }

  /** Every cell of the triangle is visited. */
  lemma {:induction false} VisitsCover(w: nat, h: nat, c: Cell)
    requires Visited(c, w, h)
    ensures c in Visits(w, h)
  {
    if c.x < w - 1 {
      VisitsCover(w - 1, h, c);
    } else {
      var col := Column(w - 1, h);
      assert col[c.y - c.x] == c;
      assert Visits(w, h) == Visits(w - 1, h) + col;
    }
  }

  /** The traversal runs in x-major order, so no cell is visited twice. */
  lemma {:induction false} VisitsInOrder(w: nat, h: nat)
    ensures forall i, j :: 0 <= i < j < |Visits(w, h)| ==> Before(Visits(w, h)[i], Visits(w, h)[j])
    ensures forall i, j :: 0 <= i < |Visits(w, h)| && 0 <= j < |Visits(w, h)| && i != j ==> Visits(w, h)[i] != Visits(w, h)[j]
  {
    if w > 0 {
      VisitsInOrder(w - 1, h);
      var prev, col := Visits(w - 1, h), Column(w - 1, h);
      var v := Visits(w, h);
      assert v == prev + col;
      forall i, j | 0 <= i < j < |v| ensures Before(v[i], v[j]) {
        if j < |prev| {
        } else if i < |prev| {
          assert Visited(v[i], w - 1, h);
          assert v[j] == col[j - |prev|];
        } else {
          assert v[i] == col[i - |prev|] && v[j] == col[j - |prev|];
        }
      }
    }
  }

  /**
   * The grid after applying f to every visited cell: cell (x, y) changes
   * exactly when x <= y, every other cell is left as it was.
   */
  function MapVisited(g: Grid, f: Pixel -> Pixel): (r: Grid)
    ensures |r| == |g|
    ensures forall x :: 0 <= x < |g| ==> |r[x]| == |g[x]|
    ensures forall x, y :: 0 <= x < |g| && 0 <= y < |g[x]| ==>
              r[x][y] == if Visited(Cell(x, y), |g|, |g[x]|) then f(g[x][y]) else g[x][y]
  {
    seq(|g|, x requires 0 <= x < |g| =>
      seq(|g[x]|, y requires 0 <= y < |g[x]| => if x <= y then f(g[x][y]) else g[x][y]))
  }

  /** Two grids of the same shape with the same pixel in every cell are equal. */
  lemma GridEquality(a: Grid, b: Grid)
    requires |a| == |b|
    requires forall x :: 0 <= x < |a| ==> |a[x]| == |b[x]|
    requires forall x, y :: 0 <= x < |a| && 0 <= y < |a[x]| ==> a[x][y] == b[x][y]
    ensures a == b
  {
    forall x | 0 <= x < |a| ensures a[x] == b[x] {
      assert forall y :: 0 <= y < |a[x]| ==> a[x][y] == b[x][y];
    }
  }

  /** ConvertToGrayScale is idempotent on the visited triangle. */
  lemma GrayGridIdempotent(g: Grid)
    ensures MapVisited(MapVisited(g, Gray), Gray) == MapVisited(g, Gray)
  {
    var once := MapVisited(g, Gray);
    var twice := MapVisited(once, Gray);
    forall x, y | 0 <= x < |g| && 0 <= y < |g[x]| ensures twice[x][y] == once[x][y] {
      GrayIdempotent(g[x][y]);
    }
    GridEquality(twice, once);
  }

  /** A grid whose channels all lie in [lo, hi] still does after ConvertToGrayScale. */
  lemma GrayGridInRange(g: Grid, lo: int, hi: int)
    requires forall x, y :: 0 <= x < |g| && 0 <= y < |g[x]| ==> ChannelsIn(g[x][y], lo, hi)
    ensures var r := MapVisited(g, Gray);
            forall x, y :: 0 <= x < |r| && 0 <= y < |r[x]| ==> ChannelsIn(r[x][y], lo, hi)
  {
    var r := MapVisited(g, Gray);
    forall x, y | 0 <= x < |r| && 0 <= y < |r[x]| ensures ChannelsIn(r[x][y], lo, hi) {
      GrayInRange(g[x][y], lo, hi);
    }
  }

  /** Running InvertImage twice restores every pixel of the grid. */
  lemma InvertGridTwice(g: Grid)
    ensures MapVisited(MapVisited(g, Invert), Invert) == g
  {
    var twice := MapVisited(MapVisited(g, Invert), Invert);
    forall x, y | 0 <= x < |g| && 0 <= y < |g[x]| ensures twice[x][y] == g[x][y] {
      InvertTwice(g[x][y]);
    }
    GridEquality(twice, g);
  }

  /**
   * The triangle misses cells: in a 2-wide, 1-high image the cell (1, 0) is never
   * visited, so ConvertToGrayScale leaves a non-gray pixel there.
   */
  lemma TriangleSkipsCell()
    ensures var g := [[Black], [Pixel(0, 0, 3)]];
            IsGrid(g, 2, 1) && !Visited(Cell(1, 0), 2, 1) &&
            MapVisited(g, Gray)[1][0] == Pixel(0, 0, 3) && !IsGray(MapVisited(g, Gray)[1][0])
  {
  }

  /** The luminance key of the pixel at cell c; cells outside the grid have none and give 0. */
  function KeyAt(g: Grid, c: Cell): int {
    if 0 <= c.x < |g| && 0 <= c.y < |g[c.x]| then Key(g[c.x][c.y]) else 0
  }

  /** The luminance keys of the given cells of g, one per cell, in the order of the cells. */
  function KeysAlong(g: Grid, cells: seq<Cell>): (keys: seq<int>)
    ensures |keys| == |cells|
    ensures forall i :: 0 <= i < |cells| ==> keys[i] == KeyAt(g, cells[i])
  {
    if cells == [] then []
    else KeysAlong(g, cells[..|cells| - 1]) + [KeyAt(g, cells[|cells| - 1])]
  }

  /** Appending a cell appends its key. */
  lemma KeysAlongSnoc(g: Grid, cells: seq<Cell>, c: Cell)
    ensures KeysAlong(g, cells + [c]) == KeysAlong(g, cells) + [KeyAt(g, c)]
  {
  }

  /** The keys one run of the inner loop collects in column x, for rows x .. y - 1. */
  function ColumnKeys(g: Grid, x: nat, y: nat): (keys: seq<int>)
    ensures |keys| == if x < y then y - x else 0
  {
    if y <= x then [] else ColumnKeys(g, x, y - 1) + [KeyAt(g, Cell(x, y - 1))]
  }

  /** The keys the first w runs of the outer loop collect over a grid of height h. */
  function TriangleKeys(g: Grid, w: nat, h: nat): (keys: seq<int>)
    ensures w > 0 ==> |keys| >= h
  {
    if w == 0 then [] else TriangleKeys(g, w - 1, h) + ColumnKeys(g, w - 1, h)
  }

  /** One more key collected by the inner loop, regrouped. */
  lemma AppendKey(done: seq<int>, part: seq<int>, k: int)
    ensures done + part + [k] == done + (part + [k])
  {
  }

  lemma {:induction false} ColumnKeysAlong(g: Grid, x: nat, y: nat)
    ensures ColumnKeys(g, x, y) == KeysAlong(g, Column(x, y))
  {
    if y > x {
      ColumnKeysAlong(g, x, y - 1);
      KeysAlongSnoc(g, Column(x, y - 1), Cell(x, y - 1));
    }
  }

  /** The loop-shaped definition collects exactly the keys along the traversal. */
  lemma {:induction false} TriangleKeysAlong(g: Grid, w: nat, h: nat)
    ensures TriangleKeys(g, w, h) == KeysAlong(g, Visits(w, h))
  {
    if w > 0 {
      TriangleKeysAlong(g, w - 1, h);
      ColumnKeysAlong(g, w - 1, h);
      KeysAlongAppend(g, Visits(w - 1, h), Column(w - 1, h));
    }
  }

  lemma KeysAlongAppend(g: Grid, a: seq<Cell>, b: seq<Cell>)
    ensures KeysAlong(g, a + b) == KeysAlong(g, a) + KeysAlong(g, b)
  {
  }
}
