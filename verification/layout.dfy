/** Fleet geometry of `_create_fleet` / `_create_alien`: how many aliens fit on
    the screen and where each one is placed. All quantities are whole pixels. */
module Layout {

  /** The top-left corner of an alien's rectangle. */
  datatype Alien = Alien(x: int, y: int)

  /** `range(n)` for a possibly negative `n` has `max(0, n)` elements. */
  function Clamp(n: int): nat
  {
    if n < 0 then 0 else n
  }

  /** `(screen_width - 2 * alien_width) // (2 * alien_width)`: the largest number of
      columns, each two alien widths wide, that fits in the width left after a
      two-alien margin. For a positive divisor Python's `//` and Dafny's `/` agree. */
  function ColumnCount(screenWidth: int, alienWidth: int): (n: int)
    requires alienWidth > 0
    ensures 2 * alienWidth * n <= screenWidth - 2 * alienWidth < 2 * alienWidth * (n + 1)
  {
    (screenWidth - 2 * alienWidth) / (2 * alienWidth)
  }

  /** `(screen_height - 3 * alien_height - ship_height) // (2 * alien_height)`: the
      largest number of rows, each two alien heights tall, that fits above the
      ship zone. */
  function RowCount(screenHeight: int, alienHeight: int, shipHeight: int): (n: int)
    requires alienHeight > 0
    ensures 2 * alienHeight * n <= screenHeight - 3 * alienHeight - shipHeight < 2 * alienHeight * (n + 1)
  {
    (screenHeight - 3 * alienHeight - shipHeight) / (2 * alienHeight)
  }

  /** Where `_create_alien(n, r)` puts the alien of column `n` and row `r`. The
      position gives back the column and the row, so distinct cells never share a
      position. */
  function Placement(alienWidth: int, alienHeight: int, n: int, r: int): (a: Alien)
    ensures alienWidth > 0 ==> (a.x - alienWidth) / (2 * alienWidth) == n
    ensures alienHeight > 0 ==> (a.y - alienHeight) / (2 * alienHeight) == r
  {
    MultipleDiv(alienWidth, n);
    MultipleDiv(alienHeight, r);
    Alien(alienWidth + 2 * alienWidth * n, alienHeight + 2 * alienHeight * r)
  }

  lemma MultipleDiv(size: int, k: int)
    ensures size > 0 ==> (size + 2 * size * k - size) / (2 * size) == k
  {
    if size > 0 {
      var d := 2 * size;
      assert size + 2 * size * k - size == d * k;
      var q, rem := (d * k) / d, (d * k) % d;
      assert d * k == d * q + rem && 0 <= rem < d;
      assert d * (k - q) == rem;
      MulAwayFromZero(d, k - q);
    }
  }

  lemma MulAwayFromZero(d: int, m: int)
    requires d > 0
    ensures m >= 1 ==> d * m >= d
    ensures m <= -1 ==> d * m <= -d
  {
    if m >= 1 {
      assert d * m == d + d * (m - 1);
    } else if m <= -1 {
      assert d * m == -d + d * (m + 1);
    }
  }

  /** The first `cols` aliens of row `r`, in the order the inner loop adds them. */
  function Row(alienWidth: int, alienHeight: int, r: int, cols: nat): seq<Alien>
  {
    if cols == 0 then []
    else Row(alienWidth, alienHeight, r, cols - 1) + [Placement(alienWidth, alienHeight, cols - 1, r)]
  }

  /** The first `rows` full rows of `cols` aliens, row after row. */
  function Grid(alienWidth: int, alienHeight: int, cols: nat, rows: nat): seq<Alien>
  {
    if rows == 0 then []
    else Grid(alienWidth, alienHeight, cols, rows - 1) + Row(alienWidth, alienHeight, rows - 1, cols)
  }

  /** The aliens `_create_fleet` adds, in the order it adds them: `max(0, nx) * max(0, nr)`
      of them, since `range` over a non-positive count is empty. */
  function FleetLayout(screenWidth: int, screenHeight: int, alienWidth: int, alienHeight: int, shipHeight: int): (fleet: seq<Alien>)
    requires alienWidth > 0 && alienHeight > 0
    ensures |fleet| == Clamp(ColumnCount(screenWidth, alienWidth)) * Clamp(RowCount(screenHeight, alienHeight, shipHeight))
  {
    GridSize(alienWidth, alienHeight,
             Clamp(ColumnCount(screenWidth, alienWidth)),
             Clamp(RowCount(screenHeight, alienHeight, shipHeight)));
    Grid(alienWidth, alienHeight,
         Clamp(ColumnCount(screenWidth, alienWidth)),
         Clamp(RowCount(screenHeight, alienHeight, shipHeight)))
  }

  /** Some alien's bottom edge is at or below the bottom of the screen. */
  predicate ReachedBottom(aliens: seq<Alien>, alienHeight: int, screenHeight: int)
  {
    exists i :: 0 <= i < |aliens| && aliens[i].y + alienHeight >= screenHeight
  }

  /** The fleet only moves down: once an alien has reached the bottom, a frame in
      which every alien keeps or increases its y (a drop of `d >= 0`, whatever
      happens to the x) still has one at the bottom. */
  lemma DropKeepsBottom(before: seq<Alien>, after: seq<Alien>, d: int, alienHeight: int, screenHeight: int)
    requires d >= 0 && |after| == |before|
    requires forall i :: 0 <= i < |before| ==> after[i].y == before[i].y + d
    requires ReachedBottom(before, alienHeight, screenHeight)
    ensures ReachedBottom(after, alienHeight, screenHeight)
  {
    var i :| 0 <= i < |before| && before[i].y + alienHeight >= screenHeight;
    assert after[i].y + alienHeight >= screenHeight;
  }

  // ---------------------------------------------------------------------------
  // Size and order of the grid

  lemma {:induction false} RowAt(alienWidth: int, alienHeight: int, r: int, cols: nat, n: nat)
    requires n < cols
    ensures |Row(alienWidth, alienHeight, r, cols)| == cols
    ensures Row(alienWidth, alienHeight, r, cols)[n] == Placement(alienWidth, alienHeight, n, r)
  {
    if n < cols - 1 {
      RowAt(alienWidth, alienHeight, r, cols - 1, n);
    } else if cols > 1 {
      RowAt(alienWidth, alienHeight, r, cols - 1, 0);
    }
  }

  lemma {:induction false} GridSize(alienWidth: int, alienHeight: int, cols: nat, rows: nat)
    ensures |Grid(alienWidth, alienHeight, cols, rows)| == cols * rows
  {
    if rows > 0 {
      GridSize(alienWidth, alienHeight, cols, rows - 1);
      if cols > 0 {
        RowAt(alienWidth, alienHeight, rows - 1, cols, 0);
      }
      assert cols * rows == cols * (rows - 1) + cols;
    }
  }

  /** Row-major order: the alien of column `n`, row `r` is element `r * cols + n`. */
  lemma {:induction false} GridAt(alienWidth: int, alienHeight: int, cols: nat, rows: nat, n: nat, r: nat)
    requires n < cols && r < rows
    ensures r * cols + n < |Grid(alienWidth, alienHeight, cols, rows)|
    ensures Grid(alienWidth, alienHeight, cols, rows)[r * cols + n] == Placement(alienWidth, alienHeight, n, r)
  {
    var upper := Grid(alienWidth, alienHeight, cols, rows - 1);
    var last := Row(alienWidth, alienHeight, rows - 1, cols);
    assert Grid(alienWidth, alienHeight, cols, rows) == upper + last;
    GridSize(alienWidth, alienHeight, cols, rows - 1);
    RowAt(alienWidth, alienHeight, rows - 1, cols, n);
    if r < rows - 1 {
      GridAt(alienWidth, alienHeight, cols, rows - 1, n, r);
    } else {
      assert r == rows - 1;
      assert r * cols == |upper|;
    }
  }

  // ---------------------------------------------------------------------------
  // Bounds and distinctness

  lemma {:induction false} RowBounds(alienWidth: int, alienHeight: int, r: int, cols: nat)
    requires alienWidth > 0
    ensures forall a :: a in Row(alienWidth, alienHeight, r, cols) ==>
      alienWidth <= a.x && a.x + alienWidth <= 2 * alienWidth * cols &&
      a.y == alienHeight + 2 * alienHeight * r
  {
    if cols > 0 {
      RowBounds(alienWidth, alienHeight, r, cols - 1);
    }
  }

  /** Within one row the aliens stand strictly left to right. */
  lemma {:induction false} RowIncreasing(alienWidth: int, alienHeight: int, r: int, cols: nat)
    requires alienWidth > 0
    ensures forall i, j :: 0 <= i < j < |Row(alienWidth, alienHeight, r, cols)| ==>
      Row(alienWidth, alienHeight, r, cols)[i].x < Row(alienWidth, alienHeight, r, cols)[j].x
  {
    if cols > 0 {
      RowIncreasing(alienWidth, alienHeight, r, cols - 1);
      RowBounds(alienWidth, alienHeight, r, cols - 1);
      var prefix := Row(alienWidth, alienHeight, r, cols - 1);
      forall i | 0 <= i < |prefix|
        ensures prefix[i].x < alienWidth + 2 * alienWidth * (cols - 1)
      {
        assert prefix[i] in prefix;
      }
    }
  }

  lemma {:induction false} GridBounds(alienWidth: int, alienHeight: int, cols: nat, rows: nat)
    requires alienWidth > 0 && alienHeight > 0
    ensures forall a :: a in Grid(alienWidth, alienHeight, cols, rows) ==>
      alienWidth <= a.x && a.x + alienWidth <= 2 * alienWidth * cols &&
      alienHeight <= a.y && a.y + alienHeight <= 2 * alienHeight * rows
  {
    if rows > 0 {
      GridBounds(alienWidth, alienHeight, cols, rows - 1);
      RowBounds(alienWidth, alienHeight, rows - 1, cols);
      assert 2 * alienHeight * (rows - 1) + 2 * alienHeight == 2 * alienHeight * rows;
    }
  }

  /** No two aliens of a grid share a position. */
  lemma {:induction false} GridDistinct(alienWidth: int, alienHeight: int, cols: nat, rows: nat)
    requires alienWidth > 0 && alienHeight > 0
    ensures forall i, j :: 0 <= i < j < |Grid(alienWidth, alienHeight, cols, rows)| ==>
      Grid(alienWidth, alienHeight, cols, rows)[i] != Grid(alienWidth, alienHeight, cols, rows)[j]
  {
    if rows > 0 {
      var upper := Grid(alienWidth, alienHeight, cols, rows - 1);
      var last := Row(alienWidth, alienHeight, rows - 1, cols);
      var g := upper + last;
      GridDistinct(alienWidth, alienHeight, cols, rows - 1);
      GridBounds(alienWidth, alienHeight, cols, rows - 1);
      RowBounds(alienWidth, alienHeight, rows - 1, cols);
      RowIncreasing(alienWidth, alienHeight, rows - 1, cols);
      assert 2 * alienHeight * (rows - 1) < alienHeight + 2 * alienHeight * (rows - 1);
      forall i, j | 0 <= i < j < |g|
        ensures g[i] != g[j]
      {
        if j < |upper| {
          assert g[i] == upper[i] && g[j] == upper[j];
        } else if i < |upper| {
          assert g[i] == upper[i] && upper[i] in upper;
          assert g[j] == last[j - |upper|] && last[j - |upper|] in last;
        } else {
          assert g[i] == last[i - |upper|] && g[j] == last[j - |upper|];
        }
      }
    }
  }

  // ---------------------------------------------------------------------------
  // The fleet `_create_fleet` builds

  /** An 800 x 600 screen with 40 x 40 aliens and a 60-pixel ship holds 9 columns of 5 rows. */
  lemma ExampleFleetSize()
    ensures ColumnCount(800, 40) == 9 && RowCount(600, 40, 60) == 5
    ensures |FleetLayout(800, 600, 40, 40, 60)| == 45
  {
    assert ColumnCount(800, 40) == 720 / 80 == 9;
    assert RowCount(600, 40, 60) == 420 / 80 == 5;
    GridSize(40, 40, 9, 5);
  }

  /** Every alien of a fresh fleet keeps a one-alien margin on the left and top,
      its right edge at most `screen_width - 2 * alien_width`, and its bottom edge
      at most `screen_height - 3 * alien_height - ship_height`. */
  lemma FleetBounds(screenWidth: int, screenHeight: int, alienWidth: int, alienHeight: int, shipHeight: int)
    requires alienWidth > 0 && alienHeight > 0
    ensures forall a :: a in FleetLayout(screenWidth, screenHeight, alienWidth, alienHeight, shipHeight) ==>
      alienWidth <= a.x && a.x + alienWidth <= screenWidth - 2 * alienWidth &&
      alienHeight <= a.y && a.y + alienHeight <= screenHeight - 3 * alienHeight - shipHeight
  {
    var cols := Clamp(ColumnCount(screenWidth, alienWidth));
    var rows := Clamp(RowCount(screenHeight, alienHeight, shipHeight));
    GridBounds(alienWidth, alienHeight, cols, rows);
    GridSize(alienWidth, alienHeight, cols, rows);
    if cols == 0 || rows == 0 {
      assert cols * rows == 0;
    }
  }

  /** The alien of column `n`, row `r` of a fresh fleet sits at
      `(w + 2*w*n, h + 2*h*r)`, and no two aliens share a position. */
  lemma FleetPlacement(screenWidth: int, screenHeight: int, alienWidth: int, alienHeight: int, shipHeight: int, n: nat, r: nat)
    requires alienWidth > 0 && alienHeight > 0
    requires n < ColumnCount(screenWidth, alienWidth) && r < RowCount(screenHeight, alienHeight, shipHeight)
    ensures var fleet := FleetLayout(screenWidth, screenHeight, alienWidth, alienHeight, shipHeight);
      var i := r * ColumnCount(screenWidth, alienWidth) + n;
      i < |fleet| && fleet[i] == Alien(alienWidth + 2 * alienWidth * n, alienHeight + 2 * alienHeight * r)
  {
    GridAt(alienWidth, alienHeight,
           Clamp(ColumnCount(screenWidth, alienWidth)),
           Clamp(RowCount(screenHeight, alienHeight, shipHeight)), n, r);
  }

  lemma FleetDistinct(screenWidth: int, screenHeight: int, alienWidth: int, alienHeight: int, shipHeight: int)
    requires alienWidth > 0 && alienHeight > 0
    ensures var fleet := FleetLayout(screenWidth, screenHeight, alienWidth, alienHeight, shipHeight);
      forall i, j :: 0 <= i < j < |fleet| ==> fleet[i] != fleet[j]
  {
    GridDistinct(alienWidth, alienHeight,
                 Clamp(ColumnCount(screenWidth, alienWidth)),
                 Clamp(RowCount(screenHeight, alienHeight, shipHeight)));
  }

  /** A freshly built fleet never triggers the bottom-of-screen game over. */
  lemma FreshFleetClearOfBottom(screenWidth: int, screenHeight: int, alienWidth: int, alienHeight: int, shipHeight: int)
    requires alienWidth > 0 && alienHeight > 0 && shipHeight >= 0
    ensures !ReachedBottom(FleetLayout(screenWidth, screenHeight, alienWidth, alienHeight, shipHeight), alienHeight, screenHeight)
  {
    var fleet := FleetLayout(screenWidth, screenHeight, alienWidth, alienHeight, shipHeight);
    FleetBounds(screenWidth, screenHeight, alienWidth, alienHeight, shipHeight);
    forall i | 0 <= i < |fleet|
      ensures fleet[i].y + alienHeight < screenHeight
    {
      assert fleet[i] in fleet;
    }
  }
}
