/** The occupancy-grid helpers (`image_to_grid`, `find_start`, `find_goal`).
    Here a grid cell is free when it holds 0 and a wall when it holds 1; a
    raised `ValueError` (or numpy's `IndexError`) is a `Failure`. */
module GridUtils {
  import opened Wrappers
  import opened Grid
  import opened Scan

  /** Value of a free grid cell. */
  const FREE_CELL: int := 0

  // ----- image_to_grid -----

  /** Some pixel of the `cs` by `cs` block whose top-left pixel is
      `(top, left)` is 0. */
  ghost predicate ZeroIn(img: Image, top: int, left: int, cs: int) {
    exists r, c :: top <= r < top + cs && left <= c < left + cs && HasValue(img, 0, Cell(r, c))
  }

  /** The grid `image_to_grid` produces: `h // cs` rows of `w // cs` cells,
      a cell being 1 exactly when its block holds a 0-pixel. */
  ghost function Downsample(img: Image, cs: int): Image
    requires cs > 0
  {
    seq(Height(img) / cs, i => seq(Width(img) / cs, j => if ZeroIn(img, i * cs, j * cs, cs) then 1 else 0))
  }

  lemma MulLe(a: int, b: int, c: nat)
    requires a <= b
    ensures a * c <= b * c
  {
  }

  /** Every block of the grid lies inside the image. */
  lemma BlockInside(img: Image, cs: int, i: int, j: int)
    requires cs > 0 && 0 <= i < Height(img) / cs && 0 <= j < Width(img) / cs
    ensures 0 <= i * cs && (i + 1) * cs <= (Height(img) / cs) * cs <= Height(img)
    ensures 0 <= j * cs && (j + 1) * cs <= (Width(img) / cs) * cs <= Width(img)
  {
    MulLe(i + 1, Height(img) / cs, cs);
    MulLe(j + 1, Width(img) / cs, cs);
    MulLe(0, i, cs);
    MulLe(0, j, cs);
  }

  /** `np.any(block == 0)` for the `cs` by `cs` block at `(top, left)`. */
  method AnyZero(img: Image, top: int, left: int, cs: int) returns (found: bool)
    requires IsGrid(img) && cs > 0
    requires 0 <= top && top + cs <= Height(img) && 0 <= left && left + cs <= Width(img)
    ensures found <==> ZeroIn(img, top, left, cs)
  {
    found := false;
    var r := top;
    while r < top + cs
      invariant top <= r <= top + cs
      invariant found <==> exists x, y :: top <= x < r && left <= y < left + cs && HasValue(img, 0, Cell(x, y))
    {
      var c := left;
      assert |img[r]| == Width(img);
      while c < left + cs
        invariant left <= c <= left + cs
        invariant found <==> exists x, y :: ((top <= x < r && left <= y < left + cs) || (x == r && left <= y < c)) && HasValue(img, 0, Cell(x, y))
      {
        if img[r][c] == 0 {
          assert HasValue(img, 0, Cell(r, c));
          found := true;
        }
        c := c + 1;
      }
      r := r + 1;
    }
  }

  /** Cell `(i, j)` of the grid, as `image_to_grid` writes it. */
  lemma DownsampleAt(img: Image, cs: int, i: int, j: int)
    requires cs > 0 && 0 <= i < Height(img) / cs && 0 <= j < Width(img) / cs
    ensures |Downsample(img, cs)| == Height(img) / cs && |Downsample(img, cs)[i]| == Width(img) / cs
    ensures Downsample(img, cs)[i][j] == if ZeroIn(img, i * cs, j * cs, cs) then 1 else 0
  {
  }

  lemma TakeOneMore<T>(s: seq<T>, j: int)
    requires 0 <= j < |s|
    ensures s[..j + 1] == s[..j] + [s[j]]
  {
  }

  /** The inner `for j in range(grid_w)` loop: row `i` of the grid. */
  method GridRow(binary: Image, cellSize: int, i: int) returns (row: seq<int>)
    requires IsGrid(binary) && cellSize > 0 && 0 <= i < Height(binary) / cellSize
    ensures row == Downsample(binary, cellSize)[i]
  {
    var gw := Width(binary) / cellSize;
    ghost var target := Downsample(binary, cellSize)[i];
    assert |target| == gw;
    row := [];
    var j := 0;
    while j < gw
      invariant 0 <= j <= gw && |target| == gw
      invariant row == target[..j]
    {
      BlockInside(binary, cellSize, i, j);
      var wall := AnyZero(binary, i * cellSize, j * cellSize, cellSize);
      DownsampleAt(binary, cellSize, i, j);
      TakeOneMore(target, j);
      row := row + [if wall then 1 else 0];
      j := j + 1;
    }
  }

  /** `image_to_grid`: block `(i, j)` of `cell_size` by `cell_size` pixels
      becomes 1 when it holds a 0-pixel and 0 otherwise; pixels past the last
      whole block are not read. */
  method ImageToGrid(binary: Image, cellSize: int) returns (grid: Image)
    requires IsGrid(binary) && cellSize > 0
    ensures grid == Downsample(binary, cellSize)
  {
    var gh := Height(binary) / cellSize;
    grid := [];
    var i := 0;
    while i < gh
      invariant 0 <= i <= gh
      invariant grid == Downsample(binary, cellSize)[..i]
    {
      var row := GridRow(binary, cellSize, i);
      TakeOneMore(Downsample(binary, cellSize), i);
      grid := grid + [row];
      i := i + 1;
    }
  }

  /** The grid is `h // cs` by `w // cs`, every cell is 0 or 1, and a cell is
      1 exactly when some pixel of its block is 0. */
  lemma DownsampleShape(img: Image, cs: int)
    requires cs > 0
    ensures |Downsample(img, cs)| == Height(img) / cs
    ensures forall i :: 0 <= i < Height(img) / cs ==> |Downsample(img, cs)[i]| == Width(img) / cs
    ensures IsGrid(Downsample(img, cs))
    ensures forall i, j :: 0 <= i < Height(img) / cs && 0 <= j < Width(img) / cs ==>
              && Downsample(img, cs)[i][j] in {0, 1}
              && (Downsample(img, cs)[i][j] == 1 <==> ZeroIn(img, i * cs, j * cs, cs))
  {
  }

  /** Two images with as many whole blocks that agree on every pixel of those
      blocks give the same grid: trailing rows and columns do not matter. */
  lemma DownsampleIgnoresTrailing(img: Image, img': Image, cs: int)
    requires IsGrid(img) && IsGrid(img') && cs > 0
    requires Height(img) / cs == Height(img') / cs && Width(img) / cs == Width(img') / cs
    requires forall r, c :: 0 <= r < (Height(img) / cs) * cs && 0 <= c < (Width(img) / cs) * cs ==>
               img[r][c] == img'[r][c]
    ensures Downsample(img, cs) == Downsample(img', cs)
  {
    forall i, j | 0 <= i < Height(img) / cs && 0 <= j < Width(img) / cs
      ensures ZeroIn(img, i * cs, j * cs, cs) <==> ZeroIn(img', i * cs, j * cs, cs)
    {
      BlockInside(img, cs, i, j);
      BlockInside(img', cs, i, j);
      if ZeroIn(img, i * cs, j * cs, cs) {
        var r, c :| i * cs <= r < i * cs + cs && j * cs <= c < j * cs + cs && HasValue(img, 0, Cell(r, c));
        assert HasValue(img', 0, Cell(r, c));
      }
      if ZeroIn(img', i * cs, j * cs, cs) {
        var r, c :| i * cs <= r < i * cs + cs && j * cs <= c < j * cs + cs && HasValue(img', 0, Cell(r, c));
        assert HasValue(img, 0, Cell(r, c));
      }
    }
    assert forall i :: 0 <= i < Height(img) / cs ==> Downsample(img, cs)[i] == Downsample(img', cs)[i];
  }

  // ----- find_start -----

  /** `find_start`: the free cell closest to the grid border, the first in
      row-major order among equally close ones; `ValueError` when no cell is
      free. */
  method FindStart(grid: Image) returns (r: Result<Cell>)
    requires IsGrid(grid)
    ensures r.Failure? <==> forall c :: !HasValue(grid, FREE_CELL, c)
    ensures r.Ok? ==> HasValue(grid, FREE_CELL, r.value)
    ensures r.Ok? ==> forall c :: HasValue(grid, FREE_CELL, c) ==> EdgeDistance(grid, r.value) <= EdgeDistance(grid, c)
    ensures r.Ok? ==> forall c :: HasValue(grid, FREE_CELL, c) && RowMajorBefore(c, r.value) ==>
              EdgeDistance(grid, r.value) < EdgeDistance(grid, c)
  {
    var score := c => EdgeDistance(grid, c);
    var pos := ArgminScan(grid, FREE_CELL, score, Infinite);
    assert forall c :: HasValue(grid, FREE_CELL, c) ==> Candidate(grid, FREE_CELL, score, Infinite, c);
    if pos.None? {
      r := Failure("No free cell found for start");
    } else {
      r := Ok(pos.value);
    }
  }

  // ----- find_goal -----

  /** `c` lies in the square of radius `radius` around the centre and comes
      before offset `(dx, dy)` in the `for dx ... for dy ...` order. */
  predicate SquareBefore(grid: Image, radius: int, dx: int, dy: int, c: Cell) {
    && Abs(c.row - Centre(grid).row) <= radius && Abs(c.col - Centre(grid).col) <= radius
    && (c.row - Centre(grid).row < dx || (c.row - Centre(grid).row == dx && c.col - Centre(grid).col < dy))
  }

  /** No free cell lies on a ring inside `radius`, nor on ring `radius` before
      offset `(dx, dy)`. */
  ghost predicate RingInv(grid: Image, radius: int, dx: int, dy: int) {
    forall c :: HasValue(grid, FREE_CELL, c) ==> RingDistance(grid, c) >= radius && !SquareBefore(grid, radius, dx, dy, c)
  }

  /** `c` is the free cell of least ring radius around the centre, the first
      in row-major order on that ring. */
  ghost predicate NearestOnRing(grid: Image, c: Cell) {
    && HasValue(grid, FREE_CELL, c)
    && forall d :: HasValue(grid, FREE_CELL, d) ==>
         && RingDistance(grid, c) <= RingDistance(grid, d)
         && (RowMajorBefore(d, c) ==> RingDistance(grid, c) < RingDistance(grid, d))
  }

  lemma RingFirst(grid: Image)
    requires !HasValue(grid, FREE_CELL, Centre(grid))
    ensures RingInv(grid, 1, -1, -1)
  {
    forall c | HasValue(grid, FREE_CELL, c)
      ensures RingDistance(grid, c) >= 1
    {
      if c != Centre(grid) {
        assert c.row != Centre(grid).row || c.col != Centre(grid).col;
      }
    }
  }

  lemma RingSkip(grid: Image, radius: int, dx: int, dy: int)
    requires IsGrid(grid) && RingInv(grid, radius, dx, dy)
    requires -radius <= dx <= radius && -radius <= dy <= radius
    requires !HasValue(grid, FREE_CELL, Cell(Centre(grid).row + dx, Centre(grid).col + dy))
    ensures RingInv(grid, radius, dx, dy + 1)
  {
  }

  lemma RingRow(grid: Image, radius: int, dx: int)
    requires RingInv(grid, radius, dx, radius + 1)
    ensures RingInv(grid, radius, dx + 1, -radius)
  {
  }

  lemma RingNext(grid: Image, radius: int)
    requires radius >= 0 && RingInv(grid, radius, radius + 1, -radius)
    ensures RingInv(grid, radius + 1, -radius - 1, -radius - 1)
  {
    forall c | HasValue(grid, FREE_CELL, c)
      ensures RingDistance(grid, c) >= radius + 1
    {
      assert !SquareBefore(grid, radius, radius + 1, -radius, c);
    }
  }

  /** The first free cell met on ring `radius` is the nearest one. */
  lemma RingFound(grid: Image, radius: int, dx: int, dy: int)
    requires RingInv(grid, radius, dx, dy)
    requires -radius <= dx <= radius && -radius <= dy <= radius
    requires HasValue(grid, FREE_CELL, Cell(Centre(grid).row + dx, Centre(grid).col + dy))
    ensures NearestOnRing(grid, Cell(Centre(grid).row + dx, Centre(grid).col + dy))
  {
    var c := Cell(Centre(grid).row + dx, Centre(grid).col + dy);
    forall d | HasValue(grid, FREE_CELL, d)
      ensures RingDistance(grid, c) <= RingDistance(grid, d)
      ensures RowMajorBefore(d, c) ==> RingDistance(grid, c) < RingDistance(grid, d)
    {
    }
  }

  /** Once the radius reaches `max(h, w)` every cell has been looked at. */
  lemma RingsCover(grid: Image, radius: int)
    requires IsGrid(grid) && radius >= Max(Height(grid), Width(grid))
    requires RingInv(grid, radius, -radius, -radius)
    ensures forall c :: !HasValue(grid, FREE_CELL, c)
  {
    forall c | InBounds(grid, c)
      ensures RingDistance(grid, c) < radius
    {
      assert |grid[c.row]| == Width(grid);
    }
  }

  /** `find_goal`: the centre `(h // 2, w // 2)` when it is free; otherwise
      the first free cell of the square rings of growing radius, scanned by
      row offset then column offset. That is the free cell of least ring
      radius, the first in row-major order on its ring. `ValueError` when no
      cell is free; an empty grid fails on reading the centre. */
  method FindGoal(grid: Image) returns (r: Result<Cell>)
    requires IsGrid(grid)
    ensures r.Failure? <==> forall c :: !HasValue(grid, FREE_CELL, c)
    ensures r.Ok? ==> NearestOnRing(grid, r.value)
    ensures HasValue(grid, FREE_CELL, Centre(grid)) ==> r == Ok(Centre(grid))
  {
    var h, w := Height(grid), Width(grid);
    if h == 0 || w == 0 {
      assert forall c :: !InBounds(grid, c);
      return Failure("index out of bounds");
    }
    var center := Centre(grid);
    if grid[center.row][center.col] == FREE_CELL {
      assert NearestOnRing(grid, center);
      return Ok(center);
    }
    RingFirst(grid);
    var radius := 1;
    while radius < Max(h, w)
      invariant 1 <= radius <= Max(h, w)
      invariant RingInv(grid, radius, -radius, -radius)
    {
      var dx := -radius;
      while dx <= radius
        invariant -radius <= dx <= radius + 1
        invariant RingInv(grid, radius, dx, -radius)
      {
        var dy := -radius;
        while dy <= radius
          invariant -radius <= dy <= radius + 1
          invariant RingInv(grid, radius, dx, dy)
        {
          var x, y := center.row + dx, center.col + dy;
          if 0 <= x < h && 0 <= y < w && grid[x][y] == FREE_CELL {
            RingFound(grid, radius, dx, dy);
            return Ok(Cell(x, y));
          }
          RingSkip(grid, radius, dx, dy);
          dy := dy + 1;
        }
        RingRow(grid, radius, dx);
        dx := dx + 1;
      }
      RingNext(grid, radius);
      radius := radius + 1;
    }
    RingsCover(grid, radius);
    r := Failure("No valid goal found");
  }
}
