/** The row-major "keep the first strictly better cell" scan shared by the
    endpoint selectors: every cell holding a given value is scored, and a cell
    replaces the current choice only when its score is strictly below the best
    so far, which starts at a sentinel (`1e9`, or `float("inf")`). */
module Scan {
  import opened Wrappers
  import opened Grid

  /** The value the best score starts from. */
  datatype Bound = Finite(n: int) | Infinite

  /** `1e9`, the sentinel of the pixel selectors. */
  const PIXEL_SENTINEL: int := 1_000_000_000

  function Min(a: int, b: int): int {
    if a <= b then a else b
  }

  function Max(a: int, b: int): int {
    if a <= b then b else a
  }

  /** `(h // 2, w // 2)`. */
  function Centre(img: Image): Cell {
    Cell(Height(img) / 2, Width(img) / 2)
  }

  /** `min(i, j, h - 1 - i, w - 1 - j)`: steps from `c` to the nearest border. */
  function EdgeDistance(img: Image, c: Cell): int {
    Min(Min(c.row, c.col), Min(Height(img) - 1 - c.row, Width(img) - 1 - c.col))
  }

  /** `abs(i - h // 2) + abs(j - w // 2)`. */
  function CentreDistance(img: Image, c: Cell): int {
    Manhattan(c, Centre(img))
  }

  /** The radius of the square ring around the centre that holds `c`. */
  function RingDistance(img: Image, c: Cell): int {
    Max(Abs(c.row - Centre(img).row), Abs(c.col - Centre(img).col))
  }

  predicate Below(d: int, b: Bound) {
    b.Infinite? || d < b.n
  }

  /** `c` is in the image and holds `v`. */
  predicate HasValue(img: Image, v: int, c: Cell) {
    InBounds(img, c) && img[c.row][c.col] == v
  }

  /** `a` comes before `b` in the `for i ... for j ...` order. */
  predicate RowMajorBefore(a: Cell, b: Cell) {
    a.row < b.row || (a.row == b.row && a.col < b.col)
  }

  /** A cell the scan would accept against the initial bound. */
  predicate Candidate(img: Image, v: int, score: Cell -> int, b: Bound, c: Cell) {
    HasValue(img, v, c) && Below(score(c), b)
  }

  /** `c` has the least score among the candidates, and every candidate
      before it in row-major order scores strictly more. */
  ghost predicate FirstMin(img: Image, v: int, score: Cell -> int, b: Bound, c: Cell) {
    && Candidate(img, v, score, b, c)
    && forall d :: Candidate(img, v, score, b, d) ==>
         && score(c) <= score(d)
         && (RowMajorBefore(d, c) ==> score(c) < score(d))
  }

  /** The scan's choice is determined: at most one cell is the first
      minimum. */
  lemma FirstMinUnique(img: Image, v: int, score: Cell -> int, b: Bound, c: Cell, d: Cell)
    requires FirstMin(img, v, score, b, c) && FirstMin(img, v, score, b, d)
    ensures c == d
  {
  }

  /** Against a finite bound, the first minimum also beats every cell
      holding `v` that was excluded by the bound. */
  lemma FirstMinBeatsAll(img: Image, v: int, score: Cell -> int, n: int, c: Cell)
    requires FirstMin(img, v, score, Finite(n), c)
    ensures forall d :: HasValue(img, v, d) ==> score(c) <= score(d)
    ensures forall d :: HasValue(img, v, d) && RowMajorBefore(d, c) ==> score(c) < score(d)
  {
    forall d | HasValue(img, v, d)
      ensures score(c) <= score(d) && (RowMajorBefore(d, c) ==> score(c) < score(d))
    {
      if Candidate(img, v, score, Finite(n), d) {
      }
    }
  }

  /** No candidate against a finite bound: every cell holding `v` scores at
      least the bound. */
  lemma NoCandidate(img: Image, v: int, score: Cell -> int, n: int)
    requires forall c :: !Candidate(img, v, score, Finite(n), c)
    ensures forall c :: HasValue(img, v, c) ==> score(c) >= n
  {
    forall c | HasValue(img, v, c)
      ensures score(c) >= n
    {
      assert !Candidate(img, v, score, Finite(n), c);
    }
  }

  /** The first `i` rows and the first `j` cells of row `i` have been
      scanned. */
  predicate Scanned(i: int, j: int, c: Cell) {
    c.row < i || (c.row == i && c.col < j)
  }

  /** The scan's state after the cells before `(i, j)`: `pos` is the first
      minimum among the scanned candidates, and `best` its score. */
  ghost predicate ScanInv(img: Image, v: int, score: Cell -> int, b: Bound, i: int, j: int, best: Bound, pos: Option<Cell>) {
    && (pos.None? ==> best == b && forall c :: Candidate(img, v, score, b, c) ==> !Scanned(i, j, c))
    && (pos.Some? ==>
          && best == Finite(score(pos.value))
          && Candidate(img, v, score, b, pos.value) && Scanned(i, j, pos.value)
          && forall d :: Candidate(img, v, score, b, d) && Scanned(i, j, d) ==>
               && score(pos.value) <= score(d)
               && (RowMajorBefore(d, pos.value) ==> score(pos.value) < score(d)))
  }

  /** Scanning a cell that does not beat the best so far keeps the choice. */
  lemma ScanKeep(img: Image, v: int, score: Cell -> int, b: Bound, i: int, j: int, best: Bound, pos: Option<Cell>)
    requires ScanInv(img, v, score, b, i, j, best, pos)
    requires !(HasValue(img, v, Cell(i, j)) && Below(score(Cell(i, j)), best))
    ensures ScanInv(img, v, score, b, i, j + 1, best, pos)
  {
    var c := Cell(i, j);
    if Candidate(img, v, score, b, c) {
      assert pos.Some?;
    }
  }

  /** Scanning a cell that beats the best so far makes it the choice. */
  lemma ScanTake(img: Image, v: int, score: Cell -> int, b: Bound, i: int, j: int, best: Bound, pos: Option<Cell>)
    requires ScanInv(img, v, score, b, i, j, best, pos)
    requires HasValue(img, v, Cell(i, j)) && Below(score(Cell(i, j)), best)
    ensures ScanInv(img, v, score, b, i, j + 1, Finite(score(Cell(i, j))), Some(Cell(i, j)))
  {
  }

  /** Finishing row `i` is starting row `i + 1`. */
  lemma ScanRow(img: Image, v: int, score: Cell -> int, b: Bound, i: int, best: Bound, pos: Option<Cell>)
    requires IsGrid(img) && 0 <= i < Height(img)
    requires ScanInv(img, v, score, b, i, Width(img), best, pos)
    ensures ScanInv(img, v, score, b, i + 1, 0, best, pos)
  {
    forall c | Candidate(img, v, score, b, c) && Scanned(i + 1, 0, c)
      ensures Scanned(i, Width(img), c)
    {
    }
  }

  /** After the last row every candidate has been scanned. */
  lemma ScanEnd(img: Image, v: int, score: Cell -> int, b: Bound, best: Bound, pos: Option<Cell>)
    requires ScanInv(img, v, score, b, Height(img), 0, best, pos)
    ensures pos.None? <==> forall c :: !Candidate(img, v, score, b, c)
    ensures pos.Some? ==> FirstMin(img, v, score, b, pos.value)
  {
    forall c | Candidate(img, v, score, b, c)
      ensures Scanned(Height(img), 0, c)
    {
    }
  }

  /** The nested `for i in range(h): for j in range(w)` loop: a cell holding
      `v` whose score is strictly below the best so far becomes the choice.
      The result is the first minimum, or `None` when no cell is a
      candidate. */
  method ArgminScan(img: Image, v: int, score: Cell -> int, b: Bound) returns (pos: Option<Cell>)
    requires IsGrid(img)
    ensures pos.None? <==> forall c :: !Candidate(img, v, score, b, c)
    ensures pos.Some? ==> FirstMin(img, v, score, b, pos.value)
  {
    var h, w := Height(img), Width(img);
    var best := b;
    pos := None;
    var i := 0;
    while i < h
      invariant 0 <= i <= h
      invariant ScanInv(img, v, score, b, i, 0, best, pos)
    {
      var j := 0;
      assert |img[i]| == w;
      while j < w
        invariant 0 <= j <= w
        invariant ScanInv(img, v, score, b, i, j, best, pos)
      {
        var d := score(Cell(i, j));
        if img[i][j] == v && Below(d, best) {
          ScanTake(img, v, score, b, i, j, best, pos);
          best, pos := Finite(d), Some(Cell(i, j));
        } else {
          ScanKeep(img, v, score, b, i, j, best, pos);
        }
        j := j + 1;
      }
      ScanRow(img, v, score, b, i, best, pos);
      i := i + 1;
    }
    ScanEnd(img, v, score, b, best, pos);
  }

  /** On an image less than `1e9` pixels high and wide, no in-bounds cell
      scores `1e9` or more, so that sentinel never excludes a cell. */
  lemma SentinelNeverBinds(img: Image, c: Cell)
    requires IsGrid(img) && InBounds(img, c)
    requires Height(img) < PIXEL_SENTINEL && Width(img) < PIXEL_SENTINEL
    ensures 0 <= EdgeDistance(img, c) < PIXEL_SENTINEL
    ensures 0 <= CentreDistance(img, c) < PIXEL_SENTINEL
  {
    assert Width(img) == |img[c.row]|;
  }
}
