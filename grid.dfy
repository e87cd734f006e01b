/** Cells, images and 4-connected routes shared by the two searches and the
    endpoint selectors. An image is the binarised maze, a rectangular 2-D
    array of integers indexed `[row][col]`; the searches only read it and walk
    over pixels whose value is 255. */
module Grid {

  /** A 2-D integer array as rows of equal length. */
  type Image = seq<seq<int>>

  ghost predicate IsGrid(img: Image) {
    forall i :: 0 <= i < |img| ==> |img[i]| == |img[0]|
  }

  function Height(img: Image): nat {
    |img|
  }

  function Width(img: Image): nat {
    if |img| == 0 then 0 else |img[0]|
  }

  /** A `(row, col)` coordinate. Neighbour arithmetic may step outside the image,
      so both components are unbounded integers. */
  datatype Cell = Cell(row: int, col: int)

  /** Value of a traversable pixel in the binarised image. */
  const FREE_PIXEL: int := 255

  /** The four moves both searches try, in their order: up, down, left, right. */
  const DIRECTIONS: seq<(int, int)> := [(-1, 0), (1, 0), (0, -1), (0, 1)]

  function Abs(x: int): nat {
    if x < 0 then -x else x
  }

  /** Manhattan distance between two cells. */
  function Manhattan(a: Cell, b: Cell): nat {
    Abs(a.row - b.row) + Abs(a.col - b.col)
  }

  /** `a` and `b` differ by one orthogonal unit step. */
  predicate Adjacent(a: Cell, b: Cell) {
    Manhattan(a, b) == 1
  }

  /** The neighbour of `c` in direction `k` of `DIRECTIONS`. */
  function Step(c: Cell, k: nat): Cell
    requires k < |DIRECTIONS|
  {
    Cell(c.row + DIRECTIONS[k].0, c.col + DIRECTIONS[k].1)
  }

  predicate InBounds(img: Image, c: Cell) {
    0 <= c.row < |img| && 0 <= c.col < |img[c.row]|
  }

  /** `c` lies inside the image and its pixel is traversable. */
  predicate IsOpen(img: Image, c: Cell) {
    InBounds(img, c) && img[c.row][c.col] == FREE_PIXEL
  }

  /** `w` is a 4-connected route from `start` to `goal`: consecutive cells are
      adjacent and every cell after `start` is an in-bounds 255-pixel (the
      start cell itself is never checked by the searches). */
  ghost predicate IsRoute(img: Image, start: Cell, goal: Cell, w: seq<Cell>)
  {
    && |w| >= 1 && w[0] == start && w[|w| - 1] == goal
    && (forall i :: 1 <= i < |w| ==> IsOpen(img, w[i]))
    && (forall i, j {:trigger w[i], w[j]} :: 0 <= i && j == i + 1 < |w| ==> Adjacent(w[i], w[j]))
  }

  /** `p` is a duplicate-free route from `start` to `goal` no longer than any
      other such route. */
  ghost predicate ShortestRoute(img: Image, start: Cell, goal: Cell, p: seq<Cell>)
  {
    IsRoute(img, start, goal, p) && NoDup(p) && forall w :: IsRoute(img, start, goal, w) ==> |p| <= |w|
  }

  ghost predicate Reachable(img: Image, start: Cell, c: Cell)
  {
    exists w :: IsRoute(img, start, c, w)
  }

  predicate NoDup<T(==)>(s: seq<T>) {
    forall i, j :: 0 <= i < j < |s| ==> s[i] != s[j]
  }

  function Elems<T>(s: seq<T>): set<T> {
    set x | x in s
  }

  /** Every in-bounds cell of an `h` by `w` image. */
  function AllCells(h: int, w: int): set<Cell> {
    set i, j | 0 <= i < h && 0 <= j < w :: Cell(i, j)
  }

  /** Listing one more in-bounds cell not listed yet leaves fewer unlisted
      cells. */
  lemma ListOneMore(h: int, w: int, s: seq<Cell>, c: Cell)
    requires 0 <= c.row < h && 0 <= c.col < w && c !in s
    ensures AllCells(h, w) - Elems(s + [c]) < AllCells(h, w) - Elems(s)
  {
    assert Elems(s + [c]) == Elems(s) + {c};
    assert c in AllCells(h, w);
  }

  /** Every direction leads to an adjacent cell, and every adjacent cell is
      reached by exactly one direction. */
  function DirectionTo(a: Cell, b: Cell): (k: nat)
    requires Adjacent(a, b)
    ensures k < |DIRECTIONS| && Step(a, k) == b
    ensures forall k' :: 0 <= k' < |DIRECTIONS| && Step(a, k') == b ==> k' == k
  {
    if b.row < a.row then 0
    else if b.row > a.row then 1
    else if b.col < a.col then 2
    else 3
  }

  lemma StepIsAdjacent(c: Cell, k: nat)
    requires k < |DIRECTIONS|
    ensures Adjacent(c, Step(c, k)) && Adjacent(Step(c, k), c)
  {
  }

  /** The heuristic facts the A* search relies on: Manhattan distance is
      symmetric, zero exactly on equal cells, and changes by at most one per
      unit step (consistency). */
  lemma ManhattanProperties(a: Cell, b: Cell, g: Cell)
    ensures Manhattan(a, b) == Manhattan(b, a)
    ensures Manhattan(a, b) == 0 <==> a == b
    ensures Adjacent(a, b) ==> Manhattan(a, g) <= Manhattan(b, g) + 1
  {
  }

  /** Along a route, the heuristic at position `i` never exceeds the number of
      steps left plus the heuristic at the route's end. */
  lemma {:induction false} ManhattanAlongRoute(w: seq<Cell>, i: nat, g: Cell)
    requires i < |w|
    requires forall j :: 0 <= j < |w| - 1 ==> Adjacent(w[j], w[j + 1])
    ensures Manhattan(w[i], g) <= (|w| - 1 - i) + Manhattan(w[|w| - 1], g)
    decreases |w| - i
  {
    if i < |w| - 1 {
      ManhattanAlongRoute(w, i + 1, g);
      ManhattanProperties(w[i], w[i + 1], g);
    }
  }

  lemma RouteExtend(img: Image, start: Cell, c: Cell, w: seq<Cell>, d: Cell)
    requires IsRoute(img, start, c, w) && Adjacent(c, d) && IsOpen(img, d)
    ensures IsRoute(img, start, d, w + [d])
  {
  }

  lemma RoutePrefix(img: Image, start: Cell, c: Cell, w: seq<Cell>, i: nat)
    requires IsRoute(img, start, c, w) && i < |w|
    ensures IsRoute(img, start, w[i], w[..i + 1])
  {
  }

  /** A set that holds `start` and every open neighbour of each of its members
      holds the end of every route from `start`. */
  lemma {:induction false} ClosedSetHoldsRoute(img: Image, start: Cell, s: set<Cell>, c: Cell, w: seq<Cell>)
    requires start in s
    requires forall x, k :: x in s && 0 <= k < |DIRECTIONS| && IsOpen(img, Step(x, k)) ==> Step(x, k) in s
    requires IsRoute(img, start, c, w)
    ensures c in s
    decreases |w|
  {
    if |w| > 1 {
      var p := w[|w| - 2];
      RoutePrefix(img, start, c, w, |w| - 2);
      ClosedSetHoldsRoute(img, start, s, p, w[..|w| - 1]);
      var k := DirectionTo(p, c);
    }
  }

  /** Concatenation regroups freely. */
  lemma ConcatAssoc<T>(a: seq<T>, b: seq<T>, c: seq<T>)
    ensures a + b + c == a + (b + c)
  {
  }

  lemma NoDupConcat<T>(a: seq<T>, b: seq<T>)
    requires NoDup(a) && NoDup(b) && forall x :: x in a ==> x !in b
    ensures NoDup(a + b)
  {
    forall i, j | 0 <= i < j < |a + b|
      ensures (a + b)[i] != (a + b)[j]
    {
      if j < |a| {
      } else if i < |a| {
        assert (a + b)[j] in b;
      }
    }
  }

  lemma NoDupParts<T>(a: seq<T>, b: seq<T>)
    requires NoDup(a + b)
    ensures NoDup(a) && NoDup(b) && forall x :: x in a ==> x !in b
  {
    forall i, j | 0 <= i < j < |a|
      ensures a[i] != a[j]
    {
      assert (a + b)[i] == a[i] && (a + b)[j] == a[j];
    }
    forall i, j | 0 <= i < j < |b|
      ensures b[i] != b[j]
    {
      assert (a + b)[|a| + i] == b[i] && (a + b)[|a| + j] == b[j];
    }
    forall x | x in a
      ensures x !in b
    {
      var i :| 0 <= i < |a| && a[i] == x;
      if j :| 0 <= j < |b| && b[j] == x {
        assert (a + b)[i] == (a + b)[|a| + j];
      }
    }
  }
}
