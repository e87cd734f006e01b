/** The circular maze generator (`PolarMaze`): cells are `(ring, sector)`
    pairs, ring 0 at the centre and ring `rings - 1` on the rim; sectors wrap
    around. Each cell owns two walls, its bottom wall (towards the centre)
    and its right wall (towards the next sector clockwise). `generate` carves
    a spanning tree by a randomized depth-first backtracker from the entry
    cell on the rim; `verify_path` searches breadth-first through open walls
    for a ring-0 cell.

    Besides the two arrays the class keeps, as ghost state, the set of open
    wall slots and the set of visited cells; `Valid` ties each to its array.
    The search and carving arguments are stated over these sets. */
module CreateMaze {

  /** A cell `(ring, sector)`. */
  datatype PCell = PCell(ring: int, sector: int)

  /** A wall slot `walls[ring, sector, side]`. */
  datatype Slot = Slot(ring: int, sector: int, side: int)

  /** Index of the bottom wall and of the right wall in a cell's pair. */
  const BOTTOM: int := 0
  const RIGHT: int := 1

  /** The four moves of `get_neighbors`. */
  datatype Dir = In | Out | Cw | Ccw

  /** A `(direction, ring, sector)` triple of `get_neighbors`. */
  datatype Neighbor = Neighbor(dir: Dir, cell: PCell)

  /** The cells behind the open sides of `cur`, in the order `verify_path`
      checks them: inward, outward, clockwise, counter-clockwise. */
  function OpenTargets(cur: PCell, sectors: nat, inOpen: bool, outOpen: bool, cwOpen: bool, ccwOpen: bool): seq<PCell>
    requires sectors > 0
  {
    (if inOpen then [PCell(cur.ring - 1, cur.sector)] else [])
    + (if outOpen then [PCell(cur.ring + 1, cur.sector)] else [])
    + (if cwOpen then [PCell(cur.ring, (cur.sector + 1) % sectors)] else [])
    + (if ccwOpen then [PCell(cur.ring, (cur.sector - 1) % sectors)] else [])
  }

  /** One step counter-clockwise and then one clockwise returns to the
      sector it started from, across the wrap at sector 0 too. */
  lemma CcwThenCw(c: int, n: int)
    requires 0 <= c < n
    ensures ((c - 1) % n + 1) % n == c
  {
    if c == 0 {
      assert (c - 1) % n == n - 1;
    } else {
      assert (c - 1) % n == c - 1;
    }
  }

  /** What a run of "queue it unless already found" over `t` appends: the
      cells of `t` outside `found`, each at its first occurrence. */
  function Fresh(found: set<PCell>, t: seq<PCell>): seq<PCell>
  {
    if t == [] then []
    else
      var y := t[|t| - 1];
      Fresh(found, t[..|t| - 1]) + (if y in found || y in t[..|t| - 1] then [] else [y])
  }

  /** Offering one more cell appends it exactly when it is new. */
  lemma FreshSnoc(found: set<PCell>, t: seq<PCell>, y: PCell)
    ensures Fresh(found, t + [y]) == Fresh(found, t) + (if y in found || y in t then [] else [y])
  {
    assert (t + [y])[..|t|] == t;
  }

  /** The appended cells are exactly the offered cells not found before, and
      none is appended twice. */
  lemma {:induction false} FreshElems(found: set<PCell>, t: seq<PCell>)
    ensures forall x :: x in Fresh(found, t) <==> x in t && x !in found
    ensures forall i, j :: 0 <= i < j < |Fresh(found, t)| ==> Fresh(found, t)[i] != Fresh(found, t)[j]
  {
    if t != [] {
      var s, y := t[..|t| - 1], t[|t| - 1];
      FreshElems(found, s);
      assert t == s + [y];
      FreshSnoc(found, s, y);
    }
  }

  class PolarMaze {
    const rings: nat
    const sectors: nat
    const entrySector: int
    /** `walls[r, c, BOTTOM]` and `walls[r, c, RIGHT]`: 1 for a wall, 0 for
        an opening. */
    const walls: array3<int>
    const visited: array2<bool>

    /** The slots whose wall is open. */
    ghost var openSlots: set<Slot>
    /** The cells marked visited. */
    ghost var seen: set<PCell>

    predicate InRange(x: PCell) {
      0 <= x.ring < rings && 0 <= x.sector < sectors
    }

    /** Every cell of the maze. */
    function Cells(): set<PCell> {
      set r, c | 0 <= r < rings && 0 <= c < sectors :: PCell(r, c)
    }

    /** The entry cell on the rim. */
    function Entry(): PCell {
      PCell(rings - 1, entrySector)
    }

    /** The open-wall array and the visited array agree with the ghost sets,
        and the entry sector lies on the rim. */
    ghost predicate Valid()
      reads this, walls, visited
    {
      && rings >= 1 && sectors >= 1 && 0 <= entrySector < sectors
      && walls.Length0 == rings && walls.Length1 == sectors && walls.Length2 == 2
      && visited.Length0 == rings && visited.Length1 == sectors
      && (forall r, c, k :: 0 <= r < rings && 0 <= c < sectors && 0 <= k < 2 ==>
            && (walls[r, c, k] == 0 || walls[r, c, k] == 1)
            && (walls[r, c, k] == 0 <==> Slot(r, c, k) in openSlots))
      && (forall s :: s in openSlots ==> 0 <= s.ring < rings && 0 <= s.sector < sectors && 0 <= s.side < 2)
      && (forall r, c :: 0 <= r < rings && 0 <= c < sectors ==> (visited[r, c] <==> PCell(r, c) in seen))
      && seen <= Cells()
    }

    /** `__init__`: every wall standing, no cell visited. `PolarMaze.__init__`
        draws the entry sector with `random.randint`; here it is a
        parameter. */
    constructor (rings: nat, sectors: nat, entrySector: int)
      requires rings >= 1 && sectors >= 1 && 0 <= entrySector < sectors
      ensures Valid()
      ensures this.rings == rings && this.sectors == sectors && this.entrySector == entrySector
      ensures openSlots == {} && seen == {}
      ensures fresh(walls) && fresh(visited)
    {
      this.rings := rings;
      this.sectors := sectors;
      this.entrySector := entrySector;
      walls := new int[rings, sectors, 2]((r, c, k) => 1);
      visited := new bool[rings, sectors]((r, c) => false);
      openSlots := {};
      seen := {};
    }

    // ----- get_neighbors -----

    /** `get_neighbors(r, c)`: inward when `r > 0`, outward when
        `r < rings - 1`, then clockwise and counter-clockwise with the sector
        taken modulo `sectors`. */
    function GetNeighbors(r: int, c: int): seq<Neighbor>
      requires sectors > 0
    {
      (if r > 0 then [Neighbor(In, PCell(r - 1, c))] else [])
      + (if r < rings - 1 then [Neighbor(Out, PCell(r + 1, c))] else [])
      + [Neighbor(Cw, PCell(r, (c + 1) % sectors)), Neighbor(Ccw, PCell(r, (c - 1) % sectors))]
    }

    /** The neighbour lists: an inward move exactly when `r > 0`, an outward
        one exactly when `r < rings - 1`, clockwise and counter-clockwise
        always and last in that order, every target inside the maze, and
        each move's target where its direction says. */
    lemma NeighborsShape(r: int, c: int)
      requires sectors > 0 && InRange(PCell(r, c))
      ensures (exists i :: 0 <= i < |GetNeighbors(r, c)| && GetNeighbors(r, c)[i].dir == In) <==> r > 0
      ensures (exists i :: 0 <= i < |GetNeighbors(r, c)| && GetNeighbors(r, c)[i].dir == Out) <==> r < rings - 1
      ensures |GetNeighbors(r, c)| >= 2
      ensures GetNeighbors(r, c)[|GetNeighbors(r, c)| - 2] == Neighbor(Cw, PCell(r, (c + 1) % sectors))
      ensures GetNeighbors(r, c)[|GetNeighbors(r, c)| - 1] == Neighbor(Ccw, PCell(r, (c - 1) % sectors))
      ensures forall nb :: nb in GetNeighbors(r, c) <==> Move(PCell(r, c), nb)
      ensures forall nb :: nb in GetNeighbors(r, c) ==> InRange(nb.cell)
    {
      var ns := GetNeighbors(r, c);
      if r > 0 {
        assert ns[0].dir == In;
      }
      if r < rings - 1 {
        assert ns[if r > 0 then 1 else 0].dir == Out;
      }
    }

    /** `nb` is a move out of `a`: inwards off ring 0, outwards off the rim,
        and around the ring either way, each to the cell its direction
        names. */
    predicate Move(a: PCell, nb: Neighbor)
      requires sectors > 0
    {
      match nb.dir
      case In => a.ring > 0 && nb.cell == PCell(a.ring - 1, a.sector)
      case Out => a.ring < rings - 1 && nb.cell == PCell(a.ring + 1, a.sector)
      case Cw => nb.cell == PCell(a.ring, (a.sector + 1) % sectors)
      case Ccw => nb.cell == PCell(a.ring, (a.sector - 1) % sectors)
    }

    // ----- walls and passages -----

    /** The wall `generate` knocks down to move from `a` to `nb`: `a`'s own
        bottom or right wall inwards or clockwise, the neighbour's outwards or
        counter-clockwise. */
    function WallFor(a: PCell, nb: Neighbor): Slot {
      match nb.dir
      case In => Slot(a.ring, a.sector, BOTTOM)
      case Out => Slot(nb.cell.ring, nb.cell.sector, BOTTOM)
      case Cw => Slot(a.ring, a.sector, RIGHT)
      case Ccw => Slot(nb.cell.ring, nb.cell.sector, RIGHT)
    }

    /** The moves `verify_path` takes from `a` when the walls in `open` are
        open. */
    predicate Linked(open: set<Slot>, a: PCell, b: PCell)
      requires sectors > 0
    {
      || (a.ring > 0 && Slot(a.ring, a.sector, BOTTOM) in open && b == PCell(a.ring - 1, a.sector))
      || (a.ring < rings - 1 && Slot(a.ring + 1, a.sector, BOTTOM) in open && b == PCell(a.ring + 1, a.sector))
      || (Slot(a.ring, a.sector, RIGHT) in open && b == PCell(a.ring, (a.sector + 1) % sectors))
      || (Slot(a.ring, (a.sector - 1) % sectors, RIGHT) in open && b == PCell(a.ring, (a.sector - 1) % sectors))
    }

    /** The wall `generate` opens for a move is the one `verify_path` checks
        for it: after knocking it down the move is a passage. */
    lemma KnockOpens(open: set<Slot>, a: PCell, nb: Neighbor)
      requires sectors > 0 && Move(a, nb)
      ensures Linked(open + {WallFor(a, nb)}, a, nb.cell)
    {
    }

    /** `w` is a walk through open walls starting at the entry. */
    ghost predicate OpenRoute(open: set<Slot>, w: seq<PCell>)
      requires sectors > 0
    {
      && |w| >= 1 && w[0] == Entry()
      && forall i, j {:trigger w[i], w[j]} :: 0 <= i && j == i + 1 < |w| ==> Linked(open, w[i], w[j])
    }

    ghost predicate Reachable(open: set<Slot>, x: PCell)
      requires sectors > 0
    {
      exists w :: OpenRoute(open, w) && w[|w| - 1] == x
    }

    /** Opening more walls keeps every cell reachable. */
    lemma ReachGrow(open: set<Slot>, open': set<Slot>, x: PCell)
      requires sectors > 0 && open <= open' && Reachable(open, x)
      ensures Reachable(open', x)
    {
      var w :| OpenRoute(open, w) && w[|w| - 1] == x;
      assert OpenRoute(open', w);
    }

    lemma ReachStep(open: set<Slot>, a: PCell, b: PCell)
      requires sectors > 0 && Reachable(open, a) && Linked(open, a, b)
      ensures Reachable(open, b)
    {
      var w :| OpenRoute(open, w) && w[|w| - 1] == a;
      assert OpenRoute(open, w + [b]);
    }

    lemma EntryReachable(open: set<Slot>)
      requires sectors > 0
      ensures Reachable(open, Entry())
    {
      assert OpenRoute(open, [Entry()]);
    }

    /** A set holding the entry and closed under passages holds every
        reachable cell. */
    lemma {:induction false} ClosedHoldsReach(open: set<Slot>, s: set<PCell>, w: seq<PCell>)
      requires sectors > 0 && Entry() in s
      requires forall a, b :: a in s && Linked(open, a, b) ==> b in s
      requires OpenRoute(open, w)
      ensures w[|w| - 1] in s
      decreases |w|
    {
      if |w| > 1 {
        var v := w[..|w| - 1];
        assert OpenRoute(open, v);
        ClosedHoldsReach(open, s, v);
        assert Linked(open, w[|w| - 2], w[|w| - 1]);
      }
    }

    // ----- connectivity of the cell graph -----

    /** `s` holds the neighbours of each of its cells. */
    ghost predicate NeighborClosed(s: set<PCell>)
      requires sectors > 0
    {
      forall x, nb :: x in s && Move(x, nb) ==> nb.cell in s
    }

    /** A neighbour-closed set holding `x` holds its clockwise neighbour. */
    lemma CwClosed(s: set<PCell>, x: PCell)
      requires sectors > 0 && NeighborClosed(s) && x in s
      ensures PCell(x.ring, (x.sector + 1) % sectors) in s
    {
      assert Move(x, Neighbor(Cw, PCell(x.ring, (x.sector + 1) % sectors)));
    }

    lemma {:induction false} RimFrom(s: set<PCell>, c: int)
      requires sectors > 0 && NeighborClosed(s)
      requires 0 <= entrySector <= c < sectors && Entry() in s
      ensures PCell(rings - 1, c) in s
      decreases c
    {
      if c > entrySector {
        RimFrom(s, c - 1);
        CwClosed(s, PCell(rings - 1, c - 1));
        assert (c - 1 + 1) % sectors == c;
      }
    }

    lemma {:induction false} RimWrap(s: set<PCell>, c: int)
      requires sectors > 0 && NeighborClosed(s)
      requires 0 <= c <= entrySector < sectors && Entry() in s
      ensures PCell(rings - 1, c) in s
      decreases c
    {
      if c == 0 {
        RimFrom(s, sectors - 1);
        CwClosed(s, PCell(rings - 1, sectors - 1));
        assert (sectors - 1 + 1) % sectors == 0;
      } else {
        RimWrap(s, c - 1);
        CwClosed(s, PCell(rings - 1, c - 1));
        assert (c - 1 + 1) % sectors == c;
      }
    }

    lemma {:induction false} RingsInward(s: set<PCell>, r: int, c: int)
      requires sectors > 0 && NeighborClosed(s) && rings >= 1
      requires 0 <= r < rings && 0 <= c < sectors && 0 <= entrySector < sectors && Entry() in s
      ensures PCell(r, c) in s
      decreases rings - r
    {
      if r == rings - 1 {
        if c >= entrySector {
          RimFrom(s, c);
        } else {
          RimWrap(s, c);
        }
      } else {
        RingsInward(s, r + 1, c);
        assert Move(PCell(r + 1, c), Neighbor(In, PCell(r, c)));
      }
    }

    /** The cell graph of `get_neighbors` is connected: a set closed under
        neighbours that holds the entry holds every cell. */
    lemma NeighborClosedIsAll(s: set<PCell>)
      requires sectors > 0 && rings >= 1 && 0 <= entrySector < sectors
      requires NeighborClosed(s) && Entry() in s
      ensures Cells() <= s
    {
      forall x | x in Cells()
        ensures x in s
      {
        RingsInward(s, x.ring, x.sector);
      }
    }

    // ----- generate -----

    /** The open slot `s` lies between two cells of `seen`. */
    ghost predicate JoinsSeen(s: Slot, seen: set<PCell>)
      requires sectors > 0
    {
      && PCell(s.ring, s.sector) in seen
      && (if s.side == BOTTOM then PCell(s.ring - 1, s.sector) else PCell(s.ring, (s.sector + 1) % sectors)) in seen
    }

    /** Every cell of `cells` is reachable from the entry through `open`. */
    ghost predicate AllReachable(open: set<Slot>, cells: set<PCell>)
      requires sectors > 0
    {
      forall x :: x in cells ==> Reachable(open, x)
    }

    /** The stack holds distinct cells of `seen`. */
    ghost predicate StackOK(seen: set<PCell>, stack: seq<PCell>) {
      && (forall i :: 0 <= i < |stack| ==> stack[i] in seen)
      && (forall i, j :: 0 <= i < j < |stack| ==> stack[i] != stack[j])
    }

    /** A newly visited cell, or the entry, that has left the stack has no
        unvisited neighbour. */
    ghost predicate ClosedBehind(seen0: set<PCell>, seen: set<PCell>, stack: seq<PCell>)
      requires sectors > 0
    {
      forall x, nb :: x in seen && (x !in seen0 || x == Entry()) && x !in stack && Move(x, nb) ==> nb.cell in seen
    }

    /** Every passage joins two visited cells, and there is one passage fewer
        than visited cells. */
    ghost predicate TreeCount(seen: set<PCell>, open: set<Slot>)
      requires sectors > 0
    {
      |open| + 1 == |seen| && forall s :: s in open ==> JoinsSeen(s, seen)
    }

    /** The state of the backtracker, over the visited cells `seen`, the open
        slots `open` and the stack, given the sets `seen0` and `open0` it
        started from: every stacked or newly visited cell is reachable from
        the entry, the stack holds distinct visited cells, and a newly
        visited cell (or the entry) that has left the stack has no unvisited
        neighbour. On a fresh maze the passages also keep `TreeCount`. */
    ghost predicate DfsInv(seen0: set<PCell>, open0: set<Slot>, seen: set<PCell>, open: set<Slot>, stack: seq<PCell>)
      requires sectors > 0
    {
      && Entry() in seen && seen <= Cells()
      && StackOK(seen, stack)
      && AllReachable(open, set x | x in stack)
      && AllReachable(open, seen - seen0)
      && ClosedBehind(seen0, seen, stack)
      && (seen0 == {} && open0 == {} ==> TreeCount(seen, open))
    }

    lemma DfsStart(seen0: set<PCell>, open0: set<Slot>, seen: set<PCell>)
      requires sectors > 0 && rings >= 1 && 0 <= entrySector < sectors
      requires seen0 <= Cells() && seen == seen0 + {Entry()}
      ensures DfsInv(seen0, open0, seen, open0, [Entry()])
    {
      EntryReachable(open0);
      assert Entry() in Cells();
    }

    /** The knocked wall lies between the current cell and the chosen
        neighbour. */
    lemma WallJoins(a: PCell, nb: Neighbor, seen: set<PCell>)
      requires sectors > 0 && InRange(a) && Move(a, nb)
      requires a in seen && nb.cell in seen
      ensures JoinsSeen(WallFor(a, nb), seen)
    {
      if nb.dir == Ccw {
        CcwThenCw(a.sector, sectors);
      }
    }

    /** A wall with an unvisited end is not yet open. */
    lemma WallNotOpen(a: PCell, nb: Neighbor, seen: set<PCell>, open: set<Slot>)
      requires sectors > 0 && InRange(a) && Move(a, nb)
      requires nb.cell !in seen && forall s :: s in open ==> JoinsSeen(s, seen)
      ensures WallFor(a, nb) !in open
    {
      if WallFor(a, nb) in open {
        WallJoins(a, nb, seen);
      }
    }

    /** Opening a wall keeps every reachable cell reachable and makes the
        cell behind it reachable. */
    lemma PushReach(open: set<Slot>, cells: set<PCell>, top: PCell, nb: Neighbor, open': set<Slot>)
      requires sectors > 0 && AllReachable(open, cells) && top in cells && Move(top, nb)
      requires open' == open + {WallFor(top, nb)}
      ensures AllReachable(open', cells + {nb.cell})
    {
      KnockOpens(open, top, nb);
      forall x | x in cells
        ensures Reachable(open', x)
      {
        ReachGrow(open, open', x);
      }
      ReachStep(open', top, nb.cell);
    }

    lemma PushTree(seen: set<PCell>, open: set<Slot>, top: PCell, nb: Neighbor)
      requires sectors > 0 && TreeCount(seen, open) && InRange(top) && top in seen
      requires Move(top, nb) && nb.cell !in seen
      ensures TreeCount(seen + {nb.cell}, open + {WallFor(top, nb)})
    {
      WallNotOpen(top, nb, seen, open);
      forall s | s in open + {WallFor(top, nb)}
        ensures JoinsSeen(s, seen + {nb.cell})
      {
        if s == WallFor(top, nb) {
          WallJoins(top, nb, seen + {nb.cell});
        }
      }
    }

    /** Moving to an unvisited neighbour through the knocked wall keeps the
        backtracker's state. */
    lemma DfsPush(seen0: set<PCell>, open0: set<Slot>, seen: set<PCell>, open: set<Slot>, stack: seq<PCell>,
                  top: PCell, nb: Neighbor, seen': set<PCell>, open': set<Slot>, stack': seq<PCell>)
      requires sectors > 0 && DfsInv(seen0, open0, seen, open, stack) && |stack| > 0
      requires top == stack[|stack| - 1] && Move(top, nb) && nb.cell !in seen
      requires InRange(top) && InRange(nb.cell)
      requires seen' == seen + {nb.cell} && open' == open + {WallFor(top, nb)} && stack' == stack + [nb.cell]
      ensures DfsInv(seen0, open0, seen', open', stack')
    {
      PushStack(seen0, seen, stack, nb.cell, seen', stack');
      PushPassage(seen0, open0, seen, open, stack, top, nb, seen', open', stack');
    }

    /** Pushing an unvisited cell keeps the stack repeat-free and visited,
        and every visited cell off the stack still has no unvisited
        neighbour. */
    lemma PushStack(seen0: set<PCell>, seen: set<PCell>, stack: seq<PCell>, y: PCell, seen': set<PCell>, stack': seq<PCell>)
      requires sectors > 0 && Entry() in seen && seen <= Cells()
      requires StackOK(seen, stack) && ClosedBehind(seen0, seen, stack)
      requires y !in seen && InRange(y)
      requires seen' == seen + {y} && stack' == stack + [y]
      ensures Entry() in seen' && seen' <= Cells()
      ensures StackOK(seen', stack') && ClosedBehind(seen0, seen', stack')
    {
      assert y in Cells();
    }

    /** Opening the wall to the pushed cell keeps the stack and the newly
        visited cells reachable, and on a fresh maze keeps one passage fewer
        than visited cells. */
    lemma PushPassage(seen0: set<PCell>, open0: set<Slot>, seen: set<PCell>, open: set<Slot>, stack: seq<PCell>,
                      top: PCell, nb: Neighbor, seen': set<PCell>, open': set<Slot>, stack': seq<PCell>)
      requires sectors > 0 && DfsInv(seen0, open0, seen, open, stack) && |stack| > 0
      requires top == stack[|stack| - 1] && Move(top, nb) && nb.cell !in seen
      requires InRange(top) && InRange(nb.cell)
      requires seen' == seen + {nb.cell} && open' == open + {WallFor(top, nb)} && stack' == stack + [nb.cell]
      ensures AllReachable(open', set x | x in stack') && AllReachable(open', seen' - seen0)
      ensures seen0 == {} && open0 == {} ==> TreeCount(seen', open')
    {
      var onStack := set x | x in stack;
      var cells := (seen - seen0) + onStack;
      assert top in onStack;
      PushReach(open, cells, top, nb, open');
      assert (set x | x in stack') <= cells + {nb.cell};
      assert seen' - seen0 <= cells + {nb.cell};
      if seen0 == {} && open0 == {} {
        PushTree(seen, open, top, nb);
      }
    }

    /** Leaving a cell with no unvisited neighbour keeps the backtracker's
        state. */
    lemma DfsPop(seen0: set<PCell>, open0: set<Slot>, seen: set<PCell>, open: set<Slot>, stack: seq<PCell>, stack': seq<PCell>)
      requires sectors > 0 && DfsInv(seen0, open0, seen, open, stack) && |stack| > 0
      requires forall nb :: Move(stack[|stack| - 1], nb) ==> nb.cell in seen
      requires stack' == stack[..|stack| - 1]
      ensures DfsInv(seen0, open0, seen, open, stack')
    {
      forall x | x in stack && x !in stack'
        ensures x == stack[|stack| - 1]
      {
      }
    }

    /** With the stack empty, a backtracker run from a fresh maze has visited
        every cell and can reach each one from the entry. */
    lemma DfsEnd(open0: set<Slot>, seen: set<PCell>, open: set<Slot>)
      requires sectors > 0 && rings >= 1 && 0 <= entrySector < sectors
      requires DfsInv({}, open0, seen, open, [])
      ensures seen == Cells()
      ensures open0 == {} ==> |open| + 1 == |Cells()|
      ensures forall x :: x in Cells() ==> Reachable(open, x)
    {
      assert ClosedBehind({}, seen, []);
      NeighborClosedIsAll(seen);
    }

    /** `visited[x] = True`. */
    method MarkVisited(x: PCell)
      requires Valid() && InRange(x)
      modifies this, visited
      ensures Valid()
      ensures seen == old(seen) + {x} && openSlots == old(openSlots)
    {
      visited[x.ring, x.sector] := true;
      seen := seen + {x};
    }

    /** Knocks down the wall `WallFor(a, nb)`, as the four branches of
        `generate` do. */
    method Knock(a: PCell, nb: Neighbor)
      requires Valid() && InRange(a) && InRange(nb.cell) && Move(a, nb)
      modifies this, walls
      ensures Valid()
      ensures openSlots == old(openSlots) + {WallFor(a, nb)} && seen == old(seen)
    {
      var r, c, k;
      match nb.dir {
        case In => r, c, k := a.ring, a.sector, BOTTOM;
        case Out => r, c, k := nb.cell.ring, nb.cell.sector, BOTTOM;
        case Cw => r, c, k := a.ring, a.sector, RIGHT;
        case Ccw => r, c, k := nb.cell.ring, nb.cell.sector, RIGHT;
      }
      assert Slot(r, c, k) == WallFor(a, nb);
      walls[r, c, k] := 0;
      openSlots := openSlots + {Slot(r, c, k)};
    }

    /** The `unvisited` filter of `generate`: the neighbours whose cell is
        not yet visited. */
    method Unvisited(neighbors: seq<Neighbor>) returns (unvisited: seq<Neighbor>)
      requires Valid() && forall nb :: nb in neighbors ==> InRange(nb.cell)
      ensures forall nb :: nb in unvisited <==> nb in neighbors && nb.cell !in seen
      ensures |unvisited| <= |neighbors|
    {
      unvisited := [];
      var i := 0;
      while i < |neighbors|
        invariant 0 <= i <= |neighbors| && |unvisited| <= i
        invariant forall nb :: nb in unvisited <==> nb in neighbors[..i] && nb.cell !in seen
      {
        var nb := neighbors[i];
        assert neighbors[..i + 1] == neighbors[..i] + [nb];
        if !visited[nb.cell.ring, nb.cell.sector] {
          unvisited := unvisited + [nb];
        }
        i := i + 1;
      }
      assert neighbors[..i] == neighbors;
    }

    /** `generate`: the recursive backtracker from the entry cell, with
        `random.choice` as an arbitrary choice among the unvisited
        neighbours. Walls only come down and cells only become visited;
        every newly visited cell is reachable from the entry through open
        walls. On a fresh maze every cell ends up visited and reachable, with
        exactly one open wall fewer than there are cells: the passages form a
        spanning tree, a perfect maze. */
    method Generate()
      requires Valid()
      modifies this, walls, visited
      ensures Valid()
      ensures old(openSlots) <= openSlots && old(seen) <= seen && Entry() in seen
      ensures forall x :: x in seen && x !in old(seen) ==> Reachable(openSlots, x)
      ensures old(seen) == {} ==> seen == Cells() && forall x :: x in Cells() ==> Reachable(openSlots, x)
      ensures old(seen) == {} && old(openSlots) == {} ==> |openSlots| + 1 == |Cells()|
    {
      ghost var seen0, open0 := seen, openSlots;
      var stack := [Entry()];
      MarkVisited(Entry());
      DfsStart(seen0, open0, seen);
      while |stack| > 0
        invariant Valid()
        invariant open0 <= openSlots && seen0 <= seen
        invariant DfsInv(seen0, open0, seen, openSlots, stack)
        decreases Cells() - seen, |stack|
      {
        var top := stack[|stack| - 1];
        NeighborsShape(top.ring, top.sector);
        var neighbors := GetNeighbors(top.ring, top.sector);
        var unvisited := Unvisited(neighbors);
        if |unvisited| > 0 {
          assert unvisited[0] in unvisited;
          var nb :| nb in unvisited;
          ghost var open1, seen1 := openSlots, seen;
          Knock(top, nb);
          MarkVisited(nb.cell);
          DfsPush(seen0, open0, seen1, open1, stack, top, nb, seen, openSlots, stack + [nb.cell]);
          stack := stack + [nb.cell];
        } else {
          DfsPop(seen0, open0, seen, openSlots, stack, stack[..|stack| - 1]);
          stack := stack[..|stack| - 1];
        }
      }
      if seen0 == {} {
        DfsEnd(open0, seen, openSlots);
      }
    }

    // ----- verify_path -----

    /** A passage from a cell inside the maze leads to a cell inside it. */
    lemma LinkedInRange(open: set<Slot>, a: PCell, b: PCell)
      requires sectors > 0 && InRange(a) && Linked(open, a, b)
      ensures InRange(b)
    {
    }

    /** The search frontier: the entry and every discovered cell are
        reachable cells of the maze, and the queue holds distinct discovered
        cells. */
    ghost predicate QueueInv(open: set<Slot>, queue: seq<PCell>, found: set<PCell>)
      requires sectors > 0
    {
      && Entry() in found && found <= Cells()
      && AllReachable(open, found)
      && StackOK(found, queue)
    }

    /** Every discovered cell that has left the queue, other than those in
        `skip`, is off ring 0 and has all its passages leading to
        discovered cells. */
    ghost predicate Expanded(open: set<Slot>, queue: seq<PCell>, found: set<PCell>, skip: set<PCell>)
      requires sectors > 0
    {
      forall x :: x in found && x !in queue && x !in skip ==>
        x.ring != 0 && forall y :: Linked(open, x, y) ==> y in found
    }

    /** Taking the head off the queue leaves it the one cell still to
        expand. */
    lemma TakeHead(open: set<Slot>, queue: seq<PCell>, found: set<PCell>)
      requires sectors > 0 && QueueInv(open, queue, found) && Expanded(open, queue, found, {}) && |queue| > 0
      ensures QueueInv(open, queue[1..], found) && Expanded(open, queue[1..], found, {queue[0]})
      ensures queue[0] !in queue[1..]
    {
      forall x | x in queue && x !in queue[1..]
        ensures x == queue[0]
      {
      }
    }

    /** Discovering a cell behind a passage of `cur`. */
    lemma Discover(open: set<Slot>, queue: seq<PCell>, found: set<PCell>, cur: PCell, y: PCell)
      requires sectors > 0 && QueueInv(open, queue, found) && Expanded(open, queue, found, {cur})
      requires cur in found && InRange(cur) && Linked(open, cur, y) && y !in found
      ensures QueueInv(open, queue + [y], found + {y}) && Expanded(open, queue + [y], found + {y}, {cur})
    {
      LinkedInRange(open, cur, y);
      ReachStep(open, cur, y);
    }

    /** An exhausted search has discovered every reachable cell, and none is
        on ring 0. */
    lemma SearchEnd(open: set<Slot>, found: set<PCell>)
      requires sectors > 0 && QueueInv(open, [], found) && Expanded(open, [], found, {})
      ensures forall x :: Reachable(open, x) ==> x.ring != 0
    {
      forall x | Reachable(open, x)
        ensures x.ring != 0
      {
        var w :| OpenRoute(open, w) && w[|w| - 1] == x;
        ClosedHoldsReach(open, found, w);
      }
    }

    /** Offering the cells of `t` in turn took the search from `queue` and
        `found` to `queue'` and `found'`: the new cells of `t` were appended in
        order, and what is found now is what was found before and `t`. */
    ghost predicate Offered(queue: seq<PCell>, found: set<PCell>, t: seq<PCell>, queue': seq<PCell>, found': set<PCell>)
    {
      && queue' == queue + Fresh(found, t)
      && forall x :: x in found' <==> x in found || x in t
    }

    /** One more offer keeps `Offered`. */
    lemma OfferStep(queue: seq<PCell>, found: set<PCell>, t: seq<PCell>, y: PCell,
                    q0: seq<PCell>, f0: set<PCell>, q1: seq<PCell>, f1: set<PCell>)
      requires Offered(queue, found, t, q0, f0)
      requires f1 == f0 + {y} && (y in f0 ==> q1 == q0) && (y !in f0 ==> q1 == q0 + [y])
      ensures Offered(queue, found, t + [y], q1, f1)
    {
      FreshSnoc(found, t, y);
    }

    /** Offers only add to the found set, and a round of offers that finds
        nothing new leaves the queue as it was. */
    lemma OfferedGrows(queue: seq<PCell>, found: set<PCell>, t: seq<PCell>, queue': seq<PCell>, found': set<PCell>)
      requires Offered(queue, found, t, queue', found')
      ensures found <= found' && (found' == found ==> queue' == queue)
    {
      FreshElems(found, t);
      assert Fresh(found, t) != [] ==> Fresh(found, t)[0] in t;
    }

    /** With the four flags read from the walls, the far cells of the open
        sides are exactly the cells one passage away from `cur`. */
    lemma TargetsLinked(open: set<Slot>, cur: PCell, inOpen: bool, outOpen: bool, cwOpen: bool, ccwOpen: bool)
      requires sectors > 0
      requires inOpen <==> cur.ring > 0 && Slot(cur.ring, cur.sector, BOTTOM) in open
      requires outOpen <==> cur.ring < rings - 1 && Slot(cur.ring + 1, cur.sector, BOTTOM) in open
      requires cwOpen <==> Slot(cur.ring, cur.sector, RIGHT) in open
      requires ccwOpen <==> Slot(cur.ring, (cur.sector - 1) % sectors, RIGHT) in open
      ensures forall y :: y in OpenTargets(cur, sectors, inOpen, outOpen, cwOpen, ccwOpen) <==> Linked(open, cur, y)
    {
    }

    /** Discovering, in turn, cells one passage away from `cur` keeps the
        search invariant. */
    lemma {:induction false} DiscoverAll(open: set<Slot>, queue: seq<PCell>, found: set<PCell>, cur: PCell,
                                         t: seq<PCell>, queue': seq<PCell>, found': set<PCell>)
      requires sectors > 0 && InRange(cur) && cur in found
      requires QueueInv(open, queue, found) && Expanded(open, queue, found, {cur})
      requires forall y :: y in t ==> Linked(open, cur, y)
      requires Offered(queue, found, t, queue', found')
      ensures QueueInv(open, queue', found') && Expanded(open, queue', found', {cur})
      decreases |t|
    {
      if t == [] {
        assert found' == found;
        assert queue' == queue + [];
      } else {
        var s, y := t[..|t| - 1], t[|t| - 1];
        assert t == s + [y];
        var f1 := found + (set x | x in s);
        var q1 := queue + Fresh(found, s);
        DiscoverAll(open, queue, found, cur, s, q1, f1);
        DiscoverNext(open, queue, found, cur, s, y, q1, f1, queue', found');
      }
    }

    /** The step of `DiscoverAll`: one more cell offered. */
    lemma DiscoverNext(open: set<Slot>, queue: seq<PCell>, found: set<PCell>, cur: PCell, s: seq<PCell>, y: PCell,
                       q1: seq<PCell>, f1: set<PCell>, queue': seq<PCell>, found': set<PCell>)
      requires sectors > 0 && InRange(cur) && cur in f1 && Linked(open, cur, y)
      requires QueueInv(open, q1, f1) && Expanded(open, q1, f1, {cur})
      requires Offered(queue, found, s, q1, f1) && Offered(queue, found, s + [y], queue', found')
      ensures QueueInv(open, queue', found') && Expanded(open, queue', found', {cur})
    {
      OfferedSnoc(queue, found, s, y, q1, f1, queue', found');
      if y !in f1 {
        Discover(open, q1, f1, cur, y);
      }
    }

    /** Offering one more cell `y` after the cells of `s` leaves the queue and
        the found set as they were when `y` was already found, and otherwise
        appends `y` to the queue and adds it to the found set. */
    lemma OfferedSnoc(queue: seq<PCell>, found: set<PCell>, s: seq<PCell>, y: PCell,
                      q1: seq<PCell>, f1: set<PCell>, queue': seq<PCell>, found': set<PCell>)
      requires Offered(queue, found, s, q1, f1) && Offered(queue, found, s + [y], queue', found')
      ensures y in f1 ==> queue' == q1 && found' == f1
      ensures y !in f1 ==> queue' == q1 + [y] && found' == f1 + {y}
    {
      FoundSnoc(found, s, y, f1, found');
      FreshSnoc(found, s, y);
      if y in f1 {
        assert Fresh(found, s + [y]) == Fresh(found, s);
      } else {
        assert queue + (Fresh(found, s) + [y]) == q1 + [y];
      }
    }

    /** The found set after offering `s + [y]` is the one after `s`, plus `y`. */
    lemma FoundSnoc(found: set<PCell>, s: seq<PCell>, y: PCell, f1: set<PCell>, found': set<PCell>)
      requires forall x :: x in f1 <==> x in found || x in s
      requires forall x :: x in found' <==> x in found || x in s + [y]
      ensures found' == f1 + {y}
      ensures y in f1 ==> found' == f1
    {
      assert forall x :: x in s + [y] <==> x in s || x == y;
    }

    /** After the four checks the popped cell `cur` is expanded: every
        passage out of it leads to a discovered cell. */
    lemma ExpandKeeps(open: set<Slot>, queue: seq<PCell>, found: set<PCell>, cur: PCell,
                      inOpen: bool, outOpen: bool, cwOpen: bool, ccwOpen: bool, queue': seq<PCell>, found': set<PCell>)
      requires sectors > 0 && InRange(cur) && cur in found && cur.ring != 0
      requires inOpen <==> cur.ring > 0 && Slot(cur.ring, cur.sector, BOTTOM) in open
      requires outOpen <==> cur.ring < rings - 1 && Slot(cur.ring + 1, cur.sector, BOTTOM) in open
      requires cwOpen <==> Slot(cur.ring, cur.sector, RIGHT) in open
      requires ccwOpen <==> Slot(cur.ring, (cur.sector - 1) % sectors, RIGHT) in open
      requires QueueInv(open, queue, found) && Expanded(open, queue, found, {cur})
      requires Offered(queue, found, OpenTargets(cur, sectors, inOpen, outOpen, cwOpen, ccwOpen), queue', found')
      ensures QueueInv(open, queue', found') && Expanded(open, queue', found', {})
    {
      var t := OpenTargets(cur, sectors, inOpen, outOpen, cwOpen, ccwOpen);
      TargetsLinked(open, cur, inOpen, outOpen, cwOpen, ccwOpen);
      DiscoverAll(open, queue, found, cur, t, queue', found');
    }

    /** The four wall tests of `verify_path` for `cur`: inwards through its
        bottom wall, outwards through the bottom wall of the cell outside
        it, clockwise through its right wall and counter-clockwise through
        the right wall of the previous sector's cell. */
    method OpenSides(cur: PCell) returns (inOpen: bool, outOpen: bool, cwOpen: bool, ccwOpen: bool)
      requires Valid() && InRange(cur)
      ensures inOpen <==> cur.ring > 0 && Slot(cur.ring, cur.sector, BOTTOM) in openSlots
      ensures outOpen <==> cur.ring < rings - 1 && Slot(cur.ring + 1, cur.sector, BOTTOM) in openSlots
      ensures cwOpen <==> Slot(cur.ring, cur.sector, RIGHT) in openSlots
      ensures ccwOpen <==> Slot(cur.ring, (cur.sector - 1) % sectors, RIGHT) in openSlots
    {
      var r, c := cur.ring, cur.sector;
      inOpen := r > 0 && walls[r, c, BOTTOM] == 0;
      outOpen := r < rings - 1 && walls[r + 1, c, BOTTOM] == 0;
      cwOpen := walls[r, c, RIGHT] == 0;
      ccwOpen := walls[r, (c - 1) % sectors, RIGHT] == 0;
    }

    /** The four checks of `verify_path` for the popped cell `cur`: the far
        cell of each open side, in the order inwards, outwards, clockwise,
        counter-clockwise, is marked found and queued unless it was found
        already. */
    method ExpandCell(cur: PCell, inOpen: bool, outOpen: bool, cwOpen: bool, ccwOpen: bool,
                      queue: seq<PCell>, found: set<PCell>) returns (queue': seq<PCell>, found': set<PCell>)
      requires sectors > 0
      ensures Offered(queue, found, OpenTargets(cur, sectors, inOpen, outOpen, cwOpen, ccwOpen), queue', found')
    {
      var r, c := cur.ring, cur.sector;
      ghost var t1 := if inOpen then [PCell(r - 1, c)] else [];
      ghost var t2 := t1 + (if outOpen then [PCell(r + 1, c)] else []);
      ghost var t3 := t2 + (if cwOpen then [PCell(r, (c + 1) % sectors)] else []);
      ghost var t4 := t3 + (if ccwOpen then [PCell(r, (c - 1) % sectors)] else []);
      assert t4 == OpenTargets(cur, sectors, inOpen, outOpen, cwOpen, ccwOpen);
      queue', found' := queue, found;
      assert Offered(queue, found, [], queue', found') by {
        assert queue + [] == queue;
      }
      if inOpen {
        queue', found' := Offer(PCell(r - 1, c), queue, found, [], queue', found');
        assert [] + [PCell(r - 1, c)] == t1;
      }
      if outOpen {
        queue', found' := Offer(PCell(r + 1, c), queue, found, t1, queue', found');
      } else {
        assert t2 == t1;
      }
      if cwOpen {
        queue', found' := Offer(PCell(r, (c + 1) % sectors), queue, found, t2, queue', found');
      } else {
        assert t3 == t2;
      }
      if ccwOpen {
        queue', found' := Offer(PCell(r, (c - 1) % sectors), queue, found, t3, queue', found');
      } else {
        assert t4 == t3;
      }
    }

    /** One `if (r', c') not in visited_verify` block: `y` is marked found
        and queued when it is new. */
    method Offer(y: PCell, ghost queue0: seq<PCell>, ghost found0: set<PCell>, ghost t: seq<PCell>,
                 queue: seq<PCell>, found: set<PCell>)
      returns (queue': seq<PCell>, found': set<PCell>)
      requires Offered(queue0, found0, t, queue, found)
      ensures Offered(queue0, found0, t + [y], queue', found')
    {
      queue', found' := queue, found;
      if y !in found {
        found' := found + {y};
        queue' := queue + [y];
      }
      OfferStep(queue0, found0, t, y, queue, found, queue', found');
    }

    /** The body of the search loop after the ring-0 test: reads the walls of
        `cur` and queues the new cells behind its open sides, after which
        `cur` is expanded. */
    method CheckSides(cur: PCell, queue: seq<PCell>, found: set<PCell>) returns (queue': seq<PCell>, found': set<PCell>)
      requires Valid() && InRange(cur) && cur in found && cur.ring != 0
      requires QueueInv(openSlots, queue, found) && Expanded(openSlots, queue, found, {cur})
      ensures QueueInv(openSlots, queue', found') && Expanded(openSlots, queue', found', {})
      ensures found <= found' && (found' == found ==> queue' == queue)
    {
      var inOpen, outOpen, cwOpen, ccwOpen := OpenSides(cur);
      queue', found' := ExpandCell(cur, inOpen, outOpen, cwOpen, ccwOpen, queue, found);
      ExpandKeeps(openSlots, queue, found, cur, inOpen, outOpen, cwOpen, ccwOpen, queue', found');
      OfferedGrows(queue, found, OpenTargets(cur, sectors, inOpen, outOpen, cwOpen, ccwOpen), queue', found');
    }

    /** `verify_path`: a breadth-first search from the entry through open
        walls that stops at the first cell of ring 0. It reports a path
        exactly when some ring-0 cell is reachable from the entry. */
    method VerifyPath() returns (foundCenter: bool)
      requires Valid()
      ensures foundCenter <==> exists x: PCell :: x.ring == 0 && Reachable(openSlots, x)
    {
      var queue := [Entry()];
      var visitedVerify := {Entry()};
      foundCenter := false;
      EntryReachable(openSlots);
      assert Entry() in Cells();
      while |queue| > 0
        invariant !foundCenter
        invariant QueueInv(openSlots, queue, visitedVerify) && Expanded(openSlots, queue, visitedVerify, {})
        decreases Cells() - visitedVerify, |queue|
      {
        TakeHead(openSlots, queue, visitedVerify);
        var cur := queue[0];
        queue := queue[1..];
        if cur.ring == 0 {
          assert Reachable(openSlots, cur);
          foundCenter := true;
          break;
        }
        queue, visitedVerify := CheckSides(cur, queue, visitedVerify);
      }
      if !foundCenter {
        SearchEnd(openSlots, visitedVerify);
      }
    }
  }

  /** `main`'s build-and-check sequence (run there with 12 rings and 36
      sectors, the entry sector drawn at random): a freshly generated maze
      always passes `verify_path`, so the success branch is the only one
      taken. */
  method GenerateAndVerify(rings: nat, sectors: nat, entrySector: int) returns (maze: PolarMaze, isValid: bool)
    requires rings >= 1 && sectors >= 1 && 0 <= entrySector < sectors
    ensures isValid
  {
    maze := new PolarMaze(rings, sectors, entrySector);
    maze.Generate();
    var centre := PCell(0, entrySector);
    assert centre in maze.Cells();
    assert maze.Reachable(maze.openSlots, centre);
    isValid := maze.VerifyPath();
  }
}
