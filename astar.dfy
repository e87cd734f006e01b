/** A* search over 255-pixels (`astar_pixels`) with the Manhattan heuristic.
    The `g_cost` table starts infinite except at `start`; a heap of `(f, cell)`
    entries is popped in tuple order, entries for cells already closed are
    skipped, a popped cell is closed and appended to `order`, and the search
    stops when `goal` is popped. Relaxing a neighbour lowers its cost, records
    its predecessor and pushes a fresh entry; stale entries stay in the heap.

    The cost table is a map whose missing keys stand for infinity, and the heap
    is the multiset of its entries. */
module AStar {
  import opened Wrappers
  import opened Grid

  /** A heap entry `(f, (row, col))`. */
  datatype Entry = Entry(f: int, cell: Cell)

  /** Python's tuple order on `(f, (row, col))`: by `f`, then row, then column. */
  predicate EntryLe(a: Entry, b: Entry) {
    || a.f < b.f
    || (a.f == b.f && a.cell.row < b.cell.row)
    || (a.f == b.f && a.cell.row == b.cell.row && a.cell.col <= b.cell.col)
  }

  predicate IsMin(e: Entry, pq: multiset<Entry>) {
    e in pq && forall x :: x in pq ==> EntryLe(e, x)
  }

  /** Every non-empty heap has a least entry in tuple order. */
  lemma {:induction false} MinExists(pq: multiset<Entry>)
    requires |pq| > 0
    ensures exists e :: IsMin(e, pq)
    decreases |pq|
  {
    var x :| x in pq;
    var rest := pq - multiset{x};
    assert forall y :: y in pq ==> y == x || y in rest;
    if |rest| == 0 {
      assert IsMin(x, pq);
    } else {
      MinExists(rest);
      var m :| IsMin(m, rest);
      var least := if EntryLe(x, m) then x else m;
      assert EntryLe(least, x) && EntryLe(least, m);
      assert IsMin(least, pq);
    }
  }

  /** `heapq.heappop`: removes and returns the least entry, which is unique
      because tuple order breaks ties on `f` by the cell's coordinates. */
  method PopMin(pq: multiset<Entry>) returns (e: Entry, rest: multiset<Entry>)
    requires |pq| > 0
    ensures IsMin(e, pq) && rest == pq - multiset{e}
    ensures forall x :: IsMin(x, pq) ==> x == e
  {
    MinExists(pq);
    e :| e in pq && IsMin(e, pq);
    rest := pq - multiset{e};
  }

  /** The cost table and the predecessor map: `start` costs 0 and has no
      predecessor, every other costed cell has one, an adjacent costed cell
      of strictly smaller cost, and is an open pixel. */
  ghost predicate Tree(img: Image, start: Cell, g: map<Cell, nat>, parent: map<Cell, Cell>)
  {
    && start in g && g[start] == 0 && start !in parent
    && (forall c :: c in g ==> c == start || c in parent)
    && (forall c {:trigger parent[c]} :: c in parent ==>
          && c in g && parent[c] in g && g[parent[c]] < g[c]
          && Adjacent(parent[c], c) && IsOpen(img, c))
  }

  /** The cells met by following predecessors from `c` back to `start`,
      listed from `start` to `c`; costs fall strictly along the way. */
  ghost function ChainTo(img: Image, start: Cell, g: map<Cell, nat>, parent: map<Cell, Cell>, c: Cell): seq<Cell>
    requires Tree(img, start, g, parent) && c in g
    decreases g[c]
  {
    if c == start then [start]
    else ChainTo(img, start, g, parent, parent[c]) + [c]
  }

  /** `w` is a route from `start` to `c` with at most `g[c] + 1` cells, all
      costed no higher than `c`, whose costs strictly increase. */
  ghost predicate CheapRoute(img: Image, start: Cell, g: map<Cell, nat>, c: Cell, w: seq<Cell>)
    requires c in g
  {
    && IsRoute(img, start, c, w) && |w| <= g[c] + 1
    && (forall i :: 0 <= i < |w| ==> w[i] in g && g[w[i]] <= g[c])
    && (forall i, j :: 0 <= i < j < |w| ==> g[w[i]] < g[w[j]])
  }

  /** The predecessor chain of a costed cell is such a route. */
  lemma {:induction false} ChainIsRoute(img: Image, start: Cell, g: map<Cell, nat>, parent: map<Cell, Cell>, c: Cell)
    requires Tree(img, start, g, parent) && c in g
    ensures CheapRoute(img, start, g, c, ChainTo(img, start, g, parent, c))
    decreases g[c]
  {
    if c != start {
      var p := parent[c];
      ChainIsRoute(img, start, g, parent, p);
      var prefix := ChainTo(img, start, g, parent, p);
      RouteExtend(img, start, p, prefix, c);
      var w := prefix + [c];
      assert w == ChainTo(img, start, g, parent, c);
      forall i | 0 <= i < |w|
        ensures w[i] in g && g[w[i]] <= g[c]
      {
        if i < |prefix| {
          assert w[i] == prefix[i];
        }
      }
      forall i, j | 0 <= i < j < |w|
        ensures g[w[i]] < g[w[j]]
      {
        assert w[i] == prefix[i];
        if j < |prefix| {
          assert w[j] == prefix[j];
        }
      }
    }
  }

  /** Every costed cell is reachable from `start`, and is `start` or open. */
  lemma ChainReaches(img: Image, start: Cell, g: map<Cell, nat>, parent: map<Cell, Cell>)
    requires Tree(img, start, g, parent)
    ensures forall c :: c in g ==> Reachable(img, start, c)
    ensures forall c :: c in g ==> c == start || IsOpen(img, c)
  {
    forall c | c in g
      ensures Reachable(img, start, c) && (c == start || IsOpen(img, c))
    {
      ChainIsRoute(img, start, g, parent, c);
      var w := ChainTo(img, start, g, parent, c);
    }
  }

  /** The cost of `c` is no more than the steps of any route to it. */
  ghost predicate Optimal(img: Image, start: Cell, g: map<Cell, nat>, c: Cell)
    requires c in g
  {
    forall w :: IsRoute(img, start, c, w) ==> g[c] <= |w| - 1
  }

  /** The first `n` directions from `x` have been relaxed: each open neighbour
      is costed at most one more than `x`. */
  ghost predicate ExpandedUpTo(img: Image, g: map<Cell, nat>, x: Cell, n: nat)
    requires x in g
  {
    forall k :: 0 <= k < n && k < |DIRECTIONS| && IsOpen(img, Step(x, k)) ==>
      Step(x, k) in g && g[Step(x, k)] <= g[x] + 1
  }

  /** The search state is built on a grid image: a tree over pixels. */
  ghost predicate Known(img: Image, start: Cell, g: map<Cell, nat>, parent: map<Cell, Cell>)
  {
    && IsGrid(img) && InBounds(img, start)
    && Tree(img, start, g, parent)
    && (forall c :: c in g ==> InBounds(img, c))
  }

  /** Closed cells are costed optimally. */
  ghost predicate OptimalAll(img: Image, start: Cell, g: map<Cell, nat>, closed: set<Cell>)
  {
    && (forall x :: x in closed ==> x in g)
    && forall x {:trigger Optimal(img, start, g, x)} :: x in closed ==> Optimal(img, start, g, x)
  }

  /** Closed cells are costed optimally and have been expanded. */
  ghost predicate ClosedOK(img: Image, start: Cell, g: map<Cell, nat>, closed: set<Cell>)
  {
    && OptimalAll(img, start, g, closed)
    && forall x {:trigger ExpandedUpTo(img, g, x, |DIRECTIONS|)} ::
         x in closed ==> ExpandedUpTo(img, g, x, |DIRECTIONS|)
  }

  /** No heap entry undercuts its cell's cost plus heuristic, and every
      costed cell not yet closed has an entry carrying its current cost. */
  ghost predicate Queue(goal: Cell, g: map<Cell, nat>, closed: set<Cell>, pq: multiset<Entry>)
  {
    && (forall e :: e in pq ==> e.cell in g && g[e.cell] + Manhattan(e.cell, goal) <= e.f)
    && (forall c :: c in g && c !in closed ==> Entry(g[c] + Manhattan(c, goal), c) in pq)
  }

  /** `order` lists the closed cells, each once, starting at `start`. */
  ghost predicate OrderOK(start: Cell, closed: set<Cell>, order: seq<Cell>)
  {
    && NoDup(order)
    && (forall c :: c in order <==> c in closed)
    && (order != [] ==> order[0] == start)
  }

  /** The state at the head of the search loop. */
  ghost predicate Frontier(img: Image, start: Cell, goal: Cell, g: map<Cell, nat>, parent: map<Cell, Cell>,
                           closed: set<Cell>, order: seq<Cell>, pq: multiset<Entry>)
  {
    && Known(img, start, g, parent)
    && OrderOK(start, closed, order)
    && (order == [] ==> pq == multiset{Entry(Manhattan(start, goal), start)})
    && goal !in closed
    && Queue(goal, g, closed, pq)
    && ClosedOK(img, start, g, closed)
  }

  /** The search starts with `start` costed 0 and its entry alone in the heap. */
  lemma InitFrontier(img: Image, start: Cell, goal: Cell)
    requires IsGrid(img) && InBounds(img, start)
    ensures Frontier(img, start, goal, map[start := 0], map[], {}, [], multiset{Entry(Manhattan(start, goal), start)})
  {
  }

  /** A route from `start` to a cell that is not closed reaches a costed,
      unclosed cell whose cost is at most its position on the route. */
  lemma {:induction false} RouteMeetsOpen(img: Image, start: Cell, g: map<Cell, nat>, closed: set<Cell>,
                                          c: Cell, w: seq<Cell>)
    requires start in g && g[start] == 0
    requires ClosedOK(img, start, g, closed)
    requires IsRoute(img, start, c, w) && c !in closed
    ensures exists j :: 0 <= j < |w| && w[j] in g && w[j] !in closed && g[w[j]] <= j
    decreases |w|
  {
    if |w| == 1 {
      assert w[0] in g && w[0] !in closed && g[w[0]] <= 0;
    } else {
      var p := w[|w| - 2];
      RoutePrefix(img, start, c, w, |w| - 2);
      var prefix := w[..|w| - 1];
      if p !in closed {
        RouteMeetsOpen(img, start, g, closed, p, prefix);
        var j :| 0 <= j < |prefix| && prefix[j] in g && prefix[j] !in closed && g[prefix[j]] <= j;
        assert w[j] == prefix[j];
      } else {
        assert Optimal(img, start, g, p);
        assert ExpandedUpTo(img, g, p, |DIRECTIONS|);
        var k := DirectionTo(p, c);
        assert w[|w| - 1] in g && g[w[|w| - 1]] <= |w| - 1;
      }
    }
  }

  /** A popped entry whose cell is not yet closed settles that cell: with a
      consistent heuristic, no route to it is shorter than its cost. */
  lemma PoppedOptimal(img: Image, start: Cell, goal: Cell, g: map<Cell, nat>,
                      closed: set<Cell>, pq: multiset<Entry>, e: Entry)
    requires start in g && g[start] == 0
    requires ClosedOK(img, start, g, closed) && Queue(goal, g, closed, pq)
    requires IsMin(e, pq) && e.cell !in closed
    ensures e.cell in g && Optimal(img, start, g, e.cell)
  {
    var c := e.cell;
    assert c in g && g[c] + Manhattan(c, goal) <= e.f;
    forall w | IsRoute(img, start, c, w)
      ensures g[c] <= |w| - 1
    {
      RouteMeetsOpen(img, start, g, closed, c, w);
      var j :| 0 <= j < |w| && w[j] in g && w[j] !in closed && g[w[j]] <= j;
      var x := w[j];
      var ex := Entry(g[x] + Manhattan(x, goal), x);
      assert ex in pq;
      assert EntryLe(e, ex);
      ManhattanAlongRoute(w, j, goal);
    }
  }

  /** Dropping an entry of a closed cell keeps every open cell's entry. */
  lemma QueueDrop(goal: Cell, g: map<Cell, nat>, closed: set<Cell>, pq: multiset<Entry>, e: Entry)
    requires Queue(goal, g, closed, pq) && e in pq && e.cell in closed
    ensures Queue(goal, g, closed, pq - multiset{e})
  {
  }

  /** A popped entry whose cell is already closed is stale: dropping it keeps
      the loop state. */
  lemma StalePop(img: Image, start: Cell, goal: Cell, g: map<Cell, nat>, parent: map<Cell, Cell>,
                 closed: set<Cell>, order: seq<Cell>, pq: multiset<Entry>, e: Entry)
    requires Frontier(img, start, goal, g, parent, closed, order, pq)
    requires e in pq && e.cell in closed
    ensures Frontier(img, start, goal, g, parent, closed, order, pq - multiset{e})
  {
    QueueDrop(goal, g, closed, pq, e);
    assert e.cell in order;
  }

  /** Appending a newly closed cell keeps `order` a duplicate-free listing of
      the closed cells that starts at `start`. */
  lemma OrderAdd(start: Cell, closed: set<Cell>, order: seq<Cell>, c: Cell)
    requires OrderOK(start, closed, order) && c !in closed
    requires order == [] ==> c == start
    ensures OrderOK(start, closed + {c}, order + [c])
    ensures (order + [c])[0] == start
    ensures order != [] ==> c != start
  {
    NoDupConcat(order, [c]);
    if order != [] {
      assert order[0] in order;
    }
  }

  /** The first pop takes the entry of `start`. */
  lemma FirstPop(start: Cell, goal: Cell, pq: multiset<Entry>, e: Entry)
    requires pq == multiset{Entry(Manhattan(start, goal), start)} && e in pq
    ensures e.cell == start
  {
  }

  /** Closing the popped cell: the other open cells keep their entries. */
  lemma QueueClose(goal: Cell, g: map<Cell, nat>, closed: set<Cell>, pq: multiset<Entry>, e: Entry)
    requires Queue(goal, g, closed, pq) && e in pq
    ensures Queue(goal, g, closed + {e.cell}, pq - multiset{e})
  {
  }

  lemma InGrid(img: Image, c: Cell)
    requires IsGrid(img) && InBounds(img, c)
    ensures c in AllCells(Height(img), Width(img))
  {
    assert c == Cell(c.row, c.col);
  }

  /** Popping the least entry of a cell not yet closed (and not `goal`)
      closes it: it is costed optimally, joins `order` once, and its
      expansion can begin. */
  lemma Settle(img: Image, start: Cell, goal: Cell, g: map<Cell, nat>, parent: map<Cell, Cell>,
               closed: set<Cell>, order: seq<Cell>, pq: multiset<Entry>, e: Entry)
    requires Frontier(img, start, goal, g, parent, closed, order, pq)
    requires IsMin(e, pq) && e.cell !in closed
    ensures e.cell in AllCells(Height(img), Width(img))
    ensures OrderOK(start, closed + {e.cell}, order + [e.cell])
    ensures ExpandInv(img, start, goal, e.cell, g, closed + {e.cell}, g, parent, pq - multiset{e}, 0)
  {
    var c := e.cell;
    PoppedOptimal(img, start, goal, g, closed, pq, e);
    if order == [] {
      FirstPop(start, goal, pq, e);
    }
    OrderAdd(start, closed, order, c);
    QueueClose(goal, g, closed, pq, e);
    InGrid(img, c);
    assert OptimalAll(img, start, g, closed + {c});
    assert Lowered(g, g, closed + {c});
  }

  /** Popping `goal` ends the search with `goal` last in `order` and
      costed optimally. */
  lemma GoalReached(img: Image, start: Cell, goal: Cell, g: map<Cell, nat>, parent: map<Cell, Cell>,
                    closed: set<Cell>, order: seq<Cell>, pq: multiset<Entry>, e: Entry)
    requires Frontier(img, start, goal, g, parent, closed, order, pq)
    requires IsMin(e, pq) && e.cell == goal
    ensures SearchDone(img, start, goal, g, parent, closed + {goal}, order + [goal])
  {
    PoppedOptimal(img, start, goal, g, closed, pq, e);
    if order == [] {
      FirstPop(start, goal, pq, e);
    }
    OrderAdd(start, closed, order, goal);
  }

  /** `g'` keeps every cost of `g` or lowers it, and leaves closed cells
      alone. */
  ghost predicate Lowered(g: map<Cell, nat>, g': map<Cell, nat>, closed: set<Cell>)
  {
    && (forall c :: c in g ==> c in g')
    && (forall c {:trigger g'[c]} :: c in g && c in g' ==> g'[c] <= g[c])
    && (forall c :: c in closed ==> c in g && c in g' && g'[c] == g[c])
  }

  /** What holds of `cur` throughout its expansion: it is closed, and the
      closed cells are costed optimally by `g`, the costs when it was popped. */
  ghost predicate Settled(img: Image, start: Cell, cur: Cell, g: map<Cell, nat>, closed: set<Cell>)
  {
    IsGrid(img) && cur in closed && OptimalAll(img, start, g, closed)
  }

  /** What the first `k` relaxations of `cur`'s neighbours leave in
      `g'`, `parent'` and `pq'`. */
  ghost predicate Relaxing(img: Image, start: Cell, goal: Cell, cur: Cell, g: map<Cell, nat>, closed: set<Cell>,
                           g': map<Cell, nat>, parent': map<Cell, Cell>, pq': multiset<Entry>, k: nat)
  {
    && Known(img, start, g', parent')
    && Lowered(g, g', closed)
    && Queue(goal, g', closed, pq')
    && cur in g' && ExpandedUpTo(img, g', cur, k)
  }

  /** What holds after relaxing the first `k` neighbours of `cur`, which is
      already closed; `g` and `closed` are the state when it was popped. */
  ghost predicate ExpandInv(img: Image, start: Cell, goal: Cell, cur: Cell, g: map<Cell, nat>, closed: set<Cell>,
                            g': map<Cell, nat>, parent': map<Cell, Cell>, pq': multiset<Entry>, k: nat)
  {
    Settled(img, start, cur, g, closed) && Relaxing(img, start, goal, cur, g, closed, g', parent', pq', k)
  }

  /** A closed neighbour of `cur` already costs at most one more than `cur`,
      so relaxing never touches a closed cell. */
  lemma ClosedStaysCheap(img: Image, start: Cell, g: map<Cell, nat>, closed: set<Cell>,
                         g': map<Cell, nat>, parent': map<Cell, Cell>, cur: Cell, n: Cell)
    requires Tree(img, start, g', parent') && cur in g'
    requires OptimalAll(img, start, g, closed) && Lowered(g, g', closed)
    requires Adjacent(cur, n) && IsOpen(img, n)
    ensures n in closed ==> n in g' && g'[n] <= g'[cur] + 1
  {
    if n in closed {
      ChainIsRoute(img, start, g', parent', cur);
      var w := ChainTo(img, start, g', parent', cur);
      RouteExtend(img, start, cur, w, n);
      assert Optimal(img, start, g, n);
      assert g[n] <= |w + [n]| - 1;
    }
  }

  /** Lowering the cost of `n` to one more than that of `cur` keeps the
      cost table a tree of strictly falling costs. */
  lemma LowerTree(img: Image, start: Cell, g: map<Cell, nat>, parent: map<Cell, Cell>, cur: Cell, n: Cell)
    requires Known(img, start, g, parent)
    requires cur in g && Adjacent(cur, n) && IsOpen(img, n)
    requires n !in g || g[cur] + 1 < g[n]
    ensures Known(img, start, g[n := g[cur] + 1], parent[n := cur])
  {
    var g2, p2 := g[n := g[cur] + 1], parent[n := cur];
    forall c | c in p2
      ensures c in g2 && p2[c] in g2 && g2[p2[c]] < g2[c]
    {
      if c != n && p2[c] == n {
        assert parent[c] == n;
      }
    }
  }

  /** The relaxed neighbour's fresh entry carries its new cost; every other
      entry and every other open cell's entry is kept. */
  lemma LowerQueue(goal: Cell, g: map<Cell, nat>, closed: set<Cell>, pq: multiset<Entry>, n: Cell, v: nat)
    requires Queue(goal, g, closed, pq)
    requires n !in closed && (n !in g || v < g[n])
    ensures Queue(goal, g[n := v], closed, pq + multiset{Entry(v + Manhattan(n, goal), n)})
  {
  }

  /** Lowering an open cell's cost keeps `g'` below `g` and closed cells
      untouched. */
  lemma LowerLowered(g: map<Cell, nat>, g': map<Cell, nat>, closed: set<Cell>, n: Cell, v: nat)
    requires Lowered(g, g', closed)
    requires n !in closed && (n in g' ==> v < g'[n])
    ensures Lowered(g, g'[n := v], closed)
  {
  }

  /** Giving direction `k`'s neighbour the cost one more than `cur` extends
      the relaxed prefix of directions by one. */
  lemma LowerExpanded(img: Image, g: map<Cell, nat>, cur: Cell, k: nat, v: nat)
    requires k < |DIRECTIONS| && cur in g && ExpandedUpTo(img, g, cur, k)
    requires v == g[cur] + 1 && Step(cur, k) != cur
    requires Step(cur, k) in g ==> v < g[Step(cur, k)]
    ensures ExpandedUpTo(img, g[Step(cur, k) := v], cur, k + 1)
  {
  }

  /** A route of `v` steps improves on what is known of `n`: `n` is an open
      pixel that has no cost yet or costs more than `v`. */
  predicate Improves(img: Image, g: map<Cell, nat>, n: Cell, v: int)
  {
    IsOpen(img, n) && (n !in g || v < g[n])
  }

  /** A neighbour that is blocked, outside the image or already as cheap
      extends the relaxed prefix of directions unchanged. */
  lemma SkipExpanded(img: Image, g: map<Cell, nat>, cur: Cell, k: nat)
    requires k < |DIRECTIONS| && cur in g && ExpandedUpTo(img, g, cur, k)
    requires !(IsOpen(img, Step(cur, k)) && (Step(cur, k) !in g || g[cur] + 1 < g[Step(cur, k)]))
    ensures ExpandedUpTo(img, g, cur, k + 1)
  {
  }

  /** The body of the `for dx, dy in ...` loop for the neighbour `n` of `cur`,
      reached at the tentative cost `v`: an in-bounds 255-neighbour that `v`
      beats gets that cost, `cur` as predecessor, and a heap entry with
      `f = g + h`; otherwise nothing changes. */
  method Relax(img: Image, goal: Cell, cur: Cell, n: Cell, v: nat,
               g: map<Cell, nat>, parent: map<Cell, Cell>, pq: multiset<Entry>)
    returns (g': map<Cell, nat>, parent': map<Cell, Cell>, pq': multiset<Entry>)
    ensures Improves(img, g, n, v) ==>
              g' == g[n := v] && parent' == parent[n := cur] && pq' == pq + multiset{Entry(v + Manhattan(n, goal), n)}
    ensures !Improves(img, g, n, v) ==> g' == g && parent' == parent && pq' == pq
  {
    g', parent', pq' := g, parent, pq;
    if Improves(img, g, n, v) {
      g' := g[n := v];
      parent' := parent[n := cur];
      pq' := pq + multiset{Entry(v + Manhattan(n, goal), n)};
    }
  }

  /** Relaxing direction `k`, whose neighbour is `n`, at the tentative cost
      `v` one more than that of `cur` keeps the expansion invariant, whichever
      way it goes. */
  lemma RelaxKeeps(img: Image, start: Cell, goal: Cell, cur: Cell, g0: map<Cell, nat>, closed: set<Cell>,
                   g: map<Cell, nat>, parent: map<Cell, Cell>, pq: multiset<Entry>, k: nat, n: Cell, v: nat,
                   g': map<Cell, nat>, parent': map<Cell, Cell>, pq': multiset<Entry>)
    requires k < |DIRECTIONS|
    requires Settled(img, start, cur, g0, closed) && Relaxing(img, start, goal, cur, g0, closed, g, parent, pq, k)
    requires n == Step(cur, k) && cur in g && v == g[cur] + 1
    requires Improves(img, g, n, v) ==>
               g' == g[n := v] && parent' == parent[n := cur] && pq' == pq + multiset{Entry(v + Manhattan(n, goal), n)}
    requires !Improves(img, g, n, v) ==> g' == g && parent' == parent && pq' == pq
    ensures Relaxing(img, start, goal, cur, g0, closed, g', parent', pq', k + 1)
  {
    if Improves(img, g, n, v) {
      StepIsAdjacent(cur, k);
      ClosedStaysCheap(img, start, g0, closed, g, parent, cur, n);
      LowerTree(img, start, g, parent, cur, n);
      LowerQueue(goal, g, closed, pq, n, v);
      LowerLowered(g0, g, closed, n, v);
      LowerExpanded(img, g, cur, k, v);
    } else {
      SkipExpanded(img, g, cur, k);
    }
  }

  /** One pass of the loop over the neighbours of `cur`: direction `k`, at
      the tentative cost one more than that of `cur`. */
  method RelaxDirection(img: Image, start: Cell, goal: Cell, cur: Cell, ghost g0: map<Cell, nat>, ghost closed: set<Cell>,
                        g: map<Cell, nat>, parent: map<Cell, Cell>, pq: multiset<Entry>, k: nat)
    returns (g': map<Cell, nat>, parent': map<Cell, Cell>, pq': multiset<Entry>)
    requires k < |DIRECTIONS|
    requires Settled(img, start, cur, g0, closed) && Relaxing(img, start, goal, cur, g0, closed, g, parent, pq, k)
    ensures Relaxing(img, start, goal, cur, g0, closed, g', parent', pq', k + 1)
  {
    var d := DIRECTIONS[k];
    var n := Cell(cur.row + d.0, cur.col + d.1);
    assert n == Step(cur, k);
    var tentative := g[cur] + 1;
    g', parent', pq' := Relax(img, goal, cur, n, tentative, g, parent, pq);
    RelaxKeeps(img, start, goal, cur, g0, closed, g, parent, pq, k, n, tentative, g', parent', pq');
  }

  /** The loop over the four neighbours of `cur`. */
  method Expand(img: Image, start: Cell, goal: Cell, cur: Cell, ghost closed: set<Cell>,
                g: map<Cell, nat>, parent: map<Cell, Cell>, pq: multiset<Entry>)
    returns (g': map<Cell, nat>, parent': map<Cell, Cell>, pq': multiset<Entry>)
    requires ExpandInv(img, start, goal, cur, g, closed, g, parent, pq, 0)
    ensures ExpandInv(img, start, goal, cur, g, closed, g', parent', pq', |DIRECTIONS|)
  {
    g', parent', pq' := g, parent, pq;
    for k := 0 to |DIRECTIONS|
      invariant Relaxing(img, start, goal, cur, g, closed, g', parent', pq', k)
    {
      g', parent', pq' := RelaxDirection(img, start, goal, cur, g, closed, g', parent', pq', k);
    }
  }

  /** A closed cell keeps its cost through an expansion, so it stays optimal
      and, since its neighbours only get cheaper, stays expanded. */
  lemma KeepClosed(img: Image, start: Cell, g: map<Cell, nat>, g': map<Cell, nat>, closed: set<Cell>, x: Cell)
    requires Lowered(g, g', closed) && x in closed
    requires Optimal(img, start, g, x) && ExpandedUpTo(img, g, x, |DIRECTIONS|)
    ensures Optimal(img, start, g', x) && ExpandedUpTo(img, g', x, |DIRECTIONS|)
  {
    forall k | 0 <= k < |DIRECTIONS| && IsOpen(img, Step(x, k))
      ensures Step(x, k) in g' && g'[Step(x, k)] <= g'[x] + 1
    {
      assert Step(x, k) in g;
      assert Step(x, k) in g';
      assert g'[Step(x, k)] <= g[Step(x, k)];
    }
  }

  /** The closed cells keep their costs through an expansion of `cur`. */
  lemma ClosedTransfer(img: Image, start: Cell, g: map<Cell, nat>, g': map<Cell, nat>, closed: set<Cell>, cur: Cell)
    requires ClosedOK(img, start, g, closed) && OptimalAll(img, start, g, closed + {cur})
    requires Lowered(g, g', closed + {cur})
    requires cur in g' && ExpandedUpTo(img, g', cur, |DIRECTIONS|)
    ensures ClosedOK(img, start, g', closed + {cur})
  {
    forall x | x in closed + {cur}
      ensures x in g' && Optimal(img, start, g', x) && ExpandedUpTo(img, g', x, |DIRECTIONS|)
    {
      assert Optimal(img, start, g, x);
      if x != cur {
        assert ExpandedUpTo(img, g, x, |DIRECTIONS|);
        KeepClosed(img, start, g, g', closed + {cur}, x);
      }
    }
  }

  /** After the expansion the closed cells, `cur` now among them, are still
      optimal and fully expanded under the lowered costs. */
  lemma ExpandFinish(img: Image, start: Cell, goal: Cell, g: map<Cell, nat>, closed: set<Cell>, cur: Cell,
                     g': map<Cell, nat>, parent': map<Cell, Cell>, pq': multiset<Entry>)
    requires ClosedOK(img, start, g, closed)
    requires ExpandInv(img, start, goal, cur, g, closed + {cur}, g', parent', pq', |DIRECTIONS|)
    ensures ClosedOK(img, start, g', closed + {cur})
  {
    assert cur in g' && ExpandedUpTo(img, g', cur, |DIRECTIONS|);
    ClosedTransfer(img, start, g, g', closed, cur);
  }

  /** The loop state after closing and expanding `cur`. */
  lemma Advance(img: Image, start: Cell, goal: Cell, g: map<Cell, nat>, closed: set<Cell>, order: seq<Cell>,
                cur: Cell, g': map<Cell, nat>, parent': map<Cell, Cell>, pq': multiset<Entry>)
    requires ClosedOK(img, start, g, closed) && goal !in closed && cur != goal
    requires OrderOK(start, closed + {cur}, order + [cur])
    requires ExpandInv(img, start, goal, cur, g, closed + {cur}, g', parent', pq', |DIRECTIONS|)
    ensures Frontier(img, start, goal, g', parent', closed + {cur}, order + [cur], pq')
  {
    ExpandFinish(img, start, goal, g, closed, cur, g', parent', pq');
  }

  /** How the search loop ends: `goal` was popped last and is costed
      optimally, or the heap ran empty with `goal` never costed and every
      reachable cell closed. */
  ghost predicate SearchDone(img: Image, start: Cell, goal: Cell, g: map<Cell, nat>, parent: map<Cell, Cell>,
                             closed: set<Cell>, order: seq<Cell>)
  {
    && Known(img, start, g, parent)
    && |order| >= 1 && order[0] == start && NoDup(order)
    && (forall c :: c in order <==> c in closed)
    && (forall c :: c in closed ==> c in g)
    && (goal in closed ==> order[|order| - 1] == goal && Optimal(img, start, g, goal))
    && (goal !in closed ==> goal !in g && forall c :: Reachable(img, start, c) ==> c in closed)
    && (start == goal ==> order == [start])
  }

  /** An empty heap means every costed cell is closed, so the closed cells
      hold every cell reachable from `start`, and `goal` is not among them. */
  lemma Exhausted(img: Image, start: Cell, goal: Cell, g: map<Cell, nat>, parent: map<Cell, Cell>,
                  closed: set<Cell>, order: seq<Cell>)
    requires Frontier(img, start, goal, g, parent, closed, order, multiset{})
    ensures SearchDone(img, start, goal, g, parent, closed, order)
  {
    assert start in closed;
    assert order != [];
    forall x, k | x in closed && 0 <= k < |DIRECTIONS| && IsOpen(img, Step(x, k))
      ensures Step(x, k) in closed
    {
      assert ExpandedUpTo(img, g, x, |DIRECTIONS|);
    }
    forall c | Reachable(img, start, c)
      ensures c in closed
    {
      var w :| IsRoute(img, start, c, w);
      ClosedSetHoldsRoute(img, start, closed, c, w);
    }
  }

  /** The `while pq` loop of `astar_pixels` (lines 7-41): pop, skip closed
      cells, close and record, stop at `goal`, otherwise relax the
      neighbours. */
  method Search(img: Image, start: Cell, goal: Cell)
    returns (g: map<Cell, nat>, parent: map<Cell, Cell>, closed: set<Cell>, order: seq<Cell>)
    requires IsGrid(img) && InBounds(img, start)
    ensures SearchDone(img, start, goal, g, parent, closed, order)
  {
    g := map[start := 0];
    parent := map[];
    closed := {};
    order := [];
    var pq := multiset{Entry(Manhattan(start, goal), start)};
    InitFrontier(img, start, goal);
    while |pq| > 0
      invariant Frontier(img, start, goal, g, parent, closed, order, pq)
      decreases AllCells(Height(img), Width(img)) - closed, |pq|
    {
      var e, rest := PopMin(pq);
      var cur := e.cell;
      if cur in closed {
        StalePop(img, start, goal, g, parent, closed, order, pq, e);
        pq := rest;
        continue;
      }
      ghost var closed0, order0, pq0 := closed, order, pq;
      closed := closed + {cur};
      order := order + [cur];
      pq := rest;
      if cur == goal {
        GoalReached(img, start, goal, g, parent, closed0, order0, pq0, e);
        return;
      }
      Settle(img, start, goal, g, parent, closed0, order0, pq0, e);
      ghost var g0 := g;
      g, parent, pq := Expand(img, start, goal, cur, closed, g, parent, pq);
      Advance(img, start, goal, g0, closed0, order0, cur, g, parent, pq);
    }
    Exhausted(img, start, goal, g, parent, closed, order);
  }

  /** Follow the predecessor map from `goal` back to `start`
      (`while cur != start`), then add `start`. `astar_pixels` appends from
      `goal` backwards and reverses with `[::-1]`; prepending builds the same
      list. */
  method Reconstruct(ghost img: Image, start: Cell, g: map<Cell, nat>, parent: map<Cell, Cell>, goal: Cell)
    returns (path: seq<Cell>)
    requires Tree(img, start, g, parent) && goal in g
    ensures path == ChainTo(img, start, g, parent, goal)
  {
    path := [];
    var cur := goal;
    while cur != start
      invariant cur in g && ChainTo(img, start, g, parent, cur) + path == ChainTo(img, start, g, parent, goal)
      decreases g[cur]
    {
      ConcatAssoc(ChainTo(img, start, g, parent, parent[cur]), [cur], path);
      path := [cur] + path;
      cur := parent[cur];
    }
    path := [start] + path;
  }

  /** The route rebuilt from the predecessor map of an optimally costed
      `goal` is as short as any route, visits no cell twice, and has one
      cell more than the cost of `goal`. */
  lemma ShortestChain(img: Image, start: Cell, g: map<Cell, nat>, parent: map<Cell, Cell>, goal: Cell)
    requires Tree(img, start, g, parent) && goal in g && Optimal(img, start, g, goal)
    ensures ShortestRoute(img, start, goal, ChainTo(img, start, g, parent, goal))
    ensures |ChainTo(img, start, g, parent, goal)| == g[goal] + 1
  {
    ChainIsRoute(img, start, g, parent, goal);
  }

  /** `astar_pixels`: A* search from `start` with the Manhattan heuristic,
      stopping when `goal` is popped. Returns the path and the order in which
      cells were closed. Since `start` never gets a predecessor, `start ==
      goal` yields no path; otherwise a path exists exactly when `goal` is
      reachable, and it is a shortest route. */
  method AstarPixels(img: Image, start: Cell, goal: Cell) returns (path: Option<seq<Cell>>, order: seq<Cell>)
    requires IsGrid(img) && InBounds(img, start)
    ensures |order| >= 1 && order[0] == start && NoDup(order)
    ensures forall c :: c in order ==> c == start || IsOpen(img, c)
    ensures forall c :: c in order ==> Reachable(img, start, c)
    ensures goal in order ==> order[|order| - 1] == goal
    ensures goal !in order ==> forall c :: Reachable(img, start, c) ==> c in order
    ensures path.Some? <==> goal != start && Reachable(img, start, goal)
    ensures path.Some? <==> goal != start && goal in order
    ensures path.Some? ==> IsRoute(img, start, goal, path.value) && NoDup(path.value)
    ensures path.Some? ==> forall w :: IsRoute(img, start, goal, w) ==> |path.value| <= |w|
    ensures start == goal ==> path == None && order == [start]
  {
    var g, parent, closed;
    g, parent, closed, order := Search(img, start, goal);
    ChainReaches(img, start, g, parent);
    if goal !in parent {
      return None, order;
    }
    var p := Reconstruct(img, start, g, parent, goal);
    path := Some(p);
    ShortestChain(img, start, g, parent, goal);
  }
}
