/** Breadth-first search over 255-pixels (`bfs_pixels`). A FIFO queue is seeded
    with `start`; a cell is marked visited and given its predecessor when it is
    enqueued, appended to `order` when it is dequeued, and the search stops as
    soon as `goal` is dequeued. The path is rebuilt from the predecessor map. */
module Bfs {
  import opened Wrappers
  import opened Grid

  /** The predecessor map is a tree rooted at `start`: `start` maps to `None`,
      every other key is an open cell mapped to an adjacent key, and the ghost
      `depth` labels each key with its number of steps from `start`. */
  ghost predicate ParentTree(img: Image, start: Cell, parent: map<Cell, Option<Cell>>, depth: map<Cell, nat>)
  {
    && start in parent && parent[start] == None
    && depth.Keys == parent.Keys && depth[start] == 0
    && (forall c {:trigger parent[c]} :: c in parent && c != start ==>
          && parent[c].Some? && parent[c].value in parent
          && Adjacent(parent[c].value, c) && IsOpen(img, c)
          && depth[c] == depth[parent[c].value] + 1)
  }

  /** The cells met by following predecessors from `c` back to `start`,
      listed from `start` to `c`. */
  ghost function ChainTo(img: Image, start: Cell, parent: map<Cell, Option<Cell>>, depth: map<Cell, nat>, c: Cell): seq<Cell>
    requires ParentTree(img, start, parent, depth) && c in parent
    decreases depth[c]
  {
    if c == start then [start]
    else ChainTo(img, start, parent, depth, parent[c].value) + [c]
  }

  /** `w` is a route from `start` to `c` whose `i`-th cell has depth `i`. */
  ghost predicate LevelRoute(img: Image, start: Cell, parent: map<Cell, Option<Cell>>, depth: map<Cell, nat>,
                             c: Cell, w: seq<Cell>)
    requires c in depth
  {
    && IsRoute(img, start, c, w) && |w| == depth[c] + 1
    && forall i :: 0 <= i < |w| ==> w[i] in parent && w[i] in depth && depth[w[i]] == i
  }

  /** The chain of predecessors is such a route. */
  lemma {:induction false} ChainIsRoute(img: Image, start: Cell, parent: map<Cell, Option<Cell>>, depth: map<Cell, nat>, c: Cell)
    requires ParentTree(img, start, parent, depth) && c in parent
    ensures LevelRoute(img, start, parent, depth, c, ChainTo(img, start, parent, depth, c))
    decreases depth[c]
  {
    if c != start {
      var p := parent[c].value;
      ChainIsRoute(img, start, parent, depth, p);
      var prefix := ChainTo(img, start, parent, depth, p);
      RouteExtend(img, start, p, prefix, c);
      var w := prefix + [c];
      forall i | 0 <= i < |w|
        ensures w[i] in parent && depth[w[i]] == i
      {
        if i < |prefix| {
          assert w[i] == prefix[i];
        }
      }
    }
  }

  /** Every key of the predecessor map is reachable from `start`. */
  lemma ChainReaches(img: Image, start: Cell, parent: map<Cell, Option<Cell>>, depth: map<Cell, nat>)
    requires ParentTree(img, start, parent, depth)
    ensures forall c :: c in parent ==> Reachable(img, start, c)
    ensures forall c :: c in parent ==> c == start || IsOpen(img, c)
  {
    forall c | c in parent
      ensures Reachable(img, start, c) && (c == start || IsOpen(img, c))
    {
      ChainIsRoute(img, start, parent, depth, c);
      var w := ChainTo(img, start, parent, depth, c);
    }
  }

  /** Depths grow by at most one from every expanded cell to each open
      neighbour, which is already known. */
  ghost predicate ExpandedUpTo(img: Image, parent: map<Cell, Option<Cell>>, depth: map<Cell, nat>, x: Cell, n: nat)
    requires depth.Keys == parent.Keys && x in parent
  {
    forall k :: 0 <= k < n && k < |DIRECTIONS| && IsOpen(img, Step(x, k)) ==>
      Step(x, k) in parent && depth[Step(x, k)] <= depth[x] + 1
  }

  /** The predecessor map of the search: a tree rooted at `start` whose keys
      are pixels of the image. */
  ghost predicate Known(img: Image, start: Cell, parent: map<Cell, Option<Cell>>, depth: map<Cell, nat>)
  {
    && IsGrid(img) && InBounds(img, start)
    && ParentTree(img, start, parent, depth)
    && (forall c :: c in parent ==> InBounds(img, c))
  }

  /** Cells already dequeued are in `order`, cells waiting are in `q`, and
      together they are exactly the keys of `parent`, each once. */
  ghost predicate Queued(start: Cell, goal: Cell, parent: map<Cell, Option<Cell>>, order: seq<Cell>, q: seq<Cell>)
  {
    && NoDup(order + q)
    && (forall c :: c in parent <==> c in order || c in q)
    && (order == [] ==> q == [start])
    && (order != [] ==> order[0] == start)
    && goal !in order
  }

  /** The queue holds depths `level` and `level + 1` in non-decreasing order;
      dequeued cells have depth at most `level`. */
  ghost predicate Levels(depth: map<Cell, nat>, order: seq<Cell>, q: seq<Cell>, level: nat)
    requires forall c :: c in order || c in q ==> c in depth
  {
    && (forall x :: x in order ==> depth[x] <= level)
    && (forall y :: y in q ==> level <= depth[y] <= level + 1)
    && (forall i, j :: 0 <= i < j < |q| ==> depth[q[i]] <= depth[q[j]])
  }

  /** Every dequeued cell has had all of its open neighbours discovered. */
  ghost predicate Closed(img: Image, parent: map<Cell, Option<Cell>>, depth: map<Cell, nat>, order: seq<Cell>)
    requires depth.Keys == parent.Keys
  {
    && (forall x :: x in order ==> x in parent)
    && forall x {:trigger ExpandedUpTo(img, parent, depth, x, |DIRECTIONS|)} ::
         x in order ==> ExpandedUpTo(img, parent, depth, x, |DIRECTIONS|)
  }

  /** The state at the head of the search loop. */
  ghost predicate Frontier(img: Image, start: Cell, goal: Cell, parent: map<Cell, Option<Cell>>,
                           depth: map<Cell, nat>, order: seq<Cell>, q: seq<Cell>, level: nat)
  {
    && Known(img, start, parent, depth)
    && Queued(start, goal, parent, order, q)
    && Levels(depth, order, q, level)
    && Closed(img, parent, depth, order)
  }

  /** The `visited` array marks exactly the keys of the predecessor map. */
  ghost predicate VisitedMatches(img: Image, visited: array2<bool>, parent: map<Cell, Option<Cell>>)
    reads visited
  {
    && visited.Length0 == Height(img) && visited.Length1 == Width(img)
    && forall i, j :: 0 <= i < visited.Length0 && 0 <= j < visited.Length1 ==>
         (visited[i, j] <==> Cell(i, j) in parent)
  }

  /** The first `j` cells of `w` have all been dequeued. */
  ghost predicate Dequeued(w: seq<Cell>, order: seq<Cell>, j: nat)
  {
    forall m :: 0 <= m < j && m < |w| ==> w[m] in order
  }

  /** Walking a route whose first `j` cells were all dequeued, the `j`-th cell
      is known with depth at most `j`. */
  lemma {:induction false} PrefixDepth(img: Image, start: Cell, parent: map<Cell, Option<Cell>>,
                                       depth: map<Cell, nat>, order: seq<Cell>, c: Cell, w: seq<Cell>, j: nat)
    requires depth.Keys == parent.Keys && start in parent && depth[start] == 0
    requires Closed(img, parent, depth, order)
    requires IsRoute(img, start, c, w) && j < |w| && Dequeued(w, order, j)
    ensures w[j] in parent && depth[w[j]] <= j
  {
    if j > 0 {
      PrefixDepth(img, start, parent, depth, order, c, w, j - 1);
      var x := w[j - 1];
      assert x in order && Adjacent(x, w[j]) && IsOpen(img, w[j]);
      var k := DirectionTo(x, w[j]);
      assert ExpandedUpTo(img, parent, depth, x, |DIRECTIONS|);
      assert Step(x, k) in parent && depth[Step(x, k)] <= depth[x] + 1;
    }
  }

  /** A route that ends outside the dequeued cells leaves them somewhere: at a
      queued cell whose depth is at most its position on the route, given that
      every known cell is dequeued or queued and that each cell after a
      dequeued prefix is known with depth at most its position. */
  lemma {:induction false} RouteMeetsQueue(parent: map<Cell, Option<Cell>>, depth: map<Cell, nat>,
                                           order: seq<Cell>, q: seq<Cell>, w: seq<Cell>, j: nat)
    requires forall x :: x in parent ==> x in order || x in q
    requires forall m {:trigger Dequeued(w, order, m)} ::
               0 <= m < |w| && Dequeued(w, order, m) ==> w[m] in parent && w[m] in depth && depth[w[m]] <= m
    requires j < |w| && w[|w| - 1] !in order && Dequeued(w, order, j)
    ensures exists m :: j <= m < |w| && w[m] in q && w[m] in depth && depth[w[m]] <= m
    decreases |w| - j
  {
    assert w[j] in parent && depth[w[j]] <= j;
    if w[j] in order {
      RouteMeetsQueue(parent, depth, order, q, w, j + 1);
    }
  }

  /** When `goal` is at the head of the queue, no route from `start` to `goal`
      is shorter than its depth. */
  lemma HeadIsShortest(img: Image, start: Cell, goal: Cell, parent: map<Cell, Option<Cell>>,
                       depth: map<Cell, nat>, order: seq<Cell>, q: seq<Cell>, level: nat, w: seq<Cell>)
    requires Frontier(img, start, goal, parent, depth, order, q, level)
    requires q != [] && q[0] == goal
    requires IsRoute(img, start, goal, w)
    ensures depth[goal] <= |w| - 1
  {
    forall m | 0 <= m < |w| && Dequeued(w, order, m)
      ensures w[m] in parent && w[m] in depth && depth[w[m]] <= m
    {
      PrefixDepth(img, start, parent, depth, order, goal, w, m);
    }
    RouteMeetsQueue(parent, depth, order, q, w, 0);
    var m :| 0 <= m < |w| && w[m] in q && depth[w[m]] <= m;
    var i :| 0 <= i < |q| && q[i] == w[m];
    if i > 0 {
      assert depth[q[0]] <= depth[q[i]];
    }
  }

  /** Follow the predecessor map from `goal` back to `start`
      (`while cur is not None`). `bfs_pixels` appends from `goal` backwards
      and reverses with `[::-1]`; prepending builds the same list. */
  method Reconstruct(ghost img: Image, start: Cell, parent: map<Cell, Option<Cell>>,
                     ghost depth: map<Cell, nat>, goal: Cell) returns (path: seq<Cell>)
    requires ParentTree(img, start, parent, depth) && goal in parent
    ensures path == ChainTo(img, start, parent, depth, goal)
  {
    path := [];
    var cur: Option<Cell> := Some(goal);
    while cur.Some?
      invariant cur.Some? ==> cur.value in parent && ChainTo(img, start, parent, depth, cur.value) + path == ChainTo(img, start, parent, depth, goal)
      invariant cur.None? ==> path == ChainTo(img, start, parent, depth, goal)
      decreases if cur.Some? then depth[cur.value] + 1 else 0
    {
      var c := cur.value;
      if c != start {
        ConcatAssoc(ChainTo(img, start, parent, depth, parent[c].value), [c], path);
      }
      path := [c] + path;
      cur := parent[c];
    }
  }

  /** The keys of the predecessor map are pixels of the image. */
  ghost predicate KeysInBounds(img: Image, parent: map<Cell, Option<Cell>>)
  {
    forall c :: c in parent ==> InBounds(img, c)
  }

  /** Part-way through expanding `cur`: the keys are the old ones plus the
      cells `added` so far, each new and one level below `cur`, and the old
      keys keep their depths. */
  ghost predicate Grown(parent: map<Cell, Option<Cell>>, depth: map<Cell, nat>,
                        parent': map<Cell, Option<Cell>>, depth': map<Cell, nat>, added: seq<Cell>, cur: Cell)
    requires depth.Keys == parent.Keys && depth'.Keys == parent'.Keys && cur in parent
  {
    && (forall c :: c in parent' <==> c in parent || c in added)
    && (forall c {:trigger depth'[c]} :: c in parent ==> depth'[c] == depth[c])
    && (forall i :: 0 <= i < |added| ==> added[i] !in parent && depth'[added[i]] == depth[cur] + 1)
    && NoDup(added)
    && (forall c :: c in parent' ==> depth'[c] <= depth[cur] + 1)
  }

  /** What holds after the first `k` directions of the expansion of `cur`. */
  ghost predicate ExpandInv(img: Image, start: Cell, cur: Cell,
                            parent: map<Cell, Option<Cell>>, depth: map<Cell, nat>,
                            parent': map<Cell, Option<Cell>>, depth': map<Cell, nat>,
                            added: seq<Cell>, k: nat)
  {
    && IsGrid(img) && depth.Keys == parent.Keys && cur in parent
    && ParentTree(img, start, parent', depth')
    && KeysInBounds(img, parent')
    && Grown(parent, depth, parent', depth', added, cur)
    && ExpandedUpTo(img, parent', depth', cur, k)
  }

  lemma ExpandStart(img: Image, start: Cell, goal: Cell, parent: map<Cell, Option<Cell>>, depth: map<Cell, nat>,
                    order: seq<Cell>, cur: Cell, q: seq<Cell>, level: nat)
    requires Frontier(img, start, goal, parent, depth, order, [cur] + q, level)
    ensures ExpandInv(img, start, cur, parent, depth, parent, depth, [], 0)
    ensures cur !in order && InBounds(img, cur)
  {
    NoDupParts(order, [cur] + q);
    assert cur in [cur] + q;
    forall c | c in parent
      ensures depth[c] <= depth[cur] + 1
    {
      if c in order {
      } else {
        assert c in [cur] + q;
      }
    }
  }

  /** Hanging a new open cell `n` below an adjacent key `p` keeps the
      predecessor map a tree. */
  lemma ExtendTree(img: Image, start: Cell, parent: map<Cell, Option<Cell>>, depth: map<Cell, nat>, p: Cell, n: Cell)
    requires ParentTree(img, start, parent, depth)
    requires p in parent && n !in parent && Adjacent(p, n) && IsOpen(img, n)
    ensures ParentTree(img, start, parent[n := Some(p)], depth[n := depth[p] + 1])
  {
  }

  /** Adding `n` below `cur` grows the key set by one new cell. */
  lemma GrownAdd(parent: map<Cell, Option<Cell>>, depth: map<Cell, nat>,
                 parent': map<Cell, Option<Cell>>, depth': map<Cell, nat>, added: seq<Cell>, cur: Cell, n: Cell)
    requires depth.Keys == parent.Keys && depth'.Keys == parent'.Keys && cur in parent
    requires Grown(parent, depth, parent', depth', added, cur)
    requires n !in parent'
    ensures Grown(parent, depth, parent'[n := Some(cur)], depth'[n := depth[cur] + 1], added + [n], cur)
  {
    var d2 := depth'[n := depth[cur] + 1];
    forall i | 0 <= i < |added| + 1
      ensures (added + [n])[i] !in parent && d2[(added + [n])[i]] == depth[cur] + 1
    {
      if i < |added| {
        assert (added + [n])[i] == added[i];
      }
    }
    NoDupConcat(added, [n]);
  }

  /** One direction of the expansion whose neighbour is an open pixel not yet
      known: it becomes a key one level below `cur`. */
  lemma ExpandAdd(img: Image, start: Cell, cur: Cell,
                  parent: map<Cell, Option<Cell>>, depth: map<Cell, nat>,
                  parent': map<Cell, Option<Cell>>, depth': map<Cell, nat>,
                  added: seq<Cell>, k: nat, n: Cell)
    requires k < |DIRECTIONS|
    requires ExpandInv(img, start, cur, parent, depth, parent', depth', added, k)
    requires n == Step(cur, k) && IsOpen(img, n) && n !in parent'
    ensures ExpandInv(img, start, cur, parent, depth, parent'[n := Some(cur)], depth'[n := depth[cur] + 1], added + [n], k + 1)
  {
    StepIsAdjacent(cur, k);
    assert depth'[cur] == depth[cur];
    ExtendTree(img, start, parent', depth', cur, n);
    GrownAdd(parent, depth, parent', depth', added, cur, n);
    assert ExpandedUpTo(img, parent'[n := Some(cur)], depth'[n := depth[cur] + 1], cur, k + 1);
  }

  /** One direction of the expansion whose neighbour is blocked, outside the
      image or already known: nothing changes. */
  lemma ExpandSkip(img: Image, start: Cell, cur: Cell,
                   parent: map<Cell, Option<Cell>>, depth: map<Cell, nat>,
                   parent': map<Cell, Option<Cell>>, depth': map<Cell, nat>,
                   added: seq<Cell>, k: nat)
    requires k < |DIRECTIONS|
    requires ExpandInv(img, start, cur, parent, depth, parent', depth', added, k)
    requires !(IsOpen(img, Step(cur, k)) && Step(cur, k) !in parent')
    ensures ExpandInv(img, start, cur, parent, depth, parent', depth', added, k + 1)
  {
    StepIsAdjacent(cur, k);
  }

  /** After the expansion the dequeued `cur` joins `order` and the added
      cells join the queue, still each once and covering the keys. */
  lemma FinishQueued(start: Cell, goal: Cell, parent: map<Cell, Option<Cell>>, parent': map<Cell, Option<Cell>>,
                     order: seq<Cell>, cur: Cell, q: seq<Cell>, added: seq<Cell>)
    requires Queued(start, goal, parent, order, [cur] + q)
    requires (forall c :: c in parent' <==> c in parent || c in added) && NoDup(added)
    requires forall i :: 0 <= i < |added| ==> added[i] !in parent
    requires cur != goal
    ensures Queued(start, goal, parent', order + [cur], q + added)
  {
    assert cur in [cur] + q;
    assert order + ([cur] + q) == (order + [cur]) + q;
    NoDupParts(order + [cur], q);
    forall c | c in order + [cur] + q
      ensures c in parent
    {
      if c in order {
      } else {
        assert c in [cur] + q;
      }
    }
    NoDupConcat((order + [cur]) + q, added);
    assert (order + [cur]) + q + added == (order + [cur]) + (q + added);
    forall c | c in parent'
      ensures c in order + [cur] || c in q + added
    {
      if c !in parent {
        assert c in added;
      } else if c !in order && c != cur {
        assert c in [cur] + q;
      }
    }
  }

  /** The depths after the expansion: the queue now runs from the depth of
      `cur` to one more, still in order. */
  lemma FinishLevels(depth: map<Cell, nat>, depth': map<Cell, nat>,
                     order: seq<Cell>, cur: Cell, q: seq<Cell>, added: seq<Cell>, level: nat)
    requires forall c :: c in order || c in [cur] + q ==> c in depth
    requires Levels(depth, order, [cur] + q, level)
    requires depth.Keys <= depth'.Keys
    requires forall c {:trigger depth'[c]} :: c in depth ==> depth'[c] == depth[c]
    requires forall i :: 0 <= i < |added| ==> added[i] in depth' && depth'[added[i]] == depth[cur] + 1
    ensures forall c :: c in order + [cur] || c in q + added ==> c in depth'
    ensures Levels(depth', order + [cur], q + added, depth[cur])
  {
    assert cur in [cur] + q;
    assert ([cur] + q)[0] == cur;
    forall y | y in q
      ensures y in depth && depth[cur] <= depth[y] <= level + 1
    {
      var j :| 0 <= j < |q| && q[j] == y;
      assert ([cur] + q)[j + 1] == y;
    }
    forall c | c in order + [cur] || c in q + added
      ensures c in depth'
    {
      if c in added {
        var i :| 0 <= i < |added| && added[i] == c;
      }
    }
    var q' := q + added;
    forall i, j | 0 <= i < j < |q'|
      ensures depth'[q'[i]] <= depth'[q'[j]]
    {
      if j < |q| {
        assert ([cur] + q)[i + 1] == q[i] && ([cur] + q)[j + 1] == q[j];
      } else if i < |q| {
        assert q'[i] in q;
        assert q'[j] == added[j - |q|];
      } else {
        assert q'[i] == added[i - |q|] && q'[j] == added[j - |q|];
      }
    }
  }

  /** Dequeued cells stay fully expanded, and `cur` now is too. */
  lemma FinishClosed(img: Image, parent: map<Cell, Option<Cell>>, depth: map<Cell, nat>,
                     parent': map<Cell, Option<Cell>>, depth': map<Cell, nat>, order: seq<Cell>, cur: Cell)
    requires depth.Keys == parent.Keys && depth'.Keys == parent'.Keys && parent.Keys <= parent'.Keys
    requires Closed(img, parent, depth, order)
    requires forall c {:trigger depth'[c]} :: c in parent ==> depth'[c] == depth[c]
    requires cur in parent' && ExpandedUpTo(img, parent', depth', cur, |DIRECTIONS|)
    ensures Closed(img, parent', depth', order + [cur])
  {
    forall x | x in order + [cur]
      ensures x in parent' && ExpandedUpTo(img, parent', depth', x, |DIRECTIONS|)
    {
      if x != cur {
        assert ExpandedUpTo(img, parent, depth, x, |DIRECTIONS|);
      }
    }
  }

  /** After all four directions the frontier invariant holds again, at the
      depth of `cur`. */
  lemma ExpandFinish(img: Image, start: Cell, goal: Cell, parent: map<Cell, Option<Cell>>, depth: map<Cell, nat>,
                     order: seq<Cell>, cur: Cell, q: seq<Cell>, level: nat,
                     parent': map<Cell, Option<Cell>>, depth': map<Cell, nat>, added: seq<Cell>)
    requires Frontier(img, start, goal, parent, depth, order, [cur] + q, level)
    requires ExpandInv(img, start, cur, parent, depth, parent', depth', added, |DIRECTIONS|)
    requires cur != goal
    ensures Frontier(img, start, goal, parent', depth', order + [cur], q + added, depth[cur])
  {
    FinishQueued(start, goal, parent, parent', order, cur, q, added);
    FinishLevels(depth, depth', order, cur, q, added, level);
    FinishClosed(img, parent, depth, parent', depth', order, cur);
  }

  /** The body of the `for dx, dy in directions` loop for direction `k`: an
      in-bounds, unvisited 255-neighbour of `cur` is marked visited, given
      `cur` as predecessor and appended to the queue. */
  method Visit(img: Image, visited: array2<bool>, start: Cell, cur: Cell, k: nat,
               ghost parent0: map<Cell, Option<Cell>>, ghost depth0: map<Cell, nat>, ghost q0: seq<Cell>,
               parent: map<Cell, Option<Cell>>, q: seq<Cell>, ghost depth: map<Cell, nat>, ghost added: seq<Cell>)
    returns (parent': map<Cell, Option<Cell>>, q': seq<Cell>, ghost depth': map<Cell, nat>, ghost added': seq<Cell>)
    requires k < |DIRECTIONS|
    requires ExpandInv(img, start, cur, parent0, depth0, parent, depth, added, k)
    requires VisitedMatches(img, visited, parent)
    requires q == q0 + added
    modifies visited
    ensures ExpandInv(img, start, cur, parent0, depth0, parent', depth', added', k + 1)
    ensures VisitedMatches(img, visited, parent')
    ensures q' == q0 + added'
    ensures IsOpen(img, Step(cur, k)) && Step(cur, k) !in parent ==>
              parent' == parent[Step(cur, k) := Some(cur)] && q' == q + [Step(cur, k)]
    ensures !(IsOpen(img, Step(cur, k)) && Step(cur, k) !in parent) ==> parent' == parent && q' == q
  {
    var d := DIRECTIONS[k];
    var nx, ny := cur.row + d.0, cur.col + d.1;
    assert Step(cur, k) == Cell(nx, ny);
    if 0 <= nx < Height(img) && 0 <= ny < Width(img) && !visited[nx, ny] && img[nx][ny] == FREE_PIXEL {
      var n := Cell(nx, ny);
      ExpandAdd(img, start, cur, parent0, depth0, parent, depth, added, k, n);
      visited[nx, ny] := true;
      parent' := parent[n := Some(cur)];
      depth' := depth[n := depth0[cur] + 1];
      q' := q + [n];
      added' := added + [n];
      ConcatAssoc(q0, added, [n]);
    } else {
      ExpandSkip(img, start, cur, parent0, depth0, parent, depth, added, k);
      parent', q', depth', added' := parent, q, depth, added;
    }
  }

  /** The `for dx, dy in directions` loop over the four neighbours of `cur`. */
  method Expand(img: Image, visited: array2<bool>, start: Cell, cur: Cell,
                parent: map<Cell, Option<Cell>>, q: seq<Cell>, ghost depth: map<Cell, nat>)
    returns (parent': map<Cell, Option<Cell>>, q': seq<Cell>, ghost depth': map<Cell, nat>, ghost added: seq<Cell>)
    requires ExpandInv(img, start, cur, parent, depth, parent, depth, [], 0)
    requires VisitedMatches(img, visited, parent)
    modifies visited
    ensures ExpandInv(img, start, cur, parent, depth, parent', depth', added, |DIRECTIONS|)
    ensures VisitedMatches(img, visited, parent')
    ensures q' == q + added
  {
    parent', q', depth' := parent, q, depth;
    added := [];
    for k := 0 to |DIRECTIONS|
      invariant ExpandInv(img, start, cur, parent, depth, parent', depth', added, k)
      invariant VisitedMatches(img, visited, parent')
      invariant q' == q + added
    {
      parent', q', depth', added := Visit(img, visited, start, cur, k, parent, depth, q, parent', q', depth', added);
    }
  }

  /** The rest of one pass of the `while q` loop, once `cur` was dequeued
      and is not `goal`: expand it, which restores the frontier invariant one
      level on. */
  method Advance(img: Image, visited: array2<bool>, start: Cell, goal: Cell, cur: Cell,
                 parent: map<Cell, Option<Cell>>, q: seq<Cell>, ghost depth: map<Cell, nat>,
                 ghost order: seq<Cell>, ghost level: nat)
    returns (parent': map<Cell, Option<Cell>>, q': seq<Cell>, ghost depth': map<Cell, nat>, ghost level': nat)
    requires Frontier(img, start, goal, parent, depth, order, [cur] + q, level)
    requires VisitedMatches(img, visited, parent) && cur != goal
    modifies visited
    ensures Frontier(img, start, goal, parent', depth', order + [cur], q', level')
    ensures VisitedMatches(img, visited, parent')
    ensures cur !in order && InBounds(img, cur)
  {
    ExpandStart(img, start, goal, parent, depth, order, cur, q, level);
    ghost var added;
    parent', q', depth', added := Expand(img, visited, start, cur, parent, q, depth);
    ExpandFinish(img, start, goal, parent, depth, order, cur, q, level, parent', depth', added);
    level' := depth[cur];
  }

  /** The search starts with `start` alone in the queue. */
  lemma InitFrontier(img: Image, start: Cell, goal: Cell)
    requires IsGrid(img) && InBounds(img, start)
    ensures Frontier(img, start, goal, map[start := None], map[start := 0], [], [start], 0)
  {
    assert [] + [start] == [start];
  }

  /** The dequeue order produced by the search: it starts at `start` and
      lists known cells, each once. */
  ghost predicate OrderFacts(start: Cell, parent: map<Cell, Option<Cell>>, order: seq<Cell>)
  {
    |order| >= 1 && order[0] == start && NoDup(order) && forall c :: c in order ==> c in parent
  }

  /** Dequeuing `goal` ends the search with `goal` last in the order. */
  lemma StopAtGoal(img: Image, start: Cell, goal: Cell, parent: map<Cell, Option<Cell>>,
                   depth: map<Cell, nat>, order: seq<Cell>, q: seq<Cell>, level: nat)
    requires Frontier(img, start, goal, parent, depth, order, q, level)
    requires q != [] && q[0] == goal
    ensures OrderFacts(start, parent, order + [goal]) && goal in parent
    ensures start == goal ==> order == []
  {
    assert goal in q;
    NoDupParts(order, q);
    NoDupConcat(order, [goal]);
    if order != [] {
      assert order[0] == start;
    } else {
      assert q == [start];
    }
    forall c | c in order + [goal]
      ensures c in parent
    {
    }
  }

  /** An empty queue means every reachable cell has been dequeued. */
  lemma Exhausted(img: Image, start: Cell, goal: Cell, parent: map<Cell, Option<Cell>>,
                  depth: map<Cell, nat>, order: seq<Cell>, level: nat)
    requires Frontier(img, start, goal, parent, depth, order, [], level)
    ensures OrderFacts(start, parent, order) && goal !in parent
    ensures forall c :: Reachable(img, start, c) ==> c in order
  {
    assert order + [] == order;
    forall c | Reachable(img, start, c)
      ensures c in order
    {
      var w :| IsRoute(img, start, c, w);
      forall x, k | x in Elems(order) && 0 <= k < |DIRECTIONS| && IsOpen(img, Step(x, k))
        ensures Step(x, k) in Elems(order)
      {
        assert ExpandedUpTo(img, parent, depth, x, |DIRECTIONS|);
      }
      ClosedSetHoldsRoute(img, start, Elems(order), c, w);
    }
  }

  /** The `visited` array of the search, all false but at `start`. */
  method NewVisited(img: Image, start: Cell) returns (visited: array2<bool>)
    requires IsGrid(img) && InBounds(img, start)
    ensures fresh(visited) && VisitedMatches(img, visited, map[start := None])
  {
    visited := new bool[Height(img), Width(img)]((i, j) => false);
    visited[start.row, start.col] := true;
  }

  /** How the search loop ends: either `goal` was dequeued from the head of
      a queue satisfying the frontier invariant, or the queue ran empty with
      `goal` never discovered. */
  ghost predicate SearchDone(img: Image, start: Cell, goal: Cell, parent: map<Cell, Option<Cell>>,
                             depth: map<Cell, nat>, order: seq<Cell>,
                             lastOrder: seq<Cell>, lastQ: seq<Cell>, lastLevel: nat)
  {
    && Known(img, start, parent, depth)
    && OrderFacts(start, parent, order)
    && (goal in parent ==>
          && Frontier(img, start, goal, parent, depth, lastOrder, lastQ, lastLevel)
          && lastQ != [] && lastQ[0] == goal && order == lastOrder + [goal])
    && (goal !in parent ==> forall c :: Reachable(img, start, c) ==> c in order)
    && (start == goal ==> order == [start])
  }

  /** The `while q` loop of `bfs_pixels` (lines 11-30): dequeue, record,
      stop at `goal`, otherwise expand. */
  method Search(img: Image, start: Cell, goal: Cell)
    returns (parent: map<Cell, Option<Cell>>, order: seq<Cell>, ghost depth: map<Cell, nat>,
             ghost lastOrder: seq<Cell>, ghost lastQ: seq<Cell>, ghost lastLevel: nat)
    requires IsGrid(img) && InBounds(img, start)
    ensures SearchDone(img, start, goal, parent, depth, order, lastOrder, lastQ, lastLevel)
  {
    var height, width := Height(img), Width(img);
    var visited := NewVisited(img, start);
    parent := map[start := None];
    order := [];
    var q := [start];
    depth := map[start := 0];
    ghost var level: nat := 0;
    InitFrontier(img, start, goal);
    lastOrder, lastQ, lastLevel := order, q, level;
    ghost var broke := false;
    while q != []
      invariant Frontier(img, start, goal, parent, depth, order, q, level)
      invariant VisitedMatches(img, visited, parent)
      decreases AllCells(height, width) - Elems(order)
    {
      lastOrder, lastQ, lastLevel := order, q, level;
      var cur := q[0];
      assert q == [cur] + q[1..];
      q := q[1..];
      order := order + [cur];
      if cur == goal {
        broke := true;
        break;
      }
      parent, q, depth, level := Advance(img, visited, start, goal, cur, parent, q, depth, lastOrder, level);
      ListOneMore(height, width, lastOrder, cur);
    }
    if broke {
      StopAtGoal(img, start, goal, parent, depth, lastOrder, lastQ, lastLevel);
    } else {
      Exhausted(img, start, goal, parent, depth, order, level);
    }
  }

  /** `bfs_pixels`: breadth-first search from `start`, stopping when `goal` is
      dequeued. Returns the path (if `goal` was reached) and the order in which
      cells were dequeued. The path is a shortest route; without one, every
      reachable cell was dequeued. */
  method BfsPixels(img: Image, start: Cell, goal: Cell) returns (path: Option<seq<Cell>>, order: seq<Cell>)
    requires IsGrid(img) && InBounds(img, start)
    ensures |order| >= 1 && order[0] == start && NoDup(order)
    ensures forall c :: c in order ==> c == start || IsOpen(img, c)
    ensures forall c :: c in order ==> Reachable(img, start, c)
    ensures goal in order ==> order[|order| - 1] == goal
    ensures path.Some? <==> goal in order
    ensures path.Some? <==> Reachable(img, start, goal)
    ensures path.None? ==> forall c :: Reachable(img, start, c) ==> c in order
    ensures path.Some? ==> IsRoute(img, start, goal, path.value) && NoDup(path.value)
    ensures path.Some? ==> forall w :: IsRoute(img, start, goal, w) ==> |path.value| <= |w|
    ensures start == goal ==> path == Some([start]) && order == [start]
  {
    var parent;
    ghost var depth, lastOrder, lastQ, lastLevel;
    parent, order, depth, lastOrder, lastQ, lastLevel := Search(img, start, goal);
    ChainReaches(img, start, parent, depth);
    if goal !in parent {
      return None, order;
    }
    var p := Reconstruct(img, start, parent, depth, goal);
    path := Some(p);
    ShortestChain(img, start, goal, parent, depth, lastOrder, lastQ, lastLevel);
  }

  /** The route rebuilt from the predecessor map when `goal` reaches the head
      of the queue is as short as any route, and visits no cell twice. */
  lemma ShortestChain(img: Image, start: Cell, goal: Cell, parent: map<Cell, Option<Cell>>,
                      depth: map<Cell, nat>, order: seq<Cell>, q: seq<Cell>, level: nat)
    requires Frontier(img, start, goal, parent, depth, order, q, level)
    requires q != [] && q[0] == goal
    ensures goal in parent
    ensures ShortestRoute(img, start, goal, ChainTo(img, start, parent, depth, goal))
  {
    assert goal in q;
    ChainIsRoute(img, start, parent, depth, goal);
    var p := ChainTo(img, start, parent, depth, goal);
    forall w | IsRoute(img, start, goal, w)
      ensures |p| <= |w|
    {
      HeadIsShortest(img, start, goal, parent, depth, order, q, level, w);
    }
    forall i, j | 0 <= i < j < |p|
      ensures p[i] != p[j]
    {
      assert depth[p[i]] == i && depth[p[j]] == j;
    }
  }
}
