/** The breadth-first search of main.cpp:63-100 and the parent-chain walk that
    marks the route it finds. */
module Pathfinder {
  import opened Grid
  import opened Routes

  /** The search state at the head of the main loop. `dist` maps every visited
      cell to its depth in the search, `closed` holds the cells already
      dequeued and expanded, and `q` is the FIFO queue. The queue holds cells of
      depth d followed by cells of depth d + 1 (the first m entries are at depth
      d); every expanded cell is at most d deep, and all its enterable
      neighbours have been visited at most one level deeper. */
  ghost predicate Frontier(open: set<Cell>, s: Cell, dist: map<Cell, nat>, closed: set<Cell>, q: seq<Cell>, d: nat, m: nat)
  {
    && s in dist && dist[s] == 0
    && (forall c :: c in dist <==> c in closed || c in q)
    && m <= |q|
    && (forall i :: 0 <= i < |q| ==> dist[q[i]] == if i < m then d else d + 1)
    && (forall c :: c in closed ==> dist[c] <= d)
    && (forall c, n {:trigger Adjacent(c, n)} :: c in closed && n in open && Adjacent(c, n) ==> n in dist && dist[n] <= dist[c] + 1)
  }

  /** The search state inside the neighbour loop: u, at depth d, has been
      dequeued and its first k neighbours have been handled. */
  ghost predicate Expanding(open: set<Cell>, s: Cell, dist: map<Cell, nat>, closed: set<Cell>, u: Cell, q: seq<Cell>, d: nat, m: nat, k: nat)
  {
    && k <= 4
    && s in dist && dist[s] == 0
    && u in dist && dist[u] == d
    && (forall c :: c in dist <==> c in closed || c == u || c in q)
    && m <= |q|
    && (forall i :: 0 <= i < |q| ==> dist[q[i]] == if i < m then d else d + 1)
    && (forall c :: c in closed ==> dist[c] <= d)
    && (forall c, n {:trigger Adjacent(c, n)} :: c in closed && n in open && Adjacent(c, n) ==> n in dist && dist[n] <= dist[c] + 1)
    && (forall i :: 0 <= i < k && Neighbour(u, i) in open ==> Neighbour(u, i) in dist && dist[Neighbour(u, i)] <= d + 1)
  }

  /** The parent links the search records: the start has none ({-1, -1}); every
      other visited cell may be entered, and its parent is a visited 4-neighbour
      exactly one level shallower. */
  ghost predicate ParentTree(open: set<Cell>, s: Cell, dist: map<Cell, nat>, parent: array2<Cell>)
    reads parent
  {
    && s in dist && dist[s] == 0
    && InBounds(s, parent.Length0, parent.Length1) && parent[s.0, s.1] == (-1, -1)
    && (forall c :: c in dist ==> InBounds(c, parent.Length0, parent.Length1) && (c != s ==> c in open))
    && forall x, y {:trigger parent[x, y]} :: (x, y) in dist && (x, y) != s ==>
         && parent[x, y] in dist
         && Adjacent(parent[x, y], (x, y))
         && dist[(x, y)] == dist[parent[x, y]] + 1
  }

  lemma InitialFrontier(open: set<Cell>, s: Cell)
    ensures Frontier(open, s, map[s := 0], {}, [s], 0, 1)
  {
  }

  /** When the cells of depth d are used up, the queue holds one level only. */
  lemma NextLevel(open: set<Cell>, s: Cell, dist: map<Cell, nat>, closed: set<Cell>, q: seq<Cell>, d: nat)
    requires Frontier(open, s, dist, closed, q, d, 0)
    ensures Frontier(open, s, dist, closed, q, d + 1, |q|)
  {
  }

  /** Dequeuing the head starts its expansion. */
  lemma StartExpanding(open: set<Cell>, s: Cell, dist: map<Cell, nat>, closed: set<Cell>, q: seq<Cell>, d: nat, m: nat)
    requires Frontier(open, s, dist, closed, q, d, m) && 0 < m
    ensures Expanding(open, s, dist, closed, q[0], q[1..], d, m - 1, 0)
  {
  }

  /** Visiting an unvisited enterable neighbour: it is queued one level deeper. */
  lemma VisitNeighbour(open: set<Cell>, s: Cell, dist: map<Cell, nat>, closed: set<Cell>, u: Cell, q: seq<Cell>, d: nat, m: nat, k: nat)
    requires Expanding(open, s, dist, closed, u, q, d, m, k) && k < 4
    requires Neighbour(u, k) in open && Neighbour(u, k) !in dist
    ensures Expanding(open, s, dist[Neighbour(u, k) := d + 1], closed, u, q + [Neighbour(u, k)], d, m, k + 1)
  {
  }

  /** Skipping a neighbour that is a wall, outside the grid or already visited. */
  lemma SkipNeighbour(open: set<Cell>, s: Cell, dist: map<Cell, nat>, closed: set<Cell>, u: Cell, q: seq<Cell>, d: nat, m: nat, k: nat)
    requires Expanding(open, s, dist, closed, u, q, d, m, k) && k < 4
    requires Neighbour(u, k) !in open || Neighbour(u, k) in dist
    ensures Expanding(open, s, dist, closed, u, q, d, m, k + 1)
  {
  }

  /** Once all four neighbours are handled the cell counts as expanded. */
  lemma FinishExpanding(open: set<Cell>, s: Cell, dist: map<Cell, nat>, closed: set<Cell>, u: Cell, q: seq<Cell>, d: nat, m: nat)
    requires Expanding(open, s, dist, closed, u, q, d, m, 4)
    ensures Frontier(open, s, dist, closed + {u}, q, d, m)
  {
    forall c, n | c in closed + {u} && n in open && Adjacent(c, n)
      ensures n in dist && dist[n] <= dist[c] + 1
    {
      if c == u {
        AdjacentIsNeighbour(u, n);
      }
    }
  }

  /** Any route from a visited cell to a cell not yet expanded passes through
      the queue, so the head of the queue is no deeper than the route is long. */
  lemma {:induction false} FrontierBound(open: set<Cell>, s: Cell, dist: map<Cell, nat>, closed: set<Cell>, q: seq<Cell>, d: nat, m: nat, p: seq<Cell>)
    requires Frontier(open, s, dist, closed, q, d, m) && q != []
    requires IsRoute(open, p) && p[0] in dist && p[|p| - 1] !in closed
    ensures dist[q[0]] <= dist[p[0]] + |p| - 1
    decreases |p|
  {
    if p[0] !in closed {
      var i :| 0 <= i < |q| && q[i] == p[0];
      assert dist[q[0]] <= dist[q[i]];
    } else {
      assert Adjacent(p[0], p[1]) && p[1] in open;
      RouteTail(open, p);
      FrontierBound(open, s, dist, closed, q, d, m, p[1..]);
    }
  }

  /** When the target reaches the head of the queue, its depth is the length
      of a shortest route to it. */
  lemma HeadIsNearest(open: set<Cell>, s: Cell, t: Cell, dist: map<Cell, nat>, closed: set<Cell>, q: seq<Cell>, d: nat, m: nat)
    requires Frontier(open, s, dist, closed, q, d, m) && q != [] && q[0] == t && t !in closed
    ensures t in dist
    ensures forall p :: IsRoute(open, p) && Connects(p, s, t) ==> dist[t] <= |p| - 1
  {
    forall p | IsRoute(open, p) && Connects(p, s, t) ensures dist[t] <= |p| - 1 {
      FrontierBound(open, s, dist, closed, q, d, m, p);
    }
  }

  /** With the queue empty, the expanded cells are closed under stepping to an
      enterable neighbour; a target outside them cannot be reached. */
  lemma ExhaustedMeansUnreachable(open: set<Cell>, s: Cell, t: Cell, dist: map<Cell, nat>, closed: set<Cell>, d: nat)
    requires Frontier(open, s, dist, closed, [], d, 0) && t !in closed
    ensures !Reachable(open, s, t)
  {
    if p :| IsRoute(open, p) && Connects(p, s, t) {
      ClosedSetHoldsRoutes(open, closed, p);
      assert false;
    }
  }

  /** The links between the visited and parent tables and the ghost state:
      a cell is marked visited exactly when it has a depth. */
  ghost predicate Tables(open: set<Cell>, s: Cell, dist: map<Cell, nat>, visited: array2<bool>, parent: array2<Cell>)
    reads visited, parent
  {
    && visited.Length0 == parent.Length0 && visited.Length1 == parent.Length1
    && (forall x, y :: 0 <= x < visited.Length0 && 0 <= y < visited.Length1 ==> (visited[x, y] <==> (x, y) in dist))
    && ParentTree(open, s, dist, parent)
  }

  /** Every visited cell lies in the grid, so there are at most as many as
      the grid has cells. */
  lemma TablesBound(open: set<Cell>, s: Cell, dist: map<Cell, nat>, visited: array2<bool>, parent: array2<Cell>)
    requires Tables(open, s, dist, visited, parent)
    ensures |dist| <= parent.Length0 * parent.Length1
  {
    InBoundsBound(dist.Keys, parent.Length0, parent.Length1);
  }

  /** One pass of the neighbour loop of main.cpp:90-98: the i-th neighbour of
      cur is queued, marked visited and given cur as parent when it may be
      entered and has not been visited; every other entry stays as it was. */
  method VisitNeighbourCell(grid: array2<CellState>, visited: array2<bool>, parent: array2<Cell>, cur: Cell, i: nat, q: seq<Cell>)
    returns (q': seq<Cell>)
    requires visited.Length0 == grid.Length0 && visited.Length1 == grid.Length1
    requires parent.Length0 == grid.Length0 && parent.Length1 == grid.Length1
    requires i < 4
    modifies visited, parent
    ensures var n := Neighbour(cur, i);
            var pushed := IsValid(grid, n.0, n.1) && !old(visited[n.0, n.1]);
            && q' == (if pushed then q + [n] else q)
            && forall a, b :: 0 <= a < parent.Length0 && 0 <= b < parent.Length1 ==>
                 && parent[a, b] == (if pushed && (a, b) == n then cur else old(parent[a, b]))
                 && visited[a, b] == ((pushed && (a, b) == n) || old(visited[a, b]))
  {
    var n := Neighbour(cur, i);
    var nx, ny := n.0, n.1;
    if IsValid(grid, nx, ny) && !visited[nx, ny] {
      q' := q + [n];
      visited[nx, ny] := true;
      parent[nx, ny] := cur;
    } else {
      q' := q;
    }
  }

  /** The cells the neighbour loop pushes when it has tried the first k
      offsets from u: in offset order, the neighbours that may be entered and
      had not been visited when u was dequeued. */
  ghost function Discovered(open: set<Cell>, dist: map<Cell, nat>, u: Cell, k: nat): seq<Cell>
    requires k <= 4
  {
    if k == 0 then []
    else
      var n := Neighbour(u, k - 1);
      Discovered(open, dist, u, k - 1) + if n in open && n !in dist then [n] else []
  }

  /** The pushed cells are enterable, unvisited 4-neighbours of u. */
  lemma {:induction false} DiscoveredCells(open: set<Cell>, dist: map<Cell, nat>, u: Cell, k: nat)
    requires k <= 4
    ensures forall c :: c in Discovered(open, dist, u, k) ==> c in open && c !in dist && Adjacent(u, c)
  {
    if k > 0 {
      DiscoveredCells(open, dist, u, k - 1);
    }
  }

  /** The four offsets lead to four different cells. */
  lemma NeighboursDistinct(u: Cell, i: nat, j: nat)
    requires i < 4 && j < 4 && i != j
    ensures Neighbour(u, i) != Neighbour(u, j)
  {
  }

  /** A neighbour not yet tried has not been pushed by this expansion. */
  lemma {:induction false} LaterNotDiscovered(open: set<Cell>, dist: map<Cell, nat>, u: Cell, k: nat, i: nat)
    requires k <= i < 4
    ensures Neighbour(u, i) !in Discovered(open, dist, u, k)
  {
    if k > 0 {
      LaterNotDiscovered(open, dist, u, k - 1, i);
      NeighboursDistinct(u, k - 1, i);
    }
  }

  /** Appending a cell to the end of a concatenation appends it to its second
      part. */
  lemma AppendAssociates(a: seq<Cell>, b: seq<Cell>, c: Cell)
    ensures (a + b) + [c] == a + (b + [c])
  {
  }

  /** m with every cell of ns mapped to v. */
  ghost function Assigned<V>(m: map<Cell, V>, ns: seq<Cell>, v: V): map<Cell, V>
  {
    if ns == [] then m else Assigned(m, ns[..|ns| - 1], v)[ns[|ns| - 1] := v]
  }

  /** Assigning one more cell updates that cell. */
  lemma AssignedStep<V>(m: map<Cell, V>, ns: seq<Cell>, n: Cell, v: V)
    ensures Assigned(m, ns + [n], v) == Assigned(m, ns, v)[n := v]
  {
    assert (ns + [n])[..|ns|] == ns;
  }

  /** After the assignment the cells of ns hold v, and every other cell keeps
      its entry. */
  lemma {:induction false} AssignedAt<V>(m: map<Cell, V>, ns: seq<Cell>, v: V, c: Cell)
    ensures c in Assigned(m, ns, v) <==> c in m || c in ns
    ensures c in Assigned(m, ns, v) ==> Assigned(m, ns, v)[c] == if c in ns then v else m[c]
    decreases |ns|
  {
    if ns != [] {
      var init := ns[..|ns| - 1];
      AssignedAt(m, init, v, c);
      assert ns == init + [ns[|ns| - 1]];
    }
  }

  /** Trying offset k - 1 after the first k - 1 offsets: its neighbour is
      discovered exactly when it may be entered and has no depth yet, either
      before this expansion or from it; it then joins the pushed cells and is
      assigned v, and otherwise nothing changes. */
  lemma DiscoveredNext(open: set<Cell>, dist: map<Cell, nat>, u: Cell, k: nat, v: nat)
    requires 0 < k <= 4
    ensures var n, ns := Neighbour(u, k - 1), Discovered(open, dist, u, k - 1);
            var pushed := n in open && n !in dist;
            && n !in ns
            && (n !in Assigned<nat>(dist, ns, v) <==> n !in dist)
            && Discovered(open, dist, u, k) == (if pushed then ns + [n] else ns)
            && Assigned<nat>(dist, Discovered(open, dist, u, k), v) ==
                 (if pushed then Assigned<nat>(dist, ns, v)[n := v] else Assigned<nat>(dist, ns, v))
  {
    var n, ns := Neighbour(u, k - 1), Discovered(open, dist, u, k - 1);
    LaterNotDiscovered(open, dist, u, k - 1, k - 1);
    AssignedAt<nat>(dist, ns, v, n);
    AssignedStep<nat>(dist, ns, n, v);
  }

  /** Handling offset k - 1: visiting or skipping its neighbour keeps the
      search state. */
  lemma ExpandingStep(open: set<Cell>, s: Cell, dist: map<Cell, nat>, closed: set<Cell>, u: Cell, q: seq<Cell>,
                      d: nat, m: nat, k: nat)
    requires 0 < k <= 4
    requires Expanding(open, s, Assigned<nat>(dist, Discovered(open, dist, u, k - 1), d + 1), closed, u,
                       q + Discovered(open, dist, u, k - 1), d, m, k - 1)
    ensures Expanding(open, s, Assigned<nat>(dist, Discovered(open, dist, u, k), d + 1), closed, u,
                      q + Discovered(open, dist, u, k), d, m, k)
  {
    var n, ns := Neighbour(u, k - 1), Discovered(open, dist, u, k - 1);
    var dist1, q1 := Assigned<nat>(dist, ns, d + 1), q + ns;
    DiscoveredNext(open, dist, u, k, d + 1);
    if n in open && n !in dist {
      AppendAssociates(q, ns, n);
      VisitNeighbour(open, s, dist1, closed, u, q1, d, m, k - 1);
      SameExpanding(open, s, closed, u, d, m, k, dist1[n := d + 1], q1 + [n],
                    Assigned<nat>(dist, Discovered(open, dist, u, k), d + 1), q + Discovered(open, dist, u, k));
    } else {
      SkipNeighbour(open, s, dist1, closed, u, q1, d, m, k - 1);
      SameExpanding(open, s, closed, u, d, m, k, dist1, q1,
                    Assigned<nat>(dist, Discovered(open, dist, u, k), d + 1), q + Discovered(open, dist, u, k));
    }
  }

  /** The search state depends on the depths and the queue only through their
      values. */
  lemma SameExpanding(open: set<Cell>, s: Cell, closed: set<Cell>, u: Cell, d: nat, m: nat, k: nat,
                      dist: map<Cell, nat>, q: seq<Cell>, dist': map<Cell, nat>, q': seq<Cell>)
    requires Expanding(open, s, dist, closed, u, q, d, m, k) && dist' == dist && q' == q
    ensures Expanding(open, s, dist', closed, u, q', d, m, k)
  {
  }

  /** Pushing the discovered neighbours of u one level below u, in offset
      order, keeps the search state: after the first k offsets, every
      enterable neighbour tried so far is visited. */
  lemma {:induction false} ExpandingAfter(open: set<Cell>, s: Cell, dist: map<Cell, nat>, closed: set<Cell>, u: Cell, q: seq<Cell>,
                                          d: nat, m: nat, k: nat)
    requires Expanding(open, s, dist, closed, u, q, d, m, 0) && k <= 4
    ensures Expanding(open, s, Assigned<nat>(dist, Discovered(open, dist, u, k), d + 1), closed, u,
                      q + Discovered(open, dist, u, k), d, m, k)
  {
    if k > 0 {
      ExpandingAfter(open, s, dist, closed, u, q, d, m, k - 1);
      ExpandingStep(open, s, dist, closed, u, q, d, m, k);
    } else {
      assert q + Discovered(open, dist, u, 0) == q;
    }
  }

  /** Each discovered neighbour is a newly visited cell, so the depths gain
      exactly as many entries as the queue. */
  lemma {:induction false} DiscoveredCount(open: set<Cell>, dist: map<Cell, nat>, u: Cell, k: nat, v: nat)
    requires k <= 4
    ensures |Assigned<nat>(dist, Discovered(open, dist, u, k), v)| == |dist| + |Discovered(open, dist, u, k)|
  {
    if k > 0 {
      DiscoveredCount(open, dist, u, k - 1, v);
      DiscoveredNext(open, dist, u, k, v);
    }
  }

  /** Marking the discovered neighbours of u visited, with u as their parent,
      keeps the tables consistent with their new depth d + 1. The arguments
      other than visited are declared new; those the earlier state reads are
      required to be allocated there. */
  twostate lemma TablesAfterExpand(new open: set<Cell>, new s: Cell, new dist: map<Cell, nat>, visited: array2<bool>,
                                   new parent: array2<Cell>, new u: Cell, new d: nat, new ns: seq<Cell>)
    requires old(allocated(open)) && old(allocated(dist)) && old(allocated(parent))
    requires old(Tables(open, s, dist, visited, parent))
    requires u in dist && dist[u] == d
    requires forall c :: c in ns ==> c !in dist && Adjacent(u, c) && c in open && InBounds(c, parent.Length0, parent.Length1)
    requires forall a, b :: 0 <= a < parent.Length0 && 0 <= b < parent.Length1 ==>
               && parent[a, b] == (if (a, b) in ns then u else old(parent[a, b]))
               && visited[a, b] == ((a, b) in ns || old(visited[a, b]))
    ensures Tables(open, s, Assigned<nat>(dist, ns, d + 1), visited, parent)
  {
    var dist' := Assigned<nat>(dist, ns, d + 1);
    AssignedAt<nat>(dist, ns, d + 1, s);
    AssignedAt<nat>(dist, ns, d + 1, u);
    forall c | c in dist'
      ensures InBounds(c, parent.Length0, parent.Length1) && (c != s ==> c in open)
    {
      AssignedAt<nat>(dist, ns, d + 1, c);
    }
    forall x, y | 0 <= x < visited.Length0 && 0 <= y < visited.Length1
      ensures visited[x, y] <==> (x, y) in dist'
    {
      AssignedAt<nat>(dist, ns, d + 1, (x, y));
    }
    forall x, y {:trigger parent[x, y]} | (x, y) in dist' && (x, y) != s
      ensures parent[x, y] in dist' && Adjacent(parent[x, y], (x, y)) && dist'[(x, y)] == dist'[parent[x, y]] + 1
    {
      AssignedAt<nat>(dist, ns, d + 1, (x, y));
      if (x, y) !in ns {
        AssignedAt<nat>(dist, ns, d + 1, old(parent[x, y]));
      }
    }
  }

  /** The neighbour loop of main.cpp:90-98 over the four offsets in order: the
      enterable neighbours not yet visited (those outside dist) are appended
      to the queue in offset order, marked visited and given cur as parent;
      every other entry of the tables stays as it was. */
  method PushNeighbours(grid: array2<CellState>, visited: array2<bool>, parent: array2<Cell>, cur: Cell, q: seq<Cell>,
                ghost open: set<Cell>, ghost dist: map<Cell, nat>)
    returns (q': seq<Cell>)
    requires visited.Length0 == grid.Length0 && visited.Length1 == grid.Length1
    requires parent.Length0 == grid.Length0 && parent.Length1 == grid.Length1
    requires open == Passable(grid)
    requires forall i :: 0 <= i < 4 && Neighbour(cur, i) in open ==>
               (visited[Neighbour(cur, i).0, Neighbour(cur, i).1] <==> Neighbour(cur, i) in dist)
    modifies visited, parent
    ensures q' == q + Discovered(open, dist, cur, 4)
    ensures forall a, b :: 0 <= a < parent.Length0 && 0 <= b < parent.Length1 ==>
              && parent[a, b] == (if (a, b) in Discovered(open, dist, cur, 4) then cur else old(parent[a, b]))
              && visited[a, b] == ((a, b) in Discovered(open, dist, cur, 4) || old(visited[a, b]))
  {
    q' := q;
    ghost var ns: seq<Cell> := [];
    for i := 0 to 4
      invariant ns == Discovered(open, dist, cur, i) && q' == q + ns
      invariant forall a, b :: 0 <= a < parent.Length0 && 0 <= b < parent.Length1 ==>
                  && parent[a, b] == (if (a, b) in ns then cur else old(parent[a, b]))
                  && visited[a, b] == ((a, b) in ns || old(visited[a, b]))
    {
      ghost var n := Neighbour(cur, i);
      PassableUnchanged(grid);
      DiscoveredNext(open, dist, cur, i + 1, 0);
      ghost var pushed := IsValid(grid, n.0, n.1) && !visited[n.0, n.1];
      assert pushed <==> n in open && n !in dist;
      q' := VisitNeighbourCell(grid, visited, parent, cur, i, q');
      if pushed {
        AppendAssociates(q, ns, n);
      }
      ns := Discovered(open, dist, cur, i + 1);
    }
  }

  /** The expansion of a dequeued cell, with the depths of the newly visited
      cells recorded in the ghost state: the neighbour loop keeps the search
      state and the tables, and each push adds one newly visited cell. */
  method Expand(grid: array2<CellState>, visited: array2<bool>, parent: array2<Cell>, cur: Cell, q: seq<Cell>,
                ghost open: set<Cell>, ghost s: Cell, ghost dist: map<Cell, nat>, ghost closed: set<Cell>, ghost d: nat, ghost m: nat)
    returns (q': seq<Cell>, ghost dist': map<Cell, nat>)
    requires visited.Length0 == grid.Length0 && visited.Length1 == grid.Length1
    requires open == Passable(grid)
    requires Expanding(open, s, dist, closed, cur, q, d, m, 0)
    requires Tables(open, s, dist, visited, parent)
    modifies visited, parent
    ensures q' == q + Discovered(open, dist, cur, 4)
    ensures dist' == Assigned<nat>(dist, Discovered(open, dist, cur, 4), d + 1)
    ensures Expanding(open, s, dist', closed, cur, q', d, m, 4)
    ensures Tables(open, s, dist', visited, parent)
    ensures |dist'| - |dist| == |q'| - |q|
    ensures forall a, b :: 0 <= a < parent.Length0 && 0 <= b < parent.Length1 ==>
              && parent[a, b] == (if (a, b) in Discovered(open, dist, cur, 4) then cur else old(parent[a, b]))
              && visited[a, b] == ((a, b) in Discovered(open, dist, cur, 4) || old(visited[a, b]))
  {
    q' := PushNeighbours(grid, visited, parent, cur, q, open, dist);
    ghost var ns := Discovered(open, dist, cur, 4);
    dist' := Assigned<nat>(dist, ns, d + 1);
    ExpandingAfter(open, s, dist, closed, cur, q, d, m, 4);
    DiscoveredCount(open, dist, cur, 4, d + 1);
    DiscoveredCells(open, dist, cur, 4);
    TablesAfterExpand(open, s, dist, visited, parent, cur, d, ns);
  }

  /** The search only reads the grid, so the enterable cells stay the same. */
  twostate lemma PassableUnchanged(grid: array2<CellState>)
    requires unchanged(grid)
    ensures Passable(grid) == old(Passable(grid))
  {
  }

  /** The set-up of main.cpp:64-69: nothing is visited but the start, and no
      cell has a parent. */
  method NewTables(width: nat, height: nat, startX: int, startY: int, ghost open: set<Cell>)
    returns (visited: array2<bool>, parent: array2<Cell>)
    requires 0 <= startX < width && 0 <= startY < height
    ensures fresh(visited) && fresh(parent)
    ensures parent.Length0 == width && parent.Length1 == height
    ensures Tables(open, (startX, startY), map[(startX, startY) := 0], visited, parent)
    ensures forall x, y :: 0 <= x < width && 0 <= y < height ==>
              parent[x, y] == (-1, -1) && visited[x, y] == ((x, y) == (startX, startY))
  {
    visited := new bool[width, height]((x, y) => false);
    parent := new Cell[width, height]((x, y) => (-1, -1));
    visited[startX, startY] := true;
  }

  /** The search loop of main.cpp:64-99, up to the point where the target is
      dequeued. It reports whether the target was dequeued and returns the
      parent links; the grid is only read. The ghost steps counts the cells
      dequeued by the loop, each cell at most once, so it is bounded by the
      number of cells. */
  method Search(grid: array2<CellState>, startX: int, startY: int, targetX: int, targetY: int)
    returns (found: bool, parent: array2<Cell>, ghost dist: map<Cell, nat>, ghost steps: nat)
    requires 0 <= startX < grid.Length0 && 0 <= startY < grid.Length1
    ensures steps <= grid.Length0 * grid.Length1
    ensures fresh(parent) && parent.Length0 == grid.Length0 && parent.Length1 == grid.Length1
    ensures ParentTree(Passable(grid), (startX, startY), dist, parent)
    ensures found ==> (targetX, targetY) in dist
    ensures found ==> forall p :: IsRoute(Passable(grid), p) && Connects(p, (startX, startY), (targetX, targetY)) ==>
                        dist[(targetX, targetY)] <= |p| - 1
    ensures !found ==> !Reachable(Passable(grid), (startX, startY), (targetX, targetY))
  {
    var width, height := grid.Length0, grid.Length1;
    ghost var size := width * height;
    ghost var open := Passable(grid);
    ghost var s, t := (startX, startY), (targetX, targetY);

    var visited;
    visited, parent := NewTables(width, height, startX, startY, open);
    var q: seq<Cell> := [(startX, startY)];
    dist := map[s := 0];
    ghost var closed: set<Cell> := {};
    ghost var d: nat, m: nat := 0, 1;
    steps := 0;
    InitialFrontier(open, s);
    TablesBound(open, s, dist, visited, parent);

    while q != []
      invariant Frontier(open, s, dist, closed, q, d, m)
      invariant t !in closed
      invariant Tables(open, s, dist, visited, parent)
      invariant steps + |q| == |dist| <= size
      decreases size - steps
    {
      if m == 0 {
        NextLevel(open, s, dist, closed, q, d);
        d, m := d + 1, |q|;
      }
      ghost var q0 := q;
      var cur := q[0];
      q := q[1..];
      steps := steps + 1;
      var x, y := cur.0, cur.1;
      if x == targetX && y == targetY {
        HeadIsNearest(open, s, t, dist, closed, q0, d, m);
        found := true;
        return;
      }
      StartExpanding(open, s, dist, closed, q0, d, m);
      m := m - 1;
      PassableUnchanged(grid);
      q, dist := Expand(grid, visited, parent, cur, q, open, s, dist, closed, d, m);
      FinishExpanding(open, s, dist, closed, cur, q, d, m);
      closed := closed + {cur};
      TablesBound(open, s, dist, visited, parent);
    }
    found := false;
    ExhaustedMeansUnreachable(open, s, t, dist, closed, d);
  }

  /** A route whose depths grow by one per cell, as the parent walk builds it
      back from the target. */
  ghost predicate Descending(open: set<Cell>, dist: map<Cell, nat>, route: seq<Cell>)
  {
    && IsRoute(open, route)
    && route[0] in dist
    && forall k :: 0 <= k < |route| ==> route[k] in dist && dist[route[k]] == dist[route[0]] + k
  }

  /** Prepending the parent of the first cell keeps the depths growing by one. */
  lemma StepBack(open: set<Cell>, dist: map<Cell, nat>, route: seq<Cell>, p: Cell)
    requires Descending(open, dist, route) && route[0] in open
    requires p in dist && Adjacent(p, route[0]) && dist[route[0]] == dist[p] + 1
    ensures Descending(open, dist, [p] + route)
  {
  }

  /** Each cell of the route after the first is a cell of the table whose
      parent link points at the cell before it. */
  ghost predicate ParentChain(parent: array2<Cell>, route: seq<Cell>)
    reads parent
    decreases |route|
  {
    |route| >= 2 ==>
      && InBounds(route[1], parent.Length0, parent.Length1)
      && route[0] == parent[route[1].0, route[1].1]
      && ParentChain(parent, route[1..])
  }

  /** Prepending the parent of the first cell extends the chain of links. */
  lemma ChainBack(parent: array2<Cell>, route: seq<Cell>, p: Cell)
    requires ParentChain(parent, route) && route != []
    requires InBounds(route[0], parent.Length0, parent.Length1) && p == parent[route[0].0, route[0].1]
    ensures ParentChain(parent, [p] + route)
  {
    assert ([p] + route)[1..] == route;
  }

  /** The state of the parent walk: a route of growing depths that ends at t,
      is linked by the parent table, and whose cells past the first are the
      marked ones. */
  ghost predicate Walk(open: set<Cell>, dist: map<Cell, nat>, parent: array2<Cell>, t: Cell, route: seq<Cell>, marked: set<Cell>)
    reads parent
  {
    && route != [] && route[|route| - 1] == t
    && Descending(open, dist, route) && ParentChain(parent, route)
    && marked == MarkedCells(route)
  }

  /** Away from the start, one more step of the walk: the first cell has a
      parent one level shallower, and prepending it marks the first cell. */
  lemma WalkBack(open: set<Cell>, s: Cell, dist: map<Cell, nat>, parent: array2<Cell>, t: Cell, route: seq<Cell>, marked: set<Cell>)
    requires ParentTree(open, s, dist, parent) && Walk(open, dist, parent, t, route, marked) && route[0] != s
    ensures InBounds(route[0], parent.Length0, parent.Length1)
    ensures var p := parent[route[0].0, route[0].1];
            && p in dist && dist[p] < dist[route[0]]
            && Walk(open, dist, parent, t, [p] + route, marked + {route[0]})
  {
    var c := route[0];
    var p := parent[c.0, c.1];
    StepBack(open, dist, route, p);
    ChainBack(parent, route, p);
    var route' := [p] + route;
    assert MarkedCells(route') == MarkedCells(route) + {c} by {
      forall e | e in MarkedCells(route') ensures e in MarkedCells(route) + {c} {
        var i :| 1 <= i < |route'| && route'[i] == e;
        if i > 1 {
          assert route[i - 1] == e;
        }
      }
      forall e | e in MarkedCells(route) + {c} ensures e in MarkedCells(route') {
        if e == c {
          assert route'[1] == c;
        } else {
          var i :| 1 <= i < |route| && route[i] == e;
          assert route'[i + 1] == e;
        }
      }
    }
  }

  /** At the start the walk is a route from s to t whose depths count its
      hops, with no cell twice, and the marked cells are those past the
      start. */
  lemma WalkDone(open: set<Cell>, s: Cell, dist: map<Cell, nat>, parent: array2<Cell>, t: Cell, route: seq<Cell>, marked: set<Cell>)
    requires ParentTree(open, s, dist, parent) && Walk(open, dist, parent, t, route, marked) && route[0] == s
    ensures IsRoute(open, route) && Connects(route, s, t) && |route| == dist[t] + 1
    ensures Distinct(route)
    ensures forall c :: c in marked <==> c in route && c != s
  {
    forall c ensures c in marked <==> c in route && c != s {
      if c in route && c != s {
        var i :| 0 <= i < |route| && route[i] == c;
      }
    }
  }

  /** The reconstruction of main.cpp:79-86: from the target, follow the parent
      links back to the start, marking every cell passed as PATH. The target is
      marked; the start is not. */
  method MarkRoute(grid: array2<CellState>, parent: array2<Cell>, s: Cell, t: Cell,
                   ghost open: set<Cell>, ghost dist: map<Cell, nat>)
    returns (ghost route: seq<Cell>)
    requires parent.Length0 == grid.Length0 && parent.Length1 == grid.Length1
    requires ParentTree(open, s, dist, parent) && t in dist
    modifies grid
    ensures IsRoute(open, route) && Connects(route, s, t) && |route| == dist[t] + 1
    ensures Distinct(route) && ParentChain(parent, route)
    ensures forall x, y :: 0 <= x < grid.Length0 && 0 <= y < grid.Length1 ==>
              grid[x, y] == if (x, y) in route && (x, y) != s then Path else old(grid[x, y])
  {
    var x, y := t.0, t.1;
    route := [t];
    ghost var marked: set<Cell> := {};
    while x != s.0 || y != s.1
      invariant Walk(open, dist, parent, t, route, marked) && route[0] == (x, y)
      invariant forall a, b :: 0 <= a < grid.Length0 && 0 <= b < grid.Length1 ==>
                  grid[a, b] == if (a, b) in marked then Path else old(grid[a, b])
      decreases dist[(x, y)]
    {
      WalkBack(open, s, dist, parent, t, route, marked);
      grid[x, y] := Path;
      marked := marked + {(x, y)};
      var p := parent[x, y];
      route := [p] + route;
      x, y := p.0, p.1;
    }
    WalkDone(open, s, dist, parent, t, route, marked);
  }

  /** findShortestPath (main.cpp:63-100). When the target can be reached from
      the start, the cells of one shortest route other than the start (the
      target included) become PATH and nothing else changes; otherwise the
      grid is left as it was. The route is returned as a ghost value. */
  method FindShortestPath(grid: array2<CellState>, startX: int, startY: int, targetX: int, targetY: int)
    returns (ghost route: seq<Cell>)
    requires 0 <= startX < grid.Length0 && 0 <= startY < grid.Length1
    modifies grid
    ensures route != [] <==> Reachable(old(Passable(grid)), (startX, startY), (targetX, targetY))
    ensures route != [] ==> IsShortestRoute(old(Passable(grid)), route, (startX, startY), (targetX, targetY))
    ensures Distinct(route)
    ensures forall x, y :: 0 <= x < grid.Length0 && 0 <= y < grid.Length1 ==>
              grid[x, y] == if (x, y) in route && (x, y) != (startX, startY) then Path else old(grid[x, y])
    ensures !Reachable(old(Passable(grid)), (startX, startY), (targetX, targetY)) || (startX, startY) == (targetX, targetY) ==>
              forall x, y :: 0 <= x < grid.Length0 && 0 <= y < grid.Length1 ==> grid[x, y] == old(grid[x, y])
    ensures Passable(grid) == old(Passable(grid))
  {
    ghost var open := Passable(grid);
    var found: bool;
    var parent: array2<Cell>;
    ghost var dist: map<Cell, nat>;
    ghost var steps: nat;
    found, parent, dist, steps := Search(grid, startX, startY, targetX, targetY);
    if found {
      route := MarkRoute(grid, parent, (startX, startY), (targetX, targetY), open, dist);
      forall c: Cell ensures IsValid(grid, c.0, c.1) <==> c in open {
        if c in route && c != (startX, startY) {
          var i :| 0 <= i < |route| && route[i] == c;
        }
      }
      if (startX, startY) == (targetX, targetY) {
        ShortestRouteToSelf(open, route, (startX, startY));
      }
    } else {
      route := [];
    }
  }
}
