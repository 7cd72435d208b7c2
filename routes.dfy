/** Routes through the grid: what the search looks for and what "shortest"
    means. Everything here is stated over `open`, the set of cells the search
    may enter (Grid.Passable of the grid when the search starts). */
module Routes {
  import opened Grid

  /** A route is a non-empty sequence of cells in which consecutive cells are
      4-neighbours and every cell after the first may be entered. The first
      cell is where the search starts, which it does not test. */
  ghost predicate IsRoute(open: set<Cell>, p: seq<Cell>)
  {
    && |p| >= 1
    && (forall i :: 1 <= i < |p| ==> p[i] in open)
    && (forall i :: 0 <= i < |p| - 1 ==> Adjacent(p[i], p[i + 1]))
  }

  ghost predicate Connects(p: seq<Cell>, s: Cell, t: Cell)
  {
    |p| >= 1 && p[0] == s && p[|p| - 1] == t
  }

  ghost predicate Reachable(open: set<Cell>, s: Cell, t: Cell)
  {
    exists p :: IsRoute(open, p) && Connects(p, s, t)
  }

  /** p is a route from s to t and no route from s to t has fewer cells. */
  ghost predicate IsShortestRoute(open: set<Cell>, p: seq<Cell>, s: Cell, t: Cell)
  {
    && IsRoute(open, p)
    && Connects(p, s, t)
    && forall q :: IsRoute(open, q) && Connects(q, s, t) ==> |p| <= |q|
  }

  ghost predicate Distinct(p: seq<Cell>)
  {
    forall i, j :: 0 <= i < j < |p| ==> p[i] != p[j]
  }

  /** The cells of p after the first: on a route found by the search, the
      cells it marks as path. */
  ghost function MarkedCells(p: seq<Cell>): set<Cell>
    requires |p| >= 1
  {
    set i | 1 <= i < |p| :: p[i]
  }

  function Abs(n: int): nat
  {
    if n < 0 then -n else n
  }

  /** Hop distance between two cells when nothing is in the way. */
  function Manhattan(a: Cell, b: Cell): nat
  {
    Abs(a.0 - b.0) + Abs(a.1 - b.1)
  }

  /** Dropping the first cell of a route leaves a route. */
  lemma RouteTail(open: set<Cell>, p: seq<Cell>)
    requires IsRoute(open, p) && |p| > 1
    ensures IsRoute(open, p[1..])
  {
  }

  /** A set of cells closed under stepping to an enterable neighbour holds every
      route that starts in it: this is why a search that runs out of cells
      without meeting the target proves the target unreachable. */
  lemma {:induction false} ClosedSetHoldsRoutes(open: set<Cell>, closed: set<Cell>, p: seq<Cell>)
    requires IsRoute(open, p) && p[0] in closed
    requires forall c, n :: c in closed && n in open && Adjacent(c, n) ==> n in closed
    ensures forall i :: 0 <= i < |p| ==> p[i] in closed
  {
    if |p| > 1 {
      assert Adjacent(p[0], p[1]) && p[1] in open;
      var rest := p[1..];
      RouteTail(open, p);
      ClosedSetHoldsRoutes(open, closed, rest);
      forall i | 0 <= i < |p| ensures p[i] in closed {
        if i > 0 { assert p[i] == rest[i - 1]; }
      }
    }
  }

  /** Cutting out the loop between two visits of the same cell leaves a route
      with the same ends that is j - i cells shorter. */
  lemma Shortcut(open: set<Cell>, p: seq<Cell>, i: nat, j: nat) returns (q: seq<Cell>)
    requires IsRoute(open, p) && i < j < |p| && p[i] == p[j]
    ensures IsRoute(open, q) && Connects(q, p[0], p[|p| - 1])
    ensures |q| == |p| - (j - i)
  {
    q := p[..i + 1] + p[j + 1..];
    assert q[i] == p[j];
    forall k | 1 <= k < |q| ensures q[k] in open {
      if k > i { assert q[k] == p[k + (j - i)]; }
    }
    forall k | 0 <= k < |q| - 1 ensures Adjacent(q[k], q[k + 1]) {
      if k > i {
        assert q[k] == p[k + (j - i)] && q[k + 1] == p[k + 1 + (j - i)];
      } else if k == i {
        assert q[k + 1] == p[j + 1];
      }
    }
  }

  /** A shortest route never visits a cell twice. */
  lemma ShortestRouteIsDistinct(open: set<Cell>, p: seq<Cell>, s: Cell, t: Cell)
    requires IsShortestRoute(open, p, s, t)
    ensures Distinct(p)
  {
    forall i, j | 0 <= i < j < |p| ensures p[i] != p[j] {
      if p[i] == p[j] {
        var q := Shortcut(open, p, i, j);
        assert false;
      }
    }
  }

  /** A route visiting no cell twice marks as many cells as it has hops. */
  lemma {:induction false} DistinctMarkedCount(p: seq<Cell>)
    requires |p| >= 1 && Distinct(p)
    ensures |MarkedCells(p)| == |p| - 1
  {
    if |p| > 1 {
      var init := p[..|p| - 1];
      assert Distinct(init);
      DistinctMarkedCount(init);
      assert MarkedCells(p) == MarkedCells(init) + {p[|p| - 1]} by {
        forall c | c in MarkedCells(p) ensures c in MarkedCells(init) + {p[|p| - 1]} {
          var i :| 1 <= i < |p| && p[i] == c;
          if i < |p| - 1 { assert init[i] == c; }
        }
      }
      assert p[|p| - 1] !in MarkedCells(init);
    }
  }

  /** Every hop changes the Manhattan distance by one, so no route beats it. */
  lemma {:induction false} ManhattanLowerBound(open: set<Cell>, p: seq<Cell>)
    requires IsRoute(open, p)
    ensures |p| - 1 >= Manhattan(p[0], p[|p| - 1])
  {
    if |p| > 1 {
      var rest := p[1..];
      RouteTail(open, p);
      ManhattanLowerBound(open, rest);
      assert Adjacent(p[0], p[1]);
    }
  }

  /** A shortest route marks exactly as many cells as it has hops, since it
      never passes a cell twice. */
  lemma ShortestRouteMarkedCount(open: set<Cell>, p: seq<Cell>, s: Cell, t: Cell)
    requires IsShortestRoute(open, p, s, t)
    ensures |MarkedCells(p)| == |p| - 1
  {
    ShortestRouteIsDistinct(open, p, s, t);
    DistinctMarkedCount(p);
  }

  /** From a cell to itself the shortest route is that cell alone, so it marks
      nothing. */
  lemma ShortestRouteToSelf(open: set<Cell>, p: seq<Cell>, s: Cell)
    requires IsShortestRoute(open, p, s, s)
    ensures p == [s] && MarkedCells(p) == {}
  {
  }

  /** The next cell from a towards b, moving along x first and then along y. */
  function StepTowards(a: Cell, b: Cell): (n: Cell)
    requires a != b
    ensures Adjacent(a, n) && Manhattan(n, b) + 1 == Manhattan(a, b)
    ensures (a.0 <= n.0 <= b.0 || b.0 <= n.0 <= a.0) && (a.1 <= n.1 <= b.1 || b.1 <= n.1 <= a.1)
  {
    if a.0 < b.0 then (a.0 + 1, a.1)
    else if a.0 > b.0 then (a.0 - 1, a.1)
    else if a.1 < b.1 then (a.0, a.1 + 1)
    else (a.0, a.1 - 1)
  }

  /** The route that steps towards b until it gets there. */
  ghost function Staircase(a: Cell, b: Cell): (p: seq<Cell>)
    ensures Connects(p, a, b) && |p| == Manhattan(a, b) + 1
    decreases Manhattan(a, b)
  {
    if a == b then [a] else [a] + Staircase(StepTowards(a, b), b)
  }

  /** The staircase between two cells of the grid stays inside the grid, so
      without walls it is a route. */
  lemma {:induction false} StaircaseIsRoute(open: set<Cell>, width: int, height: int, a: Cell, b: Cell)
    requires InBounds(a, width, height) && InBounds(b, width, height)
    requires forall c :: InBounds(c, width, height) ==> c in open
    ensures IsRoute(open, Staircase(a, b))
    decreases Manhattan(a, b)
  {
    var p := Staircase(a, b);
    if a != b {
      var rest := Staircase(StepTowards(a, b), b);
      StaircaseIsRoute(open, width, height, StepTowards(a, b), b);
      forall i | 1 <= i < |p| ensures p[i] in open {
        assert p[i] == rest[i - 1];
      }
      forall i | 0 <= i < |p| - 1 ensures Adjacent(p[i], p[i + 1]) {
        if i > 0 { assert p[i] == rest[i - 1] && p[i + 1] == rest[i]; }
      }
    }
  }

  /** On a grid without walls the shortest route between two cells is exactly
      as many hops long as their Manhattan distance. */
  lemma NoWallsShortestIsManhattan(open: set<Cell>, width: int, height: int, p: seq<Cell>, s: Cell, t: Cell)
    requires forall c :: InBounds(c, width, height) ==> c in open
    requires InBounds(s, width, height) && InBounds(t, width, height)
    requires IsShortestRoute(open, p, s, t)
    ensures |p| - 1 == Manhattan(s, t)
  {
    StaircaseIsRoute(open, width, height, s, t);
    ManhattanLowerBound(open, p);
  }

  /** More walls never give a shorter shortest route: every route through the
      smaller set of enterable cells is a route through the larger one. */
  lemma FewerOpenCellsNeverShorter(fewer: set<Cell>, more: set<Cell>, p: seq<Cell>, q: seq<Cell>, s: Cell, t: Cell)
    requires fewer <= more
    requires IsShortestRoute(more, p, s, t) && IsShortestRoute(fewer, q, s, t)
    ensures |p| <= |q|
  {
    assert IsRoute(more, q);
  }
}
