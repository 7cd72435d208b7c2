/** The editing side of the visualiser: the grid and the two endpoints that
    main.cpp:23 and 159 keep, and the branches of handleEvents
    (main.cpp:113-138) that change them. */
module Events {
  import opened Grid
  import opened Routes
  import opened Pathfinder

  /** The coordinate an endpoint holds before it is placed. */
  const Unset: int := -1

  /** What a left click does to a cell: an empty cell becomes a wall, a wall
      becomes empty, and start, target and path cells stay as they are. */
  function Toggle(c: CellState): (r: CellState)
    ensures r == Wall <==> c == Empty
    ensures r == Empty <==> c == Wall
    ensures c !in {Empty, Wall} ==> r == c
  {
    match c
    case Empty => Wall
    case Wall => Empty
    case _ => c
  }

  /** Clicking a cell twice leaves it as it was. */
  lemma ToggleTwice(c: CellState)
    ensures Toggle(Toggle(c)) == c
  {
  }

  /** The grid with its endpoints. An endpoint is unplaced while both of its
      coordinates are Unset; the handlers only ever set both together. */
  class Visualizer {
    var grid: array2<CellState>
    var startX: int
    var startY: int
    var targetX: int
    var targetY: int

    predicate StartPlaced()
      reads this
    {
      !(startX == Unset && startY == Unset)
    }

    predicate TargetPlaced()
      reads this
    {
      !(targetX == Unset && targetY == Unset)
    }

    /** What the handlers keep true: placed endpoints lie on the grid, the
        target is never placed before the start, the start cell shows START
        (or TARGET when the target was placed on it), the target cell shows
        TARGET or, after a search reached it, PATH, and no other cell shows
        START or TARGET. */
    ghost predicate Valid()
      reads this, grid
    {
      && grid.Length0 == GridWidth && grid.Length1 == GridHeight
      && (StartPlaced() ==> InBounds((startX, startY), GridWidth, GridHeight))
      && (TargetPlaced() ==> StartPlaced() && InBounds((targetX, targetY), GridWidth, GridHeight))
      && (StartPlaced() ==>
            grid[startX, startY] == if TargetPlaced() && (targetX, targetY) == (startX, startY) then Target else Start)
      && (TargetPlaced() ==> grid[targetX, targetY] in {Target, Path})
      && (forall x, y :: 0 <= x < GridWidth && 0 <= y < GridHeight && grid[x, y] == Start ==>
            StartPlaced() && (x, y) == (startX, startY))
      && (forall x, y :: 0 <= x < GridWidth && 0 <= y < GridHeight && grid[x, y] == Target ==>
            TargetPlaced() && (x, y) == (targetX, targetY))
    }

    /** The program's initial state: every cell empty, no endpoint placed. */
    constructor ()
      ensures Valid() && fresh(grid)
      ensures !StartPlaced() && !TargetPlaced()
      ensures forall x, y :: 0 <= x < GridWidth && 0 <= y < GridHeight ==> grid[x, y] == Empty
    {
      grid := new CellState[GridWidth, GridHeight]((x, y) => Empty);
      startX, startY, targetX, targetY := Unset, Unset, Unset, Unset;
    }

    /** A left click on cell (x, y) (main.cpp:113-119): inside the grid the cell
        is toggled; nothing else changes. */
    method ToggleWall(x: int, y: int)
      requires Valid()
      modifies grid
      ensures Valid()
      ensures forall a, b :: 0 <= a < GridWidth && 0 <= b < GridHeight ==>
                grid[a, b] == if (a, b) == (x, y) then Toggle(old(grid[a, b])) else old(grid[a, b])
      ensures var inside := 0 <= x < GridWidth && 0 <= y < GridHeight;
              Passable(grid) ==
                if inside && old(grid[x, y]) == Empty then old(Passable(grid)) - {(x, y)}
                else if inside && old(grid[x, y]) == Wall then old(Passable(grid)) + {(x, y)}
                else old(Passable(grid))
    {
      if 0 <= x < GridWidth && 0 <= y < GridHeight {
        if grid[x, y] == Empty {
          grid[x, y] := Wall;
        } else if grid[x, y] == Wall {
          grid[x, y] := Empty;
        }
      }
    }

    /** A right click on cell (x, y) (main.cpp:120-133). On a cell inside the
        grid that is not a wall, the first such click places the start and the
        second places the target, possibly on the start cell; any other click
        changes nothing. */
    method PlaceEndpoint(x: int, y: int)
      requires Valid()
      modifies this, grid
      ensures Valid() && grid == old(grid)
      ensures var placeable := 0 <= x < GridWidth && 0 <= y < GridHeight && old(grid[x, y]) != Wall;
              && (startX, startY) == (if placeable && !old(StartPlaced()) then (x, y) else old((startX, startY)))
              && (targetX, targetY) ==
                   (if placeable && old(StartPlaced()) && !old(TargetPlaced()) then (x, y) else old((targetX, targetY)))
              && forall a, b :: 0 <= a < GridWidth && 0 <= b < GridHeight ==>
                   grid[a, b] ==
                     if (a, b) == (x, y) && placeable && !old(TargetPlaced()) then
                       (if old(StartPlaced()) then Target else Start)
                     else old(grid[a, b])
    {
      if 0 <= x < GridWidth && 0 <= y < GridHeight {
        if grid[x, y] != Wall {
          if startX == Unset && startY == Unset {
            grid[x, y] := Start;
            startX, startY := x, y;
          } else if targetX == Unset && targetY == Unset {
            grid[x, y] := Target;
            targetX, targetY := x, y;
          }
        }
      }
    }

    /** The space key (main.cpp:135-138): once both endpoints are placed, the
        search runs and marks a shortest route from the start to the target,
        if there is one. Without both endpoints nothing changes. */
    method RunSearch() returns (ghost route: seq<Cell>)
      requires Valid()
      modifies grid
      ensures Valid()
      ensures !(StartPlaced() && TargetPlaced()) ==> route == []
      ensures StartPlaced() && TargetPlaced() ==>
                (route != [] <==> Reachable(old(Passable(grid)), (startX, startY), (targetX, targetY)))
      ensures route != [] ==> IsShortestRoute(old(Passable(grid)), route, (startX, startY), (targetX, targetY))
      ensures forall a, b :: 0 <= a < GridWidth && 0 <= b < GridHeight ==>
                grid[a, b] == if (a, b) in route && (a, b) != (startX, startY) then Path else old(grid[a, b])
      ensures Passable(grid) == old(Passable(grid))
    {
      if startX != Unset && startY != Unset && targetX != Unset && targetY != Unset {
        route := FindShortestPath(grid, startX, startY, targetX, targetY);
      } else {
        route := [];
      }
    }
  }
}
