/** The level generator: a 12 by 10 grid with a wall border, a few interior
    walls, the player, three to six targets and as many boxes, all placed by
    rejection sampling. The random number generator is a finite sequence of
    draws; `randint(lo, hi)` takes the next draw and reduces it into
    [lo, hi]. When the draws run out the generator gives up with `None`,
    where the original goes on drawing.

    The functions `Scatter`, `FirstFree`, `PlaceMany` and `GeneratedLevel`
    say what the generator produces from given draws; the methods do it
    step by step, rewriting the grid cell by cell, and are proved to agree
    with them. */
module Generator {
  import opened Types
  import Rules

  const GridWidth: int := 12
  const GridHeight: int := 10

  /** `randint(lo, hi)` on one draw `d`. */
  function RandInt(d: int, lo: int, hi: int): (r: int)
    requires lo <= hi
    ensures lo <= r <= hi
  {
    lo + d % (hi - lo + 1)
  }

  predicate Shape(g: seq<seq<Cell>>)
  {
    |g| == GridHeight && forall y :: 0 <= y < |g| ==> |g[y]| == GridWidth
  }

  predicate InGrid(x: int, y: int)
  {
    0 <= x < GridWidth && 0 <= y < GridHeight
  }

  predicate OnBorder(x: int, y: int)
  {
    x == 0 || x == GridWidth - 1 || y == 0 || y == GridHeight - 1
  }

  /** The cells inside the border, where the player, targets and boxes go. */
  predicate Interior(x: int, y: int)
  {
    1 <= x <= GridWidth - 2 && 1 <= y <= GridHeight - 2
  }

  /** The cells interior walls are drawn from: the interior less its outer ring. */
  predicate InWallZone(x: int, y: int)
  {
    2 <= x <= GridWidth - 3 && 2 <= y <= GridHeight - 3
  }

  function SetCell(g: seq<seq<Cell>>, x: int, y: int, c: Cell): (r: seq<seq<Cell>>)
    requires Shape(g) && InGrid(x, y)
    ensures Shape(r) && r[y][x] == c
    ensures forall yy, xx :: InGrid(xx, yy) && (xx != x || yy != y) ==> r[yy][xx] == g[yy][xx]
  {
    g[y := g[y][x := c]]
  }

  /** The interior walls of `g`, as (x, y) pairs. */
  function InnerWalls(g: seq<seq<Cell>>): (walls: set<(int, int)>)
    requires Shape(g)
  {
    set y, x | 0 <= y < GridHeight && 0 <= x < GridWidth && InWallZone(x, y) && g[y][x] == Wall :: (x, y)
  }

  /** Walls on the whole border, and elsewhere only in the wall zone. */
  ghost predicate WallsInPlace(g: seq<seq<Cell>>)
  {
    && Shape(g)
    && (forall y, x :: InGrid(x, y) && OnBorder(x, y) ==> g[y][x] == Wall)
    && (forall y, x :: InGrid(x, y) && g[y][x] == Wall ==> OnBorder(x, y) || InWallZone(x, y))
  }

  /** The grid after the interior walls: every cell a wall or empty. */
  ghost predicate WallLayout(g: seq<seq<Cell>>)
  {
    WallsInPlace(g) && forall y, x :: InGrid(x, y) ==> g[y][x] == Wall || g[y][x] == Empty
  }

  /** `a` and `b` have their walls on the same cells. */
  ghost predicate SameWalls(a: seq<seq<Cell>>, b: seq<seq<Cell>>)
  {
    Shape(a) && Shape(b) && forall y, x :: InGrid(x, y) ==> (a[y][x] == Wall <==> b[y][x] == Wall)
  }

  predicate TargetsDistinct(targets: seq<Target>)
  {
    forall a, b :: 0 <= a < b < |targets| ==> targets[a].x != targets[b].x || targets[a].y != targets[b].y
  }

  /** The grid after the border is stamped: walls all round, empty inside. */
  function BorderGrid(): (g: seq<seq<Cell>>)
    ensures Shape(g)
    ensures forall y, x :: InGrid(x, y) ==> g[y][x] == (if OnBorder(x, y) then Wall else Empty)
  {
    seq(GridHeight, y => seq(GridWidth, x => if OnBorder(x, y) then Wall else Empty))
  }

  /** Two grids of the right shape with the same cells are equal. */
  lemma GridsEqual(a: seq<seq<Cell>>, b: seq<seq<Cell>>)
    requires Shape(a) && Shape(b)
    requires forall y, x :: InGrid(x, y) ==> a[y][x] == b[y][x]
    ensures a == b
  {
    forall y | 0 <= y < GridHeight
      ensures a[y] == b[y]
    {
      assert forall x :: 0 <= x < GridWidth ==> a[y][x] == b[y][x];
    }
  }

  /** `g` with every cell in `cells` set to `mark`. */
  function Overlay(g: seq<seq<Cell>>, cells: set<(int, int)>, mark: Cell): (r: seq<seq<Cell>>)
    requires Shape(g)
    ensures Shape(r)
    ensures forall y, x :: InGrid(x, y) ==> r[y][x] == (if (x, y) in cells then mark else g[y][x])
  {
    seq(GridHeight, y requires 0 <= y < GridHeight =>
      seq(GridWidth, x requires 0 <= x < GridWidth => if (x, y) in cells then mark else g[y][x]))
  }

  /** Marking one more cell is `SetCell` on the overlay. */
  lemma OverlayAdd(g: seq<seq<Cell>>, cells: set<(int, int)>, mark: Cell, x: int, y: int)
    requires Shape(g) && InGrid(x, y)
    ensures SetCell(Overlay(g, cells, mark), x, y, mark) == Overlay(g, cells + {(x, y)}, mark)
  {
    GridsEqual(SetCell(Overlay(g, cells, mark), x, y, mark), Overlay(g, cells + {(x, y)}, mark));
  }

  lemma OverlayNothing(g: seq<seq<Cell>>, mark: Cell)
    requires Shape(g)
    ensures Overlay(g, {}, mark) == g
  {
    GridsEqual(Overlay(g, {}, mark), g);
  }

  /** Wall attempts on `g`, two draws each: a cell of the wall zone, walled
      if it is empty. `None` when fewer than two draws are left for an
      attempt; otherwise the grid and the draws after the last attempt. */
  function Scatter(g: seq<seq<Cell>>, ds: seq<int>, attempts: nat): (r: Option<(seq<seq<Cell>>, seq<int>)>)
    requires Shape(g)
    ensures r.Some? ==> Shape(r.value.0)
    ensures r.Some? ==> |r.value.1| == |ds| - 2 * attempts
    decreases attempts
  {
    if attempts == 0 then Some((g, ds))
    else if |ds| < 2 then None
    else
      var x, y := RandInt(ds[0], 2, GridWidth - 3), RandInt(ds[1], 2, GridHeight - 3);
      Scatter(if g[y][x] == Empty then SetCell(g, x, y, Wall) else g, ds[2..], attempts - 1)
  }

  /** The wall attempts fail exactly when there are not two draws for each. */
  lemma {:induction false} ScatterFails(g: seq<seq<Cell>>, ds: seq<int>, attempts: nat)
    requires Shape(g)
    ensures Scatter(g, ds, attempts).None? <==> |ds| < 2 * attempts
    decreases attempts
  {
    if attempts > 0 && |ds| >= 2 {
      var x, y := RandInt(ds[0], 2, GridWidth - 3), RandInt(ds[1], 2, GridHeight - 3);
      ScatterFails(if g[y][x] == Empty then SetCell(g, x, y, Wall) else g, ds[2..], attempts - 1);
    }
  }

  /** A wall on an empty cell of the wall zone keeps the wall layout. */
  lemma WallLayoutGrow(g: seq<seq<Cell>>, x: int, y: int)
    requires WallLayout(g) && InWallZone(x, y) && g[y][x] == Empty
    ensures WallLayout(SetCell(g, x, y, Wall))
  {
  }

  /** Wall attempts keep the wall layout and add at most one interior wall each. */
  lemma {:induction false} ScatterLayout(g: seq<seq<Cell>>, ds: seq<int>, attempts: nat)
    requires WallLayout(g)
    ensures Scatter(g, ds, attempts).Some? ==>
      && WallLayout(Scatter(g, ds, attempts).value.0)
      && |InnerWalls(Scatter(g, ds, attempts).value.0)| <= |InnerWalls(g)| + attempts
    decreases attempts
  {
    if attempts > 0 && |ds| >= 2 {
      var x, y := RandInt(ds[0], 2, GridWidth - 3), RandInt(ds[1], 2, GridHeight - 3);
      var next := if g[y][x] == Empty then SetCell(g, x, y, Wall) else g;
      assert Scatter(g, ds, attempts) == Scatter(next, ds[2..], attempts - 1);
      if g[y][x] == Empty {
        InnerWallsGrow(g, x, y);
        WallLayoutGrow(g, x, y);
      }
      ScatterLayout(next, ds[2..], attempts - 1);
    }
  }

  /** The interior cell that the pair of draws `ds[2k], ds[2k+1]` picks. */
  function DrawnAt(ds: seq<int>, k: nat): (c: (int, int))
    requires 2 * k + 1 < |ds|
    ensures Interior(c.0, c.1)
  {
    (RandInt(ds[2 * k], 1, GridWidth - 2), RandInt(ds[2 * k + 1], 1, GridHeight - 2))
  }

  /** A sampled cell is accepted: empty in `g` and not already taken. */
  predicate Fits(g: seq<seq<Cell>>, taken: set<(int, int)>, c: (int, int))
    requires Shape(g) && Interior(c.0, c.1)
  {
    g[c.1][c.0] == Empty && c !in taken
  }

  /** Rejection sampling of one cell: the first pair of draws whose cell
      fits, with the draws after it; `None` when the draws run out first. */
  function FirstFree(g: seq<seq<Cell>>, taken: set<(int, int)>, ds: seq<int>): (r: Option<((int, int), seq<int>)>)
    requires Shape(g)
    ensures r.Some? ==> Interior(r.value.0.0, r.value.0.1) && Fits(g, taken, r.value.0)
    ensures r.Some? ==> |r.value.1| + 2 <= |ds|
    decreases |ds|
  {
    if |ds| < 2 then None
    else if Fits(g, taken, DrawnAt(ds, 0)) then Some((DrawnAt(ds, 0), ds[2..]))
    else FirstFree(g, taken, ds[2..])
  }

  /** Sampling fails exactly when no pair of draws gives a cell that fits. */
  lemma {:induction false} FirstFreeFails(g: seq<seq<Cell>>, taken: set<(int, int)>, ds: seq<int>)
    requires Shape(g)
    ensures FirstFree(g, taken, ds).None? <==> forall k :: 0 <= k < |ds| / 2 ==> !Fits(g, taken, DrawnAt(ds, k))
    decreases |ds|
  {
    if |ds| >= 2 {
      var rest := ds[2..];
      FirstFreeFails(g, taken, rest);
      assert forall k :: 0 <= k < |rest| / 2 ==> DrawnAt(rest, k) == DrawnAt(ds, k + 1);
      if forall k :: 0 <= k < |rest| / 2 ==> !Fits(g, taken, DrawnAt(rest, k)) {
        forall k | 1 <= k < |ds| / 2 ensures !Fits(g, taken, DrawnAt(ds, k)) {
          assert DrawnAt(ds, k) == DrawnAt(rest, k - 1);
        }
      }
    }
  }

  /** `n` cells sampled one after another, each added to the taken cells
      once placed: the cells in order, the cells taken at the end and the
      draws left; `None` when the draws run out. */
  function PlaceMany(g: seq<seq<Cell>>, taken: set<(int, int)>, ds: seq<int>, n: nat)
    : (r: Option<(seq<(int, int)>, set<(int, int)>, seq<int>)>)
    requires Shape(g)
    ensures r.Some? ==> |r.value.0| == n
    ensures r.Some? ==> |r.value.2| + 2 * n <= |ds|
    decreases n
  {
    if n == 0 then Some(([], taken, ds))
    else
      match FirstFree(g, taken, ds)
      case None => None
      case Some((c, rest)) =>
        match PlaceMany(g, taken + {c}, rest, n - 1)
        case None => None
        case Some((cells, last, left)) => Some(([c] + cells, last, left))
  }

  /** The outcome of a placement run, after cells already placed. */
  function After(placed: seq<(int, int)>, r: Option<(seq<(int, int)>, set<(int, int)>, seq<int>)>)
    : (a: Option<(seq<(int, int)>, set<(int, int)>, seq<int>)>)
    ensures a.None? <==> r.None?
  {
    match r
    case None => None
    case Some((cells, last, left)) => Some((placed + cells, last, left))
  }

  lemma AfterNothing(r: Option<(seq<(int, int)>, set<(int, int)>, seq<int>)>)
    ensures After([], r) == r
  {
    if r.Some? {
      assert [] + r.value.0 == r.value.0;
    }
  }

  /** Placing the cell that sampling gives moves it from the run into the placed cells. */
  lemma PlaceManyStep(g: seq<seq<Cell>>, taken: set<(int, int)>, ds: seq<int>, n: nat, placed: seq<(int, int)>,
                       c: (int, int), rest: seq<int>)
    requires Shape(g) && n > 0 && FirstFree(g, taken, ds) == Some((c, rest))
    ensures After(placed, PlaceMany(g, taken, ds, n)) == After(placed + [c], PlaceMany(g, taken + {c}, rest, n - 1))
  {
    match PlaceMany(g, taken + {c}, rest, n - 1)
    case None =>
    case Some((cells, last, left)) =>
      assert placed + ([c] + cells) == (placed + [c]) + cells;
  }

  /** What a placement run produces: interior cells that were empty and
      not taken, all different, and the taken cells grown by exactly them. */
  lemma {:induction false} PlaceManyFacts(g: seq<seq<Cell>>, taken: set<(int, int)>, ds: seq<int>, n: nat)
    requires Shape(g) && PlaceMany(g, taken, ds, n).Some?
    ensures var (cells, last, _) := PlaceMany(g, taken, ds, n).value;
      && (forall k :: 0 <= k < |cells| ==> Interior(cells[k].0, cells[k].1) && Fits(g, taken, cells[k]))
      && (forall a, b :: 0 <= a < b < |cells| ==> cells[a] != cells[b])
      && (forall c :: c in last <==> c in taken || c in cells)
    decreases n
  {
    if n > 0 {
      var (c, rest) := FirstFree(g, taken, ds).value;
      PlaceManyFacts(g, taken + {c}, rest, n - 1);
      var (more, last, _) := PlaceMany(g, taken + {c}, rest, n - 1).value;
      assert PlaceMany(g, taken, ds, n).value.0 == [c] + more;
      assert forall k :: 0 <= k < |more| ==> Fits(g, taken + {c}, more[k]);
    }
  }

  /** One turn of a placement loop that works on the grid with the cells
      placed so far marked: sampling on that grid is sampling on `g`, and
      the cell it gives moves from the run into the placed cells. */
  lemma PlaceNext(g: seq<seq<Cell>>, marks: set<(int, int)>, mark: Cell, taken: set<(int, int)>, ds: seq<int>, n: nat,
                  placed: seq<(int, int)>)
    requires Shape(g) && marks <= taken && n > 0
    ensures FirstFree(Overlay(g, marks, mark), taken, ds).None? ==> After(placed, PlaceMany(g, taken, ds, n)).None?
    ensures FirstFree(Overlay(g, marks, mark), taken, ds).Some? ==>
      var (c, rest) := FirstFree(Overlay(g, marks, mark), taken, ds).value;
      && After(placed, PlaceMany(g, taken, ds, n)) == After(placed + [c], PlaceMany(g, taken + {c}, rest, n - 1))
      && SetCell(Overlay(g, marks, mark), c.0, c.1, mark) == Overlay(g, marks + {c}, mark)
  {
    FirstFreeOverlay(g, marks, mark, taken, ds);
    if FirstFree(g, taken, ds).Some? {
      var (c, rest) := FirstFree(g, taken, ds).value;
      PlaceManyStep(g, taken, ds, n, placed, c, rest);
      OverlayAdd(g, marks, mark, c.0, c.1);
    }
  }

  function AsTargets(cells: seq<(int, int)>): (r: seq<Target>)
    ensures |r| == |cells|
    ensures forall t :: 0 <= t < |r| ==> r[t] == Target(cells[t].0, cells[t].1, false)
  {
    seq(|cells|, t requires 0 <= t < |cells| => Target(cells[t].0, cells[t].1, false))
  }

  function AsBoxes(cells: seq<(int, int)>): (r: seq<Box>)
    ensures |r| == |cells|
    ensures forall j :: 0 <= j < |r| ==> r[j] == Box(cells[j].0, cells[j].1, j, false)
  {
    seq(|cells|, j requires 0 <= j < |cells| => Box(cells[j].0, cells[j].1, j, false))
  }

  lemma AsTargetsSnoc(cells: seq<(int, int)>, c: (int, int))
    ensures AsTargets(cells + [c]) == AsTargets(cells) + [Target(c.0, c.1, false)]
  {
    assert forall t :: 0 <= t < |cells| ==> (cells + [c])[t] == cells[t];
  }

  lemma AsBoxesSnoc(cells: seq<(int, int)>, c: (int, int))
    ensures AsBoxes(cells + [c]) == AsBoxes(cells) + [Box(c.0, c.1, |cells|, false)]
  {
    assert forall j :: 0 <= j < |cells| ==> (cells + [c])[j] == cells[j];
  }

  /** The level the generator builds from `draws`, stage by stage: the wall
      count and the wall attempts, the player, the target count and the
      targets, then as many boxes; `None` when a stage runs out of draws. */
  function GeneratedLevel(draws: seq<int>): (r: Option<GameState>)
    ensures r.Some? ==> 3 <= |r.value.targets| <= 6 && |r.value.boxes| == |r.value.targets|
    ensures r.Some? ==> |draws| > 0 && r.value.gameStatus == Playing && r.value.player.selectedBox == None
  {
    if |draws| == 0 then None
    else
      match Scatter(BorderGrid(), draws[1..], RandInt(draws[0], 8, 15))
      case None => None
      case Some((walls, afterWalls)) =>
        match FirstFree(walls, {}, afterWalls)
        case None => None
        case Some((player, afterPlayer)) =>
          if |afterPlayer| == 0 then None
          else
            var count := RandInt(afterPlayer[0], 3, 6);
            match PlaceMany(walls, {player}, afterPlayer[1..], count)
            case None => None
            case Some((targetCells, targetsTaken, afterTargets)) =>
              var targetPositions := targetsTaken - {player};
              var marked := Overlay(walls, targetPositions, TargetMark);
              var avoid := {player} + targetPositions;
              match PlaceMany(marked, avoid, afterTargets, count)
              case None => None
              case Some((boxCells, boxesTaken, _)) =>
                Some(GameState(
                  Player(player.0, player.1, None),
                  Overlay(marked, boxesTaken - avoid, BoxMark),
                  AsBoxes(boxCells), AsTargets(targetCells),
                  Score(0, 0, 0, 1000, false), Rewards(0, 0, false),
                  1, 0, Playing, 0, GridWidth, GridHeight))
  }

  /** An all-empty grid, then a wall border. */
  method BorderedGrid() returns (g: seq<seq<Cell>>)
    ensures g == BorderGrid()
  {
    g := [];
    for y := 0 to GridHeight
      invariant |g| == y
      invariant forall r :: 0 <= r < y ==> g[r] == seq(GridWidth, _ => Empty)
    {
      g := g + [seq(GridWidth, _ => Empty)];
    }
    for x := 0 to GridWidth
      invariant Shape(g)
      invariant forall yy, xx :: InGrid(xx, yy) ==>
        g[yy][xx] == (if (yy == 0 || yy == GridHeight - 1) && xx < x then Wall else Empty)
    {
      g := SetCell(g, x, 0, Wall);
      g := SetCell(g, x, GridHeight - 1, Wall);
    }
    for y := 0 to GridHeight
      invariant Shape(g)
      invariant forall yy, xx :: InGrid(xx, yy) ==>
        g[yy][xx] == (if yy == 0 || yy == GridHeight - 1 || ((xx == 0 || xx == GridWidth - 1) && yy < y) then Wall else Empty)
    {
      g := SetCell(g, 0, y, Wall);
      g := SetCell(g, GridWidth - 1, y, Wall);
    }
    GridsEqual(g, BorderGrid());
  }

  lemma NoInnerWalls(g: seq<seq<Cell>>)
    requires g == BorderGrid()
    ensures InnerWalls(g) == {}
  {
    assert forall y, x :: InGrid(x, y) && InWallZone(x, y) ==> g[y][x] == Empty;
  }

  lemma InnerWallsGrow(g: seq<seq<Cell>>, x: int, y: int)
    requires Shape(g) && InWallZone(x, y) && g[y][x] == Empty
    ensures InnerWalls(SetCell(g, x, y, Wall)) == InnerWalls(g) + {(x, y)}
  {
    var h := SetCell(g, x, y, Wall);
    forall p | p in InnerWalls(h) ensures p in InnerWalls(g) + {(x, y)} {
      var b, a :| 0 <= b < GridHeight && 0 <= a < GridWidth && InWallZone(a, b) && h[b][a] == Wall && p == (a, b);
      if a != x || b != y {
        assert g[b][a] == Wall;
      }
    }
    forall p | p in InnerWalls(g) ensures p in InnerWalls(h) {
      var b, a :| 0 <= b < GridHeight && 0 <= a < GridWidth && InWallZone(a, b) && g[b][a] == Wall && p == (a, b);
      assert h[b][a] == Wall;
    }
    assert (x, y) in InnerWalls(h);
  }

  lemma SameWallsSameInner(a: seq<seq<Cell>>, b: seq<seq<Cell>>)
    requires SameWalls(a, b)
    ensures InnerWalls(a) == InnerWalls(b)
  {
    forall p | p in InnerWalls(a) ensures p in InnerWalls(b) {
      var y, x :| 0 <= y < GridHeight && 0 <= x < GridWidth && InWallZone(x, y) && a[y][x] == Wall && p == (x, y);
      assert b[y][x] == Wall;
    }
    forall p | p in InnerWalls(b) ensures p in InnerWalls(a) {
      var y, x :| 0 <= y < GridHeight && 0 <= x < GridWidth && InWallZone(x, y) && b[y][x] == Wall && p == (x, y);
      assert a[y][x] == Wall;
    }
  }

  /** Internal walls: draw the wall count in [8, 15], then that many cells
      of the wall zone, each turned into a wall if it is still empty. */
  method ScatterWalls(g: seq<seq<Cell>>, ds: seq<int>) returns (ok: bool, walls: seq<seq<Cell>>, rest: seq<int>)
    requires g == BorderGrid()
    ensures ok <==> |ds| > 0 && Scatter(g, ds[1..], RandInt(ds[0], 8, 15)).Some?
    ensures ok ==> (walls, rest) == Scatter(g, ds[1..], RandInt(ds[0], 8, 15)).value
    ensures ok ==> WallLayout(walls) && |InnerWalls(walls)| <= RandInt(ds[0], 8, 15)
  {
    if |ds| == 0 {
      return false, g, ds;
    }
    var wallCount := RandInt(ds[0], 8, 15);
    rest := ds[1..];
    walls := g;
    for k := 0 to wallCount
      invariant Shape(walls)
      invariant Scatter(g, ds[1..], wallCount) == Scatter(walls, rest, wallCount - k)
    {
      if |rest| < 2 {
        return false, walls, rest;
      }
      var x := RandInt(rest[0], 2, GridWidth - 3);
      var y := RandInt(rest[1], 2, GridHeight - 3);
      rest := rest[2..];
      if walls[y][x] == Empty {
        walls := SetCell(walls, x, y, Wall);
      }
    }
    NoInnerWalls(g);
    ScatterLayout(g, ds[1..], wallCount);
    ok := true;
  }

  /** The player: draw interior cells until an empty one turns up. */
  method PlacePlayer(g: seq<seq<Cell>>, ds: seq<int>) returns (ok: bool, px: int, py: int, rest: seq<int>)
    requires Shape(g)
    ensures ok <==> FirstFree(g, {}, ds).Some?
    ensures ok ==> ((px, py), rest) == FirstFree(g, {}, ds).value
    ensures ok ==> Interior(px, py) && g[py][px] == Empty
  {
    rest := ds;
    while true
      invariant FirstFree(g, {}, ds) == FirstFree(g, {}, rest)
      decreases |rest|
    {
      if |rest| < 2 {
        return false, 0, 0, rest;
      }
      px := RandInt(rest[0], 1, GridWidth - 2);
      py := RandInt(rest[1], 1, GridHeight - 2);
      assert (px, py) == DrawnAt(rest, 0);
      rest := rest[2..];
      if g[py][px] == Empty {
        return true, px, py, rest;
      }
    }
  }

  /** Marks on cells that are already taken do not change what sampling accepts. */
  lemma {:induction false} FirstFreeOverlay(w: seq<seq<Cell>>, marks: set<(int, int)>, mark: Cell, taken: set<(int, int)>, ds: seq<int>)
    requires Shape(w) && marks <= taken
    ensures FirstFree(Overlay(w, marks, mark), taken, ds) == FirstFree(w, taken, ds)
    decreases |ds|
  {
    if |ds| >= 2 {
      FirstFreeOverlay(w, marks, mark, taken, ds[2..]);
    }
  }

  /** One rejection-sampling loop: draw interior cells until one is empty
      in `grid` and not among the `taken` cells (the player's, the targets'
      and the boxes' placed so far). */
  method DrawCell(grid: seq<seq<Cell>>, taken: set<(int, int)>, ds: seq<int>) returns (ok: bool, x: int, y: int, rest: seq<int>)
    requires Shape(grid)
    ensures ok <==> FirstFree(grid, taken, ds).Some?
    ensures ok ==> ((x, y), rest) == FirstFree(grid, taken, ds).value
  {
    rest := ds;
    while true
      invariant FirstFree(grid, taken, ds) == FirstFree(grid, taken, rest)
      decreases |rest|
    {
      if |rest| < 2 {
        return false, 0, 0, rest;
      }
      x := RandInt(rest[0], 1, GridWidth - 2);
      y := RandInt(rest[1], 1, GridHeight - 2);
      assert (x, y) == DrawnAt(rest, 0);
      rest := rest[2..];
      if grid[y][x] == Empty && (x, y) !in taken {
        return true, x, y, rest;
      }
    }
  }

  /** `g` is `walls` with the targets marked on distinct empty interior
      cells other than the player's, which is still empty. */
  ghost predicate TargetsPlaced(walls: seq<seq<Cell>>, g: seq<seq<Cell>>, targets: seq<Target>, px: int, py: int)
  {
    && SameWalls(walls, g) && Interior(px, py) && g[py][px] == Empty
    && (forall t :: 0 <= t < |targets| ==>
          && Interior(targets[t].x, targets[t].y)
          && g[targets[t].y][targets[t].x] == TargetMark
          && !targets[t].completed
          && (targets[t].x != px || targets[t].y != py))
    && TargetsDistinct(targets)
  }

  /** A run of target placements after the player gives targets placed as
      `TargetsPlaced` demands, on the grid with those cells marked. */
  lemma TargetStage(walls: seq<seq<Cell>>, ds: seq<int>, count: nat, px: int, py: int)
    requires WallLayout(walls) && Interior(px, py) && walls[py][px] == Empty
    requires PlaceMany(walls, {(px, py)}, ds, count).Some?
    ensures var (cells, taken, _) := PlaceMany(walls, {(px, py)}, ds, count).value;
      var positions := taken - {(px, py)};
      && |cells| == count
      && TargetsPlaced(walls, Overlay(walls, positions, TargetMark), AsTargets(cells), px, py)
      && forall t :: 0 <= t < |cells| ==> cells[t] in positions
  {
    PlaceManyFacts(walls, {(px, py)}, ds, count);
    var (cells, taken, _) := PlaceMany(walls, {(px, py)}, ds, count).value;
    var positions := taken - {(px, py)};
    var grid := Overlay(walls, positions, TargetMark);
    var targets := AsTargets(cells);
    forall y, x | InGrid(x, y) && (x, y) in positions ensures walls[y][x] == Empty {
      var k :| 0 <= k < |cells| && cells[k] == (x, y);
    }
    assert SameWalls(walls, grid);
    forall t | 0 <= t < |targets|
      ensures grid[targets[t].y][targets[t].x] == TargetMark
    {
      assert cells[t] in positions;
    }
  }

  /** A run of box placements avoiding the player and the targets gives
      boxes placed as `BoxesPlaced` demands, on the grid with them marked. */
  lemma BoxStage(walls: seq<seq<Cell>>, g: seq<seq<Cell>>, targets: seq<Target>, targetPositions: set<(int, int)>,
                 count: nat, ds: seq<int>, px: int, py: int)
    requires TargetsPlaced(walls, g, targets, px, py) && count == |targets|
    requires forall t :: 0 <= t < |targets| ==> (targets[t].x, targets[t].y) in targetPositions
    requires PlaceMany(g, {(px, py)} + targetPositions, ds, count).Some?
    ensures var avoid := {(px, py)} + targetPositions;
      var (cells, taken, _) := PlaceMany(g, avoid, ds, count).value;
      BoxesPlaced(walls, Overlay(g, taken - avoid, BoxMark), targets, AsBoxes(cells), px, py)
  {
    var avoid := {(px, py)} + targetPositions;
    PlaceManyFacts(g, avoid, ds, count);
    var (cells, taken, _) := PlaceMany(g, avoid, ds, count).value;
    var grid := Overlay(g, taken - avoid, BoxMark);
    var boxes := AsBoxes(cells);
    assert forall c :: c in taken - avoid <==> c in cells;
    assert SameWalls(walls, grid);
    forall t | 0 <= t < |targets|
      ensures grid[targets[t].y][targets[t].x] == TargetMark
    {
      assert (targets[t].x, targets[t].y) in avoid;
    }
    forall j | 0 <= j < |boxes|
      ensures grid[boxes[j].y][boxes[j].x] == BoxMark
      ensures !HasTarget(targets, boxes[j].x, boxes[j].y)
    {
      assert cells[j] in taken - avoid;
    }
  }

  /** The targets: draw the target count in [3, 6]; for each target draw
      interior cells until one is empty, not the player's and not yet a
      target. */
  method PlaceTargets(walls: seq<seq<Cell>>, ds: seq<int>, px: int, py: int)
    returns (ok: bool, grid: seq<seq<Cell>>, targets: seq<Target>, positions: set<(int, int)>, targetCount: nat, rest: seq<int>)
    requires WallLayout(walls) && Interior(px, py) && walls[py][px] == Empty
    ensures ok <==> |ds| > 0 && PlaceMany(walls, {(px, py)}, ds[1..], RandInt(ds[0], 3, 6)).Some?
    ensures ok ==> targetCount == RandInt(ds[0], 3, 6) == |targets|
    ensures ok ==>
      var (cells, taken, left) := PlaceMany(walls, {(px, py)}, ds[1..], targetCount).value;
      && targets == AsTargets(cells) && positions == taken - {(px, py)} && rest == left
      && grid == Overlay(walls, positions, TargetMark)
    ensures ok ==> TargetsPlaced(walls, grid, targets, px, py)
    ensures ok ==> forall t :: 0 <= t < |targets| ==> (targets[t].x, targets[t].y) in positions
  {
    if |ds| == 0 {
      return false, walls, [], {}, 0, ds;
    }
    var count := RandInt(ds[0], 3, 6);
    targetCount := count;
    rest := ds[1..];
    grid, targets, positions := walls, [], {};
    ghost var cells: seq<(int, int)> := [];
    OverlayNothing(walls, TargetMark);
    var player := {(px, py)};
    ghost var taken := player;
    ghost var run := PlaceMany(walls, player, rest, count);
    AfterNothing(run);
    for i := 0 to count
      invariant |cells| == i && targets == AsTargets(cells)
      invariant (px, py) !in positions && taken == player + positions
      invariant grid == Overlay(walls, positions, TargetMark)
      invariant run == After(cells, PlaceMany(walls, taken, rest, count - i))
    {
      var found, x, y;
      ghost var start := rest;
      found, x, y, rest := DrawCell(grid, player + positions, rest);
      PlaceNext(walls, positions, TargetMark, taken, start, count - i, cells);
      if !found {
        return false, grid, targets, positions, targetCount, rest;
      }
      assert FirstFree(Overlay(walls, positions, TargetMark), taken, start) == Some(((x, y), rest));
      AsTargetsSnoc(cells, (x, y));
      targets := targets + [Target(x, y, false)];
      cells := cells + [(x, y)];
      positions := positions + {(x, y)};
      taken := taken + {(x, y)};
      grid := SetCell(grid, x, y, TargetMark);
    }
    assert taken - player == positions;
    TargetStage(walls, ds[1..], targetCount, px, py);
    ok := true;
  }

  /** `g` is `walls` with the targets and the boxes marked; the boxes have
      ids 0, 1, ... in order, lie on distinct interior cells that are
      neither the player's nor a target's, and are not flagged on target. */
  ghost predicate BoxesPlaced(walls: seq<seq<Cell>>, g: seq<seq<Cell>>, targets: seq<Target>, boxes: seq<Box>, px: int, py: int)
  {
    && TargetsPlaced(walls, g, targets, px, py)
    && (forall j :: 0 <= j < |boxes| ==>
          && Interior(boxes[j].x, boxes[j].y)
          && g[boxes[j].y][boxes[j].x] == BoxMark
          && boxes[j].id == j
          && !boxes[j].onTarget
          && (boxes[j].x != px || boxes[j].y != py)
          && !HasTarget(targets, boxes[j].x, boxes[j].y))
    && Rules.BoxesDistinct(boxes)
  }

  /** The boxes, as many as targets: for each draw interior cells until one
      is empty, not the player's, not a target's and not yet a box's. */
  method PlaceBoxes(walls: seq<seq<Cell>>, g: seq<seq<Cell>>, targets: seq<Target>, targetPositions: set<(int, int)>,
                    count: nat, ds: seq<int>, px: int, py: int)
    returns (ok: bool, grid: seq<seq<Cell>>, boxes: seq<Box>, rest: seq<int>)
    requires TargetsPlaced(walls, g, targets, px, py) && count == |targets|
    requires forall t :: 0 <= t < |targets| ==> (targets[t].x, targets[t].y) in targetPositions
    ensures ok <==> PlaceMany(g, {(px, py)} + targetPositions, ds, count).Some?
    ensures ok ==>
      var (cells, taken, left) := PlaceMany(g, {(px, py)} + targetPositions, ds, count).value;
      && boxes == AsBoxes(cells) && rest == left
      && grid == Overlay(g, taken - ({(px, py)} + targetPositions), BoxMark)
    ensures ok ==> |boxes| == |targets| && BoxesPlaced(walls, grid, targets, boxes, px, py)
  {
    rest := ds;
    grid, boxes := g, [];
    var boxPositions: set<(int, int)> := {};
    ghost var cells: seq<(int, int)> := [];
    var avoid := {(px, py)} + targetPositions;
    OverlayNothing(g, BoxMark);
    ghost var taken := avoid;
    ghost var run := PlaceMany(g, avoid, ds, count);
    AfterNothing(run);
    for i := 0 to count
      invariant |cells| == i && boxes == AsBoxes(cells)
      invariant boxPositions !! avoid && taken == avoid + boxPositions
      invariant grid == Overlay(g, boxPositions, BoxMark)
      invariant run == After(cells, PlaceMany(g, taken, rest, count - i))
    {
      var found, x, y;
      ghost var start := rest;
      found, x, y, rest := DrawCell(grid, avoid + boxPositions, rest);
      PlaceNext(g, boxPositions, BoxMark, taken, start, count - i, cells);
      if !found {
        return false, grid, boxes, rest;
      }
      assert FirstFree(Overlay(g, boxPositions, BoxMark), taken, start) == Some(((x, y), rest));
      AsBoxesSnoc(cells, (x, y));
      boxes := boxes + [Box(x, y, i, false)];
      cells := cells + [(x, y)];
      boxPositions := boxPositions + {(x, y)};
      taken := taken + {(x, y)};
      grid := SetCell(grid, x, y, BoxMark);
    }
    assert taken - avoid == boxPositions;
    BoxStage(walls, g, targets, targetPositions, count, ds, px, py);
    ok := true;
  }

  /** What a freshly generated level looks like. */
  ghost predicate FreshLevel(s: GameState)
  {
    && s.gridWidth == GridWidth && s.gridHeight == GridHeight
    && WallsInPlace(s.grid)
    && Interior(s.player.x, s.player.y) && s.grid[s.player.y][s.player.x] == Empty
    && s.player.selectedBox == None
    && 3 <= |s.targets| <= 6
    && (forall t :: 0 <= t < |s.targets| ==>
          && Interior(s.targets[t].x, s.targets[t].y)
          && s.grid[s.targets[t].y][s.targets[t].x] == TargetMark
          && !s.targets[t].completed
          && (s.targets[t].x != s.player.x || s.targets[t].y != s.player.y))
    && TargetsDistinct(s.targets)
    && |s.boxes| == |s.targets|
    && (forall j :: 0 <= j < |s.boxes| ==>
          && Interior(s.boxes[j].x, s.boxes[j].y)
          && s.grid[s.boxes[j].y][s.boxes[j].x] == BoxMark
          && s.boxes[j].id == j
          && !s.boxes[j].onTarget
          && (s.boxes[j].x != s.player.x || s.boxes[j].y != s.player.y)
          && !HasTarget(s.targets, s.boxes[j].x, s.boxes[j].y))
    && Rules.BoxesDistinct(s.boxes)
    && s.score == Score(0, 0, 0, 1000, false)
    && s.rewards == Rewards(0, 0, false)
    && s.level == 1 && s.turnNumber == 0 && s.gameStatus == Playing && s.step == 0
  }

  /** Generate a level from the draws: walls, player, targets, boxes, and a
      zeroed score; exactly the level `GeneratedLevel` describes. */
  method GenerateBoxPushingState(draws: seq<int>) returns (r: Option<GameState>)
    ensures r == GeneratedLevel(draws)
    ensures r.Some? ==> FreshLevel(r.value)
    ensures r.Some? ==> |draws| > 0 && |InnerWalls(r.value.grid)| <= RandInt(draws[0], 8, 15)
  {
    var grid := BorderedGrid();
    var ok, walls, rest := ScatterWalls(grid, draws);
    if !ok {
      return None;
    }
    var px, py;
    ok, px, py, rest := PlacePlayer(walls, rest);
    if !ok {
      return None;
    }
    var targets, targetPositions, targetCount;
    ok, grid, targets, targetPositions, targetCount, rest := PlaceTargets(walls, rest, px, py);
    if !ok {
      return None;
    }
    var boxes;
    ok, grid, boxes, rest := PlaceBoxes(walls, grid, targets, targetPositions, targetCount, rest, px, py);
    if !ok {
      return None;
    }
    SameWallsSameInner(walls, grid);
    r := Some(GameState(
      Player(px, py, None), grid, boxes, targets,
      Score(0, 0, 0, 1000, false), Rewards(0, 0, false),
      1, 0, Playing, 0, GridWidth, GridHeight));
  }

  /** A fresh level is settled and not yet won, and stays unwon after the
      first recomputation. */
  lemma FreshLevelSettled(s: GameState)
    requires FreshLevel(s)
    ensures Rules.Settled(s)
    ensures Rules.Update(s).gameStatus == Playing
  {
    assert forall j, t :: 0 <= j < |s.boxes| && 0 <= t < |s.targets| ==>
      s.boxes[j].x != s.targets[t].x || s.boxes[j].y != s.targets[t].y;
    Rules.UpdateStatus(s);
  }
}
