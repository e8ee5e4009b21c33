/**
 * The city grid of `CityGrid`: the obstruction matrix, the registry of placed
 * towers, tower placement and the per-cell coverage count that the optimizer
 * runs in its innermost loop.
 */
module City {

  /** The obstruction matrix: `cells[x][y]` is true when a tower may be built at row `x`, column `y`. */
  datatype Grid = Grid(n: nat, m: nat, cells: seq<seq<bool>>)

  /** A placed tower `(x, y, range)`; `range` is compared squared, so its sign is irrelevant. */
  datatype Tower = Tower(x: int, y: int, range: int)

  /** A grid cell named by row and column. */
  datatype Cell = Cell(x: int, y: int)

  /** The matrix really is `n` rows of `m` columns. */
  predicate ValidGrid(g: Grid) {
    |g.cells| == g.n && forall i :: 0 <= i < g.n ==> |g.cells[i]| == g.m
  }

  predicate InBounds(g: Grid, x: int, y: int) {
    0 <= x < g.n && 0 <= y < g.m
  }

  /** In bounds and not obstructed, tested in the order of the placement guard. */
  predicate Passable(g: Grid, x: int, y: int)
    requires ValidGrid(g)
  {
    InBounds(g, x, y) && g.cells[x][y]
  }

  /** Squared Euclidean distance between two grid points. */
  function SqDist(x1: int, y1: int, x2: int, y2: int): nat {
    (x1 - x2) * (x1 - x2) + (y1 - y2) * (y1 - y2)
  }

  /** Squared distance does not depend on the order of the two points. */
  lemma SqDistSymmetric(x1: int, y1: int, x2: int, y2: int)
    ensures SqDist(x1, y1, x2, y2) == SqDist(x2, y2, x1, y1)
  {
    assert (x1 - x2) * (x1 - x2) == (x2 - x1) * (x2 - x1);
    assert (y1 - y2) * (y1 - y2) == (y2 - y1) * (y2 - y1);
  }

  /** Tower `t` covers cell `(x, y)` when the squared distance is at most `range²`. */
  predicate Covers(t: Tower, x: int, y: int) {
    SqDist(x, y, t.x, t.y) <= t.range * t.range
  }

  /** Every tower of the registry stands on a passable cell. */
  predicate OnPassableCells(g: Grid, ts: seq<Tower>)
    requires ValidGrid(g)
  {
    forall i :: 0 <= i < |ts| ==> Passable(g, ts[i].x, ts[i].y)
  }

  /**
   * Placing a tower: the registry grows by exactly `(x, y, r)` when the cell is
   * inside the grid and passable, and is left as it was otherwise (no error).
   */
  function PlaceTower(g: Grid, ts: seq<Tower>, x: int, y: int, r: int): (ts': seq<Tower>)
    requires ValidGrid(g)
    ensures ts <= ts' && |ts'| <= |ts| + 1
    ensures |ts'| == |ts| + 1 <==> Passable(g, x, y)
    ensures |ts'| > |ts| ==> ts'[|ts|] == Tower(x, y, r)
  {
    if 0 <= x < g.n && 0 <= y < g.m && g.cells[x][y] then ts + [Tower(x, y, r)] else ts
  }

  /** Placement keeps the registry invariant that towers stand only on passable cells. */
  lemma PlaceTowerKeepsCellsPassable(g: Grid, ts: seq<Tower>, x: int, y: int, r: int)
    requires ValidGrid(g) && OnPassableCells(g, ts)
    ensures OnPassableCells(g, PlaceTower(g, ts, x, y, r))
  {
    var ts' := PlaceTower(g, ts, x, y, r);
    forall i | 0 <= i < |ts'|
      ensures Passable(g, ts'[i].x, ts'[i].y)
    {
      if i < |ts| {
        assert ts'[i] == ts[i];
      }
    }
  }

  /** A tower always covers the cell it stands on: the distance is 0 and `0 <= range²`. */
  lemma CoversOwnCell(x: int, y: int, r: int)
    ensures Covers(Tower(x, y, r), x, y)
  {
    assert SqDist(x, y, x, y) == 0;
    assert r * r >= 0;
  }

  /**
   * The number of towers covering `(x, y)`. It is zero exactly when no tower
   * of the registry covers the cell.
   */
  function CoverageCount(ts: seq<Tower>, x: int, y: int): (c: nat)
    ensures c <= |ts|
    ensures c == 0 <==> forall i :: 0 <= i < |ts| ==> !Covers(ts[i], x, y)
    decreases |ts|
  {
    if |ts| == 0 then 0
    else CoverageCount(ts[..|ts| - 1], x, y) + (if Covers(ts[|ts| - 1], x, y) then 1 else 0)
  }

  /** Appending a tower adds one to the count exactly when the new tower covers the cell. */
  lemma CoverageCountAppend(ts: seq<Tower>, t: Tower, x: int, y: int)
    ensures CoverageCount(ts + [t], x, y) == CoverageCount(ts, x, y) + (if Covers(t, x, y) then 1 else 0)
  {
    assert (ts + [t])[..|ts|] == ts;
  }

  /** The literal tower loop of the optimizer: it counts the towers in range of `(x, y)`. */
  method CountCoverage(ts: seq<Tower>, x: int, y: int) returns (total: nat)
    ensures total == CoverageCount(ts, x, y)
    ensures total == 0 <==> forall i :: 0 <= i < |ts| ==> !Covers(ts[i], x, y)
  {
    total := 0;
    var i := 0;
    while i < |ts|
      invariant 0 <= i <= |ts|
      invariant total == CoverageCount(ts[..i], x, y)
    {
      var distance := (x - ts[i].x) * (x - ts[i].x) + (y - ts[i].y) * (y - ts[i].y);
      if distance <= ts[i].range * ts[i].range {
        total := total + 1;
      }
      assert ts[..i + 1][..i] == ts[..i];
      i := i + 1;
    }
    assert ts[..|ts|] == ts;
  }
}
