/**
 * One scan of the optimizer over the grid: the first passable cell, in
 * row-major order, that no tower covers yet.
 */
module Scan {
  import opened Common
  import opened City

  /** A cell the optimizer may choose: passable and covered by no tower. */
  predicate Uncovered(g: Grid, ts: seq<Tower>, x: int, y: int)
    requires ValidGrid(g)
  {
    Passable(g, x, y) && CoverageCount(ts, x, y) == 0
  }

  /** Row-major order: earlier row first, then earlier column. */
  predicate RowMajorBefore(a: Cell, b: Cell) {
    a.x < b.x || (a.x == b.x && a.y < b.y)
  }

  /** All cells still open to the optimizer; its size bounds the number of placements left. */
  function UncoveredCells(g: Grid, ts: seq<Tower>): set<Cell>
    requires ValidGrid(g)
  {
    set x: int, y: int | 0 <= x < g.n && 0 <= y < g.m && Uncovered(g, ts, x, y) :: Cell(x, y)
  }

  /** The first uncovered cell of row `x` at column `y` or later. */
  function FirstInRow(g: Grid, ts: seq<Tower>, x: int, y: nat): (r: Option<Cell>)
    requires ValidGrid(g)
    ensures r.Some? ==> r.value.x == x && y <= r.value.y && Uncovered(g, ts, x, r.value.y)
    ensures r.Some? ==> forall y' :: y <= y' < r.value.y ==> !Uncovered(g, ts, x, y')
    ensures r.None? ==> forall y' :: y <= y' ==> !Uncovered(g, ts, x, y')
    decreases g.m - y
  {
    if y >= g.m then None
    else if Uncovered(g, ts, x, y) then Some(Cell(x, y))
    else FirstInRow(g, ts, x, y + 1)
  }

  /** The first uncovered cell, in row-major order, of the rows from `x` on. */
  function FirstFromRow(g: Grid, ts: seq<Tower>, x: nat): (r: Option<Cell>)
    requires ValidGrid(g)
    ensures r.Some? ==> x <= r.value.x && Uncovered(g, ts, r.value.x, r.value.y)
    ensures r.Some? ==> forall x', y' :: x <= x' && Uncovered(g, ts, x', y') ==> !RowMajorBefore(Cell(x', y'), r.value)
    ensures r.None? ==> forall x', y' :: x <= x' ==> !Uncovered(g, ts, x', y')
    decreases g.n - x
  {
    if x >= g.n then None
    else
      match FirstInRow(g, ts, x, 0)
      case Some(c) => Some(c)
      case None => FirstFromRow(g, ts, x + 1)
  }

  /**
   * The cell the optimizer picks: the row-major minimum of the uncovered
   * cells, or `None` exactly when every passable cell is already covered.
   */
  function FirstUncovered(g: Grid, ts: seq<Tower>): (r: Option<Cell>)
    requires ValidGrid(g)
    ensures r.Some? ==> Uncovered(g, ts, r.value.x, r.value.y)
    ensures r.Some? ==> forall x', y' :: Uncovered(g, ts, x', y') ==> !RowMajorBefore(Cell(x', y'), r.value)
    ensures r.None? <==> forall x', y' :: !Uncovered(g, ts, x', y')
  {
    FirstFromRow(g, ts, 0)
  }

  /** A cell that is uncovered and preceded by no uncovered cell is the one `FirstUncovered` returns. */
  lemma FirstUncoveredUnique(g: Grid, ts: seq<Tower>, c: Cell)
    requires ValidGrid(g)
    requires Uncovered(g, ts, c.x, c.y)
    requires forall x', y' :: Uncovered(g, ts, x', y') ==> !RowMajorBefore(Cell(x', y'), c)
    ensures FirstUncovered(g, ts) == Some(c)
  {
    var r := FirstUncovered(g, ts);
    assert r.Some?;
    assert !RowMajorBefore(c, r.value);
    assert !RowMajorBefore(r.value, c);
  }

  /**
   * Placing a tower on an uncovered cell removes that cell from the uncovered
   * set and adds none: the measure that makes the optimizer's loop terminate.
   */
  lemma PlaceShrinksUncovered(g: Grid, ts: seq<Tower>, c: Cell, r: int)
    requires ValidGrid(g)
    requires Uncovered(g, ts, c.x, c.y)
    ensures UncoveredCells(g, ts + [Tower(c.x, c.y, r)]) < UncoveredCells(g, ts)
    ensures |UncoveredCells(g, ts + [Tower(c.x, c.y, r)])| < |UncoveredCells(g, ts)|
  {
    var t := Tower(c.x, c.y, r);
    var before := UncoveredCells(g, ts);
    var after := UncoveredCells(g, ts + [t]);
    forall d | d in after
      ensures d in before
    {
      CoverageCountAppend(ts, t, d.x, d.y);
    }
    CoversOwnCell(c.x, c.y, r);
    CoverageCountAppend(ts, t, c.x, c.y);
    assert c in before;
    assert c !in after;
    assert after <= before - {c};
    assert |before - {c}| == |before| - 1;
    SubsetCardinality(after, before - {c});
  }

  lemma SubsetCardinality<T>(a: set<T>, b: set<T>)
    requires a <= b
    ensures |a| <= |b|
  {
    assert b == a + (b - a);
  }

  /** What one literal scan of the grid reports. */
  datatype ScanOutcome =
    | Found(cell: Cell)
    | NotFound
      /** The scan chose a cell before Python's local `distance` was ever assigned. */
    | UnboundDistance

  /**
   * The literal scan of one optimizer iteration. `bound` says whether the
   * optimizer's local `distance` has been assigned earlier in the same call;
   * it becomes assigned whenever the tower loop runs for a passable cell.
   * The strict comparison against `bestCoverage`, which starts at 0 and then
   * holds the type's constant score, keeps the FIRST qualifying cell, and
   * none qualifies when the score is not positive.
   */
  method ScanGrid(g: Grid, ts: seq<Tower>, coverage: int, bound: bool) returns (r: ScanOutcome, bound': bool)
    requires ValidGrid(g)
    requires bound ==> |ts| > 0
    ensures bound' ==> |ts| > 0
    ensures r.Found? <==> coverage > 0 && |ts| > 0 && FirstUncovered(g, ts).Some?
    ensures r.Found? ==> FirstUncovered(g, ts) == Some(r.cell)
    ensures r.UnboundDistance? <==> coverage > 0 && |ts| == 0 && FirstUncovered(g, ts).Some?
  {
    var best: Option<Cell> := None;
    var bestCoverage := 0;
    bound' := bound;
    var x := 0;
    while x < g.n
      invariant 0 <= x <= g.n
      invariant bound' ==> |ts| > 0
      invariant best.Some? ==> coverage > 0 && bound' && bestCoverage == coverage
      invariant best.None? ==> bestCoverage == 0
      invariant best.Some? ==> Uncovered(g, ts, best.value.x, best.value.y)
      invariant best.Some? ==> forall x', y' :: Uncovered(g, ts, x', y') ==> !RowMajorBefore(Cell(x', y'), best.value)
      invariant best.None? && coverage > 0 ==> forall x', y' :: x' < x ==> !Uncovered(g, ts, x', y')
    {
      var y := 0;
      while y < g.m
        invariant 0 <= y <= g.m
        invariant bound' ==> |ts| > 0
        invariant best.Some? ==> coverage > 0 && bound' && bestCoverage == coverage
        invariant best.None? ==> bestCoverage == 0
        invariant best.Some? ==> Uncovered(g, ts, best.value.x, best.value.y)
        invariant best.Some? ==> forall x', y' :: Uncovered(g, ts, x', y') ==> !RowMajorBefore(Cell(x', y'), best.value)
        invariant best.None? && coverage > 0 ==> forall x', y' :: x' < x || (x' == x && y' < y) ==> !Uncovered(g, ts, x', y')
      {
        if g.cells[x][y] {
          var totalCoverage := CountCoverage(ts, x, y);
          if |ts| > 0 {
            bound' := true;
          }
          if totalCoverage == 0 && coverage > bestCoverage {
            if !bound' {
              assert Uncovered(g, ts, x, y);
              return UnboundDistance, bound';
            }
            best := Some(Cell(x, y));
            bestCoverage := coverage;
          }
        }
        y := y + 1;
      }
      x := x + 1;
    }
    match best
    case Some(c) =>
      FirstUncoveredUnique(g, ts, c);
      r := Found(c);
    case None =>
      r := NotFound;
  }
}
