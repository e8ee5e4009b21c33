/**
 * The budgeted greedy optimizer of `CityGrid.optimize_tower_placement`: for
 * each tower type in turn the budget is reset, and while it covers the type's
 * cost one tower is put on the first uncovered passable cell.
 */
module Optimizer {
  import opened Common
  import opened City
  import opened Scan

  /** A tower type record: its range, its (constant) desirability score and its cost. */
  datatype TowerType = TowerType(range: int, coverage: int, cost: int)

  /**
   * The optimizer's only failure: choosing a cell reads the local `distance`,
   * which is assigned only inside the tower loop, so with no tower placed yet
   * Python raises `UnboundLocalError`.
   */
  datatype OptimizeError = UnboundLocalDistance

  /** The cell one scan selects for type `t`; a type whose score is not positive selects nothing. */
  function Select(g: Grid, ts: seq<Tower>, t: TowerType): Option<Cell>
    requires ValidGrid(g)
  {
    if t.coverage > 0 then FirstUncovered(g, ts) else None
  }

  /** Placing on an uncovered cell always appends: the cell is in bounds and passable. */
  lemma PlaceOnUncoveredAppends(g: Grid, ts: seq<Tower>, c: Cell, r: int)
    requires ValidGrid(g) && Uncovered(g, ts, c.x, c.y)
    ensures PlaceTower(g, ts, c.x, c.y, r) == ts + [Tower(c.x, c.y, r)]
  {
    var ts' := PlaceTower(g, ts, c.x, c.y, r);
    assert |ts'| == |ts| + 1;
    assert ts'[..|ts|] == ts;
    assert ts' == ts'[..|ts|] + [ts'[|ts|]];
  }

  /**
   * The `while` loop for one tower type, starting with `remaining` budget.
   * It terminates because every placement removes at least one cell from
   * `UncoveredCells`, whatever the sign of the cost.
   */
  function FillType(g: Grid, ts: seq<Tower>, t: TowerType, remaining: int): Result<seq<Tower>, OptimizeError>
    requires ValidGrid(g)
    decreases |UncoveredCells(g, ts)|
  {
    if remaining < t.cost then Success(ts)
    else
      match Select(g, ts, t)
      case None => Success(ts)
      case Some(c) =>
        if |ts| == 0 then Failure(UnboundLocalDistance)
        else
          PlaceShrinksUncovered(g, ts, c, t.range);
          PlaceOnUncoveredAppends(g, ts, c, t.range);
          FillType(g, PlaceTower(g, ts, c.x, c.y, t.range), t, remaining - t.cost)
  }

  /** The whole optimizer: the tower types in order, each starting from the full budget. */
  function OptimizeSpec(g: Grid, ts: seq<Tower>, budget: int, types: seq<TowerType>): Result<seq<Tower>, OptimizeError>
    requires ValidGrid(g)
    decreases |types|, 0
  {
    if |types| == 0 then Success(ts)
    else AfterType(g, FillType(g, ts, types[0], budget), budget, types[1..])
  }

  /** Continues with the remaining types after one type's loop, unless that loop failed. */
  function AfterType(g: Grid, r: Result<seq<Tower>, OptimizeError>, budget: int, rest: seq<TowerType>): Result<seq<Tower>, OptimizeError>
    requires ValidGrid(g)
    decreases |rest|, 1
  {
    match r
    case Failure(e) => Failure(e)
    case Success(ts) => OptimizeSpec(g, ts, budget, rest)
  }

  /**
   * The optimizer as written: nested loops over types and budget, the grid
   * scan, and the flag recording whether `distance` has been assigned yet.
   * It computes exactly `OptimizeSpec`, in particular it fails exactly when
   * the functional model does.
   */
  method Optimize(g: Grid, towers: seq<Tower>, budget: int, types: seq<TowerType>) returns (r: Result<seq<Tower>, OptimizeError>)
    requires ValidGrid(g)
    ensures r == OptimizeSpec(g, towers, budget, types)
  {
    var ts := towers;
    var distanceBound := false;
    var i := 0;
    while i < |types|
      invariant 0 <= i <= |types|
      invariant distanceBound ==> |ts| > 0
      invariant OptimizeSpec(g, towers, budget, types) == OptimizeSpec(g, ts, budget, types[i..])
    {
      var t := types[i];
      var remaining := budget;
      assert types[i..][1..] == types[i + 1..];
      while remaining >= t.cost
        invariant distanceBound ==> |ts| > 0
        invariant OptimizeSpec(g, towers, budget, types) == AfterType(g, FillType(g, ts, t, remaining), budget, types[i + 1..])
        decreases |UncoveredCells(g, ts)|
      {
        var found;
        found, distanceBound := ScanGrid(g, ts, t.coverage, distanceBound);
        match found
        case UnboundDistance =>
          return Failure(UnboundLocalDistance);
        case NotFound =>
          break;
        case Found(c) =>
          PlaceShrinksUncovered(g, ts, c, t.range);
          PlaceOnUncoveredAppends(g, ts, c, t.range);
          ts := PlaceTower(g, ts, c.x, c.y, t.range);
          remaining := remaining - t.cost;
      }
      i := i + 1;
    }
    return Success(ts);
  }

  /**
   * Tower `k` of `ts'` is a greedy placement for a type of range `range`:
   * it carries that range and stands on the first cell, in row-major order,
   * that was passable and covered by none of the towers before it.
   */
  predicate GreedyPlacement(g: Grid, ts': seq<Tower>, k: nat, range: int)
    requires ValidGrid(g) && k < |ts'|
  {
    && ts'[k].range == range
    && Passable(g, ts'[k].x, ts'[k].y)
    && (forall i :: 0 <= i < k ==> !Covers(ts'[i], ts'[k].x, ts'[k].y))
    && FirstUncovered(g, ts'[..k]) == Some(Cell(ts'[k].x, ts'[k].y))
  }

  /** Tower `k` of `ts'` is a greedy placement for one of `types` with a positive score. */
  predicate PlacedBySomeType(g: Grid, ts': seq<Tower>, k: nat, types: seq<TowerType>)
    requires ValidGrid(g) && k < |ts'|
  {
    exists j :: 0 <= j < |types| && types[j].coverage > 0 && GreedyPlacement(g, ts', k, types[j].range)
  }

  /**
   * One type's loop only appends, and each appended tower is a greedy
   * placement of that type, made only for a type with a positive score.
   */
  lemma {:induction false} FillTypeAppendsGreedily(g: Grid, ts: seq<Tower>, t: TowerType, remaining: int)
    requires ValidGrid(g)
    ensures FillType(g, ts, t, remaining).Success? ==> ts <= FillType(g, ts, t, remaining).value
    ensures FillType(g, ts, t, remaining).Success? ==>
      var ts' := FillType(g, ts, t, remaining).value;
      forall k :: |ts| <= k < |ts'| ==> t.coverage > 0 && GreedyPlacement(g, ts', k, t.range)
    decreases |UncoveredCells(g, ts)|
  {
    if remaining >= t.cost && Select(g, ts, t).Some? && |ts| > 0 {
      var c := Select(g, ts, t).value;
      PlaceShrinksUncovered(g, ts, c, t.range);
      PlaceOnUncoveredAppends(g, ts, c, t.range);
      var ts1 := ts + [Tower(c.x, c.y, t.range)];
      FillTypeAppendsGreedily(g, ts1, t, remaining - t.cost);
      var r := FillType(g, ts, t, remaining);
      assert r == FillType(g, ts1, t, remaining - t.cost);
      if r.Success? {
        var ts' := r.value;
        assert ts'[..|ts|] == ts by {
          assert ts'[..|ts1|] == ts1;
          assert ts'[..|ts|] == ts1[..|ts|];
        }
        assert ts'[..|ts1|] == ts1;
        forall k | |ts| <= k < |ts'|
          ensures t.coverage > 0 && GreedyPlacement(g, ts', k, t.range)
        {
          if k == |ts| {
            assert ts'[k] == Tower(c.x, c.y, t.range);
          }
        }
      }
    }
  }

  /** One iteration of a type's loop: place on the selected cell and pay the cost. */
  lemma FillTypeStep(g: Grid, ts: seq<Tower>, t: TowerType, remaining: int)
    requires ValidGrid(g)
    requires remaining >= t.cost && Select(g, ts, t).Some? && |ts| > 0
    ensures var c := Select(g, ts, t).value;
      FillType(g, ts, t, remaining) == FillType(g, ts + [Tower(c.x, c.y, t.range)], t, remaining - t.cost)
  {
    var c := Select(g, ts, t).value;
    PlaceOnUncoveredAppends(g, ts, c, t.range);
  }

  /**
   * The budget bound of one type: `k` placements cost `k * cost`, which never
   * exceeds the budget the type started with.
   */
  lemma {:induction false} FillTypeWithinBudget(g: Grid, ts: seq<Tower>, t: TowerType, remaining: int)
    requires ValidGrid(g)
    ensures FillType(g, ts, t, remaining).Success? ==>
      var k := |FillType(g, ts, t, remaining).value| - |ts|;
      k >= 0 && (k == 0 || k * t.cost <= remaining)
    decreases |UncoveredCells(g, ts)|
  {
    if remaining >= t.cost && Select(g, ts, t).Some? && |ts| > 0 {
      var c := Select(g, ts, t).value;
      PlaceShrinksUncovered(g, ts, c, t.range);
      var ts1 := ts + [Tower(c.x, c.y, t.range)];
      FillTypeStep(g, ts, t, remaining);
      FillTypeWithinBudget(g, ts1, t, remaining - t.cost);
      var r := FillType(g, ts1, t, remaining - t.cost);
      if r.Success? {
        var k1 := |r.value| - |ts1|;
        MulSucc(k1, t.cost);
      }
    }
  }

  /** The state in which a type's loop stops: the budget left is below the cost, or no cell can be selected. */
  predicate LoopDone(g: Grid, ts: seq<Tower>, t: TowerType, left: int)
    requires ValidGrid(g)
  {
    left < t.cost || Select(g, ts, t).None?
  }

  /**
   * A type's loop stops only when done: after `k` placements the budget left
   * is `remaining - k * cost`, and either it is below the cost or no cell can
   * be selected.
   */
  lemma {:induction false} FillTypeStopsOnlyWhenDone(g: Grid, ts: seq<Tower>, t: TowerType, remaining: int)
    requires ValidGrid(g)
    ensures FillType(g, ts, t, remaining).Success? ==>
      var ts' := FillType(g, ts, t, remaining).value;
      LoopDone(g, ts', t, remaining - (|ts'| - |ts|) * t.cost)
    decreases |UncoveredCells(g, ts)|
  {
    if remaining >= t.cost && Select(g, ts, t).Some? && |ts| > 0 {
      var c := Select(g, ts, t).value;
      PlaceShrinksUncovered(g, ts, c, t.range);
      var ts1 := ts + [Tower(c.x, c.y, t.range)];
      FillTypeStep(g, ts, t, remaining);
      FillTypeStopsOnlyWhenDone(g, ts1, t, remaining - t.cost);
      var r := FillType(g, ts1, t, remaining - t.cost);
      if r.Success? {
        var k1 := |r.value| - |ts1|;
        assert |r.value| - |ts| == k1 + 1;
        LeftAfterOneMore(remaining, t.cost, k1);
      }
    } else {
      FillTypeStopsHere(g, ts, t, remaining);
    }
  }

  /** When the loop does not iterate, it returns the registry unchanged, in the stopping state. */
  lemma FillTypeStopsHere(g: Grid, ts: seq<Tower>, t: TowerType, remaining: int)
    requires ValidGrid(g)
    requires !(remaining >= t.cost && Select(g, ts, t).Some? && |ts| > 0)
    ensures FillType(g, ts, t, remaining).Success? ==>
      FillType(g, ts, t, remaining).value == ts && LoopDone(g, ts, t, remaining - 0 * t.cost)
  {
  }

  lemma LeftAfterOneMore(remaining: int, cost: int, k: int)
    ensures remaining - (k + 1) * cost == (remaining - cost) - k * cost
  {
    MulSucc(k, cost);
  }

  lemma MulSucc(a: int, b: int)
    ensures (a + 1) * b == a * b + b
  {
  }

  /**
   * One type's loop fails exactly when it selects a cell while the registry
   * is still empty; a loop that starts with an empty registry and does not
   * fail leaves it empty.
   */
  lemma {:induction false} FillTypeFailsIff(g: Grid, ts: seq<Tower>, t: TowerType, remaining: int)
    requires ValidGrid(g)
    ensures FillType(g, ts, t, remaining).Failure? <==> |ts| == 0 && remaining >= t.cost && Select(g, ts, t).Some?
    ensures |ts| == 0 && FillType(g, ts, t, remaining).Success? ==> FillType(g, ts, t, remaining).value == ts
    decreases |UncoveredCells(g, ts)|
  {
    if remaining >= t.cost && Select(g, ts, t).Some? && |ts| > 0 {
      var c := Select(g, ts, t).value;
      PlaceShrinksUncovered(g, ts, c, t.range);
      PlaceOnUncoveredAppends(g, ts, c, t.range);
      FillTypeFailsIff(g, ts + [Tower(c.x, c.y, t.range)], t, remaining - t.cost);
    }
  }

  /** With no tower placed, a type selects a cell iff its score is positive and some cell is passable. */
  lemma SelectOnEmptyRegistry(g: Grid, t: TowerType)
    requires ValidGrid(g)
    ensures Select(g, [], t).Some? <==> t.coverage > 0 && exists x, y :: Passable(g, x, y)
  {
    if t.coverage > 0 && exists x, y :: Passable(g, x, y) {
      var x, y :| Passable(g, x, y);
      assert Uncovered(g, [], x, y);
    }
  }

  /**
   * The optimizer only appends, and every tower it appends is a greedy
   * placement for one of the given types with a positive score.
   */
  lemma {:induction false} OptimizeAppendsGreedily(g: Grid, ts: seq<Tower>, budget: int, types: seq<TowerType>)
    requires ValidGrid(g)
    ensures OptimizeSpec(g, ts, budget, types).Success? ==> ts <= OptimizeSpec(g, ts, budget, types).value
    ensures OptimizeSpec(g, ts, budget, types).Success? ==>
      var ts' := OptimizeSpec(g, ts, budget, types).value;
      forall k :: |ts| <= k < |ts'| ==> PlacedBySomeType(g, ts', k, types)
    decreases |types|
  {
    if |types| > 0 {
      var r1 := FillType(g, ts, types[0], budget);
      FillTypeAppendsGreedily(g, ts, types[0], budget);
      if r1.Success? {
        var ts1 := r1.value;
        OptimizeAppendsGreedily(g, ts1, budget, types[1..]);
        var r := OptimizeSpec(g, ts, budget, types);
        assert r == OptimizeSpec(g, ts1, budget, types[1..]);
        if r.Success? {
          var ts' := r.value;
          assert ts'[..|ts1|] == ts1;
          forall k | |ts| <= k < |ts'|
            ensures PlacedBySomeType(g, ts', k, types)
          {
            if k < |ts1| {
              assert GreedyPlacement(g, ts1, k, types[0].range);
              assert ts'[k] == ts1[k];
              assert ts'[..k] == ts1[..k];
              assert GreedyPlacement(g, ts', k, types[0].range);
            } else {
              assert PlacedBySomeType(g, ts', k, types[1..]);
              var j :| 0 <= j < |types[1..]| && types[1..][j].coverage > 0 && GreedyPlacement(g, ts', k, types[1..][j].range);
              assert types[j + 1] == types[1..][j];
            }
          }
        }
      }
    }
  }

  /** Registry invariant: if every tower stood on a passable cell before optimizing, every tower does after. */
  lemma OptimizeKeepsCellsPassable(g: Grid, ts: seq<Tower>, budget: int, types: seq<TowerType>)
    requires ValidGrid(g) && OnPassableCells(g, ts)
    ensures OptimizeSpec(g, ts, budget, types).Success? ==> OnPassableCells(g, OptimizeSpec(g, ts, budget, types).value)
  {
    OptimizeAppendsGreedily(g, ts, budget, types);
    var r := OptimizeSpec(g, ts, budget, types);
    if r.Success? {
      var ts' := r.value;
      forall i | 0 <= i < |ts'|
        ensures Passable(g, ts'[i].x, ts'[i].y)
      {
        if i < |ts| {
          assert ts'[i] == ts[i];
        } else {
          assert PlacedBySomeType(g, ts', i, types);
          var j :| 0 <= j < |types| && types[j].coverage > 0 && GreedyPlacement(g, ts', i, types[j].range);
        }
      }
    }
  }

  /**
   * The optimizer raises `UnboundLocalError` exactly when it starts with no
   * tower, some cell is passable, and some type has a positive score and a
   * cost within the budget.
   */
  lemma {:induction false} OptimizeFailsIff(g: Grid, ts: seq<Tower>, budget: int, types: seq<TowerType>)
    requires ValidGrid(g)
    ensures OptimizeSpec(g, ts, budget, types).Failure? <==>
      && |ts| == 0
      && (exists x, y :: Passable(g, x, y))
      && (exists j :: 0 <= j < |types| && types[j].coverage > 0 && types[j].cost <= budget)
    decreases |types|
  {
    if |types| > 0 {
      var t := types[0];
      FillTypeFailsIff(g, ts, t, budget);
      FillTypeAppendsGreedily(g, ts, t, budget);
      SelectOnEmptyRegistry(g, t);
      var r1 := FillType(g, ts, t, budget);
      if r1.Success? {
        OptimizeFailsIff(g, r1.value, budget, types[1..]);
        if exists j :: 0 <= j < |types| && types[j].coverage > 0 && types[j].cost <= budget {
          var j :| 0 <= j < |types| && types[j].coverage > 0 && types[j].cost <= budget;
          if j > 0 {
            assert types[1..][j - 1] == types[j];
          }
        }
        if exists j :: 0 <= j < |types[1..]| && types[1..][j].coverage > 0 && types[1..][j].cost <= budget {
          var j :| 0 <= j < |types[1..]| && types[1..][j].coverage > 0 && types[1..][j].cost <= budget;
          assert types[j + 1] == types[1..][j];
        }
      }
    }
  }
}
