/** `fill`: one pass over the columns, left to right; a column whose cell
    just below the top row is empty gets a fresh random tile in its top cell. */
module Spawning {
  import opened Grid
  import opened Lcg

  /** A tile created by `fill`, as reported to the `onTileAdded` hook. */
  datatype Spawn = Spawn(cell: Cell, value: int)

  /** The board, the seed and the tiles added after a fill pass. */
  datatype FillState = FillState(grid: Grid, seed: int, spawns: seq<Spawn>)

  /** `!this.get(x, height - 2)`: the column gets a new tile. On a one-row
      board the probed cell is off the board, so it always does. */
  predicate Starved(g: Grid, x: int) {
    Get(g, x, g.height - 2).None?
  }

  /** The number of starved columns left of x. */
  function StarvedBefore(g: Grid, x: int): nat
    decreases x
  {
    if x <= 0 then 0 else StarvedBefore(g, x - 1) + (if Starved(g, x - 1) then 1 else 0)
  }

  /** The state after the first x iterations of the loop over columns: each
      new tile draws one value from the generator with `randomTileValue(0, n - 1)`. */
  function FillUpTo(g: Grid, seed: int, n: int, x: nat): (r: FillState)
    requires g.Valid() && g.height >= 1 && x <= g.width
    ensures r.grid.Valid() && r.grid.width == g.width && r.grid.height == g.height
    decreases x
  {
    if x == 0 then FillState(g, seed, [])
    else
      var prev := FillUpTo(g, seed, n, x - 1);
      if Starved(prev.grid, x - 1) then
        var next := NextSeed(prev.seed);
        var v := ScaledValue(next, 0, n - 1);
        var c := Cell(x - 1, g.height - 1);
        FillState(SetCell(prev.grid, c, Some(v)), next, prev.spawns + [Spawn(c, v)])
      else
        prev
  }

  /** The value the k-th new tile of a pass draws, counting from 0. */
  function SpawnValue(seed: int, n: int, k: nat): int {
    ScaledValue(SeedAfter(seed, k + 1), 0, n - 1)
  }

  /** What cell (x', y') holds after the first x columns: a starved column
      among them has a new top tile holding the generator's next value, and
      every other cell is as before. */
  function FilledCell(g: Grid, seed: int, n: int, x: int, x': int, y': int): Option<int> {
    if y' == g.height - 1 && 0 <= x' < x && Starved(g, x')
    then Some(SpawnValue(seed, n, StarvedBefore(g, x')))
    else Get(g, x', y')
  }

  /** The pass probes the original board: writing top cells never changes
      whether a column is starved. */
  lemma StarvedKept(g: Grid, seed: int, n: int, x: nat, x': int)
    requires g.Valid() && g.height >= 1 && x <= g.width
    requires forall a, b :: 0 <= a < g.width && 0 <= b < g.height ==>
      Get(FillUpTo(g, seed, n, x).grid, a, b) == FilledCell(g, seed, n, x, a, b)
    ensures Starved(FillUpTo(g, seed, n, x).grid, x') == Starved(g, x')
  {
    if 0 <= x' < g.width && g.height >= 2 {
      assert Get(FillUpTo(g, seed, n, x).grid, x', g.height - 2) == FilledCell(g, seed, n, x, x', g.height - 2);
    }
  }

  /** After the first x columns the board holds exactly FilledCell. */
  lemma {:induction false} FillUpToGrid(g: Grid, seed: int, n: int, x: nat)
    requires g.Valid() && g.height >= 1 && x <= g.width
    ensures forall x', y' :: 0 <= x' < g.width && 0 <= y' < g.height ==>
      Get(FillUpTo(g, seed, n, x).grid, x', y') == FilledCell(g, seed, n, x, x', y')
    decreases x
  {
    if x > 0 {
      FillUpToGrid(g, seed, n, x - 1);
      FillUpToCount(g, seed, n, x - 1);
      var prev := FillUpTo(g, seed, n, x - 1);
      StarvedKept(g, seed, n, x - 1, x - 1);
      var c := Cell(x - 1, g.height - 1);
      if Starved(g, x - 1) {
        var v := ScaledValue(NextSeed(prev.seed), 0, n - 1);
        assert v == SpawnValue(seed, n, StarvedBefore(g, x - 1));
        forall x', y' | 0 <= x' < g.width && 0 <= y' < g.height
          ensures Get(SetCell(prev.grid, c, Some(v)), x', y') == FilledCell(g, seed, n, x, x', y')
        {
          GetSetCell(prev.grid, c, Some(v), x', y');
        }
      }
    }
  }

  /** One new tile per starved column, and one draw of the generator per new tile. */
  lemma {:induction false} FillUpToCount(g: Grid, seed: int, n: int, x: nat)
    requires g.Valid() && g.height >= 1 && x <= g.width
    ensures |FillUpTo(g, seed, n, x).spawns| == StarvedBefore(g, x)
    ensures FillUpTo(g, seed, n, x).seed == SeedAfter(seed, StarvedBefore(g, x))
    decreases x
  {
    if x > 0 {
      FillUpToCount(g, seed, n, x - 1);
      FillUpToGrid(g, seed, n, x - 1);
      StarvedKept(g, seed, n, x - 1, x - 1);
    }
  }

  /** The reported tiles, left to right: the k-th sits on top of the k-th
      starved column, holds the k-th value drawn, and is what the board holds there. */
  lemma {:induction false} FillUpToLog(g: Grid, seed: int, n: int, x: nat)
    requires g.Valid() && g.height >= 1 && x <= g.width
    ensures var r := FillUpTo(g, seed, n, x);
      forall k :: 0 <= k < |r.spawns| ==>
        var c := r.spawns[k].cell;
        && c.y == g.height - 1 && 0 <= c.x < x && Starved(g, c.x)
        && StarvedBefore(g, c.x) == k
        && r.spawns[k].value == SpawnValue(seed, n, k)
    decreases x
  {
    if x > 0 {
      FillUpToLog(g, seed, n, x - 1);
      FillUpToCount(g, seed, n, x - 1);
      FillUpToGrid(g, seed, n, x - 1);
      StarvedKept(g, seed, n, x - 1, x - 1);
    }
  }

  /** A pass adds a tile exactly when some column is starved. */
  lemma {:induction false} StarvedBeforePositive(g: Grid, x: int)
    ensures StarvedBefore(g, x) > 0 <==> exists x' :: 0 <= x' < x && Starved(g, x')
    decreases x
  {
    if x > 0 {
      StarvedBeforePositive(g, x - 1);
      if Starved(g, x - 1) {
        assert 0 <= x - 1 < x;
      }
    }
  }

  /** The generator's values are palette values: a pass started from a
      non-negative seed keeps the board's tiles in the palette. */
  lemma {:induction false} FillUpToInPalette(g: Grid, seed: int, n: int, x: nat)
    requires g.Valid() && g.height >= 1 && x <= g.width
    requires seed >= 0 && n >= 1 && InPalette(g, n)
    ensures FillUpTo(g, seed, n, x).seed >= 0
    ensures InPalette(FillUpTo(g, seed, n, x).grid, n)
    ensures forall k :: 0 <= k < |FillUpTo(g, seed, n, x).spawns| ==>
      0 <= FillUpTo(g, seed, n, x).spawns[k].value < n
    decreases x
  {
    if x > 0 {
      FillUpToInPalette(g, seed, n, x - 1);
      var prev := FillUpTo(g, seed, n, x - 1);
      if Starved(prev.grid, x - 1) {
        var next := NextSeed(prev.seed);
        SetCellInPalette(prev.grid, Cell(x - 1, g.height - 1), Some(ScaledValue(next, 0, n - 1)), n);
      }
    }
  }

  /** A pass adds nothing exactly when no column is starved, and then it
      leaves the board and the seed as they were. */
  lemma FillQuiet(g: Grid, seed: int, n: int)
    requires g.Valid() && g.height >= 1
    ensures var r := FillUpTo(g, seed, n, g.width);
      && (|r.spawns| == 0 <==> forall x :: 0 <= x < g.width ==> !Starved(g, x))
      && (|r.spawns| == 0 ==> r.grid == g && r.seed == seed)
  {
    var r := FillUpTo(g, seed, n, g.width);
    FillUpToGrid(g, seed, n, g.width);
    FillUpToCount(g, seed, n, g.width);
    StarvedBeforePositive(g, g.width);
    if |r.spawns| == 0 {
      GridExtensionality(r.grid, g);
    }
  }

  /** A board whose row below the top is fully occupied gets nothing from a pass. */
  lemma FillFullRow(g: Grid, seed: int, n: int)
    requires g.Valid() && g.height >= 2
    requires forall x :: 0 <= x < g.width ==> !Starved(g, x)
    ensures FillUpTo(g, seed, n, g.width) == FillState(g, seed, [])
  {
    var r := FillUpTo(g, seed, n, g.width);
    FillUpToGrid(g, seed, n, g.width);
    FillUpToCount(g, seed, n, g.width);
    StarvedBeforePositive(g, g.width);
    GridExtensionality(r.grid, g);
  }
}
