/** `gravity` step by step: the state of its scan after each cell and each
    column, and why the scan leaves every column packed. */
module Falling {
  import opened Grid
  import opened Packing

  /** The inner loop's state: the board, `drop` and whether a tile has moved. */
  datatype Scan = Scan(grid: Grid, drop: nat, moved: bool)

  /** The outer loop's state: the board and whether a tile has moved. */
  datatype Sweep = Sweep(grid: Grid, moved: bool)

  /** One iteration of the inner loop, at cell (x, y): an empty cell counts
      one more `drop`, and a tile with `drop` > 0 empty cells below it is
      moved down by `drop`. */
  function ScanCell(p: Scan, x: int, y: int): (r: Scan)
    requires p.grid.Valid() && 0 <= x < p.grid.width && 0 <= y < p.grid.height && p.drop <= y
    ensures r.grid.Valid() && r.grid.width == p.grid.width && r.grid.height == p.grid.height
    ensures r.drop <= y + 1
  {
    var from := Cell(x, y);
    var tile := At(p.grid, from);
    if tile.None? then p.(drop := p.drop + 1)
    else if p.drop > 0 then Scan(SetCell(SetCell(p.grid, from, None), Cell(x, y - p.drop), tile), p.drop, true)
    else p
  }

  /** The state after the inner loop has looked at cells (x, 0) to (x, y - 1) of h. */
  function ScanUpTo(h: Grid, x: int, y: nat): (r: Scan)
    requires h.Valid() && 0 <= x < h.width && y <= h.height
    ensures r.grid.Valid() && r.grid.width == h.width && r.grid.height == h.height
    ensures r.drop <= y
    decreases y
  {
    if y == 0 then Scan(h, 0, false) else ScanCell(ScanUpTo(h, x, y - 1), x, y - 1)
  }

  /** The state after the outer loop has scanned columns 0 to i - 1 of g. */
  function SweepUpTo(g: Grid, i: nat): (r: Sweep)
    requires g.Valid() && i <= g.width
    ensures r.grid.Valid() && r.grid.width == g.width && r.grid.height == g.height
    decreases i
  {
    if i == 0 then Sweep(g, false)
    else
      var prev := SweepUpTo(g, i - 1);
      var scan := ScanUpTo(prev.grid, i - 1, g.height);
      Sweep(scan.grid, prev.moved || scan.moved)
  }

  /** `moveTile` within one column changes only that column: its cell
      `from.y` is emptied and its cell `to.y` gets the tile. */
  lemma MoveColumns(h: Grid, from: Cell, to: Cell, t: Option<int>, x: int)
    requires h.Valid() && InBounds(h, from) && InBounds(h, to) && from.x == to.x
    ensures Column(SetCell(SetCell(h, from, None), to, t), x) ==
      if x == from.x then Column(h, x)[from.y := None][to.y := t] else Column(h, x)
  {
    ColumnSetCell(h, from, None, x);
    ColumnSetCell(SetCell(h, from, None), to, t, x);
  }

  /** What h is while column i of g is scanned at row y: the columns left of
      i are packed, the columns right of i are untouched, and column i is
      packed below y and untouched from y up. */
  ghost predicate Scanning(h: Grid, g: Grid, i: int, y: int) {
    && h.Valid() && g.Valid() && h.width == g.width && h.height == g.height
    && 0 <= i < g.width && 0 <= y <= g.height
    && (forall x :: 0 <= x < g.width && x != i ==>
         Column(h, x) == if x < i then Packed(Column(g, x)) else Column(g, x))
    && Column(h, i) == Packed(Column(g, i)[..y]) + Column(g, i)[y..]
  }

  /** What h is before column i of g is scanned, or once all are. */
  ghost predicate Swept(h: Grid, g: Grid, i: int) {
    if i < g.width then Scanning(h, g, i, 0)
    else
      && h.Valid() && g.Valid() && h.width == g.width && h.height == g.height && i == g.width
      && forall x :: 0 <= x < g.width ==> Column(h, x) == Packed(Column(g, x))
  }

  lemma SweepStart(g: Grid)
    requires g.Valid()
    ensures Swept(g, g, 0)
  {
    if 0 < g.width {
      assert Column(g, 0)[..0] == [] && Column(g, 0)[0..] == Column(g, 0);
      assert Packed([]) == [];
    }
  }

  lemma SweepNext(h: Grid, g: Grid, i: int)
    requires Scanning(h, g, i, g.height)
    ensures Swept(h, g, i + 1)
  {
    var col := Column(g, i);
    assert col[..g.height] == col && col[g.height..] == [];
    if i + 1 < g.width {
      assert Column(g, i + 1)[..0] == [] && Column(g, i + 1)[0..] == Column(g, i + 1);
      assert Packed([]) == [];
    }
  }

  /** What the scan sees at (i, y) is the original cell, and how `drop` and
      the gap test advance past it. */
  lemma ScanLook(h: Grid, g: Grid, i: int, y: int)
    requires Scanning(h, g, i, y) && y < g.height
    ensures var col := Column(g, i);
      && At(h, Cell(i, y)) == col[y]
      && 0 <= y - |Occupied(col[..y])|
      && y + 1 - |Occupied(col[..y + 1])| == y - |Occupied(col[..y])| + (if col[y].None? then 1 else 0)
      && (Gapped(col[..y + 1]) <==> Gapped(col[..y]) || (col[y].Some? && y - |Occupied(col[..y])| > 0))
  {
    ScanStep(Column(g, i), y, Column(h, i));
    assert Get(h, i, y) == Column(h, i)[y];
  }

  /** An empty cell, or a tile with no empty cell below it, is left alone. */
  lemma ScanStay(h: Grid, g: Grid, i: int, y: int)
    requires Scanning(h, g, i, y) && y < g.height
    requires Column(g, i)[y].None? || y == |Occupied(Column(g, i)[..y])|
    ensures Scanning(h, g, i, y + 1)
  {
    ScanStep(Column(g, i), y, Column(h, i));
  }

  /** A tile with `drop` empty cells below it lands in the lowest empty cell. */
  lemma ScanMove(h: Grid, g: Grid, i: int, y: int, drop: int)
    requires Scanning(h, g, i, y) && y < g.height
    requires Column(g, i)[y].Some? && drop == y - |Occupied(Column(g, i)[..y])| && drop > 0
    ensures InBounds(h, Cell(i, y)) && InBounds(h, Cell(i, y - drop)) && At(h, Cell(i, y)).Some?
    ensures Scanning(SetCell(SetCell(h, Cell(i, y), None), Cell(i, y - drop), At(h, Cell(i, y))), g, i, y + 1)
  {
    var col := Column(g, i);
    ScanStep(col, y, Column(h, i));
    assert At(h, Cell(i, y)) == Column(h, i)[y];
    var from, to := Cell(i, y), Cell(i, y - drop);
    var h' := SetCell(SetCell(h, from, None), to, At(h, from));
    forall x | 0 <= x < g.width
      ensures Column(h', x) == if x == i then Column(h, i)[y := None][y - drop := col[y]] else Column(h, x)
    {
      MoveColumns(h, from, to, At(h, from), x);
    }
  }

  /** The inner loop's invariant: the board is `Scanning` at row y, `drop`
      counts the empty cells below y and `moved` tells whether one of them
      lies under a tile. */
  ghost predicate ScanInvariant(p: Scan, g: Grid, i: int, y: int) {
    && Scanning(p.grid, g, i, y)
    && p.drop == y - |Occupied(Column(g, i)[..y])|
    && p.moved == Gapped(Column(g, i)[..y])
  }

  /** Each iteration of the inner loop keeps its invariant. */
  lemma ScanCellKeeps(p: Scan, g: Grid, i: int, y: int)
    requires ScanInvariant(p, g, i, y) && y < g.height
    ensures p.drop <= y && ScanInvariant(ScanCell(p, i, y), g, i, y + 1)
  {
    var col := Column(g, i);
    ScanLook(p.grid, g, i, y);
    if col[y].None? || p.drop == 0 {
      ScanStay(p.grid, g, i, y);
    } else {
      ScanMove(p.grid, g, i, y, p.drop);
    }
  }

  /** Scanning the first y cells of column i packs them, `drop` is the number
      of empty cells among them, and a tile has moved exactly when one of them
      had an empty cell beneath it. */
  lemma {:induction false} ScanUpToPacks(h: Grid, g: Grid, i: int, y: nat)
    requires Scanning(h, g, i, 0) && y <= g.height
    ensures ScanInvariant(ScanUpTo(h, i, y), g, i, y)
    decreases y
  {
    if y == 0 {
      assert Column(g, i)[..0] == [];
    } else {
      ScanUpToPacks(h, g, i, y - 1);
      ScanCellKeeps(ScanUpTo(h, i, y - 1), g, i, y - 1);
    }
  }

  /** Sweeping the first i columns packs them, and a tile has moved exactly
      when one of them had a gap. */
  lemma {:induction false} SweepUpToPacks(g: Grid, i: nat)
    requires g.Valid() && i <= g.width
    ensures Swept(SweepUpTo(g, i).grid, g, i)
    ensures SweepUpTo(g, i).moved == SomeColumnGapped(g, i)
    decreases i
  {
    if i == 0 {
      SweepStart(g);
    } else {
      SweepUpToPacks(g, i - 1);
      ColumnPacks(SweepUpTo(g, i - 1).grid, g, i - 1);
    }
  }

  /** Scanning a whole column packs it. */
  lemma ColumnPacks(h: Grid, g: Grid, i: int)
    requires Scanning(h, g, i, 0)
    ensures Swept(ScanUpTo(h, i, g.height).grid, g, i + 1)
    ensures ScanUpTo(h, i, g.height).moved == Gapped(Column(g, i))
  {
    ScanUpToPacks(h, g, i, g.height);
    SweepNext(ScanUpTo(h, i, g.height).grid, g, i);
    assert Column(g, i)[..g.height] == Column(g, i);
  }

  /** After the whole pass every column is packed: its tiles at the bottom in
      their order, empty cells above. A tile moved exactly when some column
      had a tile above an empty cell. */
  lemma GravityPacks(g: Grid)
    requires g.Valid()
    ensures forall x :: 0 <= x < g.width ==> Column(SweepUpTo(g, g.width).grid, x) == Packed(Column(g, x))
    ensures SweepUpTo(g, g.width).moved <==> exists x :: 0 <= x < g.width && HasGap(Column(g, x))
    ensures SweepUpTo(g, g.width).moved <==> SweepUpTo(g, g.width).grid != g
  {
    SweepUpToPacks(g, g.width);
    GappedColumns(g, g.width);
    GravityChanges(g, SweepUpTo(g, g.width).grid);
  }
}
