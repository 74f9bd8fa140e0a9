/** The tile map the board is built on: a width x height grid of cells that
    are either empty or hold a tile, identified here by its value alone.
    The collaborator that stores the cells is not part of this model; this
    module states what the board relies on: row-major storage and a
    bounds-checked `get` that reports an empty cell outside the board. */
module Grid {
  import opened Layout

  datatype Option<T> = None | Some(value: T)

  datatype Cell = Cell(x: int, y: int)

  /** A row or a column of cells. */
  type Line = seq<Option<int>>

  datatype Grid = Grid(width: nat, height: nat, cells: seq<Option<int>>) {
    predicate Valid() {
      |cells| == width * height
    }
  }

  predicate InBounds(g: Grid, c: Cell) {
    0 <= c.x < g.width && 0 <= c.y < g.height
  }

  /** `get(x, y)`: the tile at (x, y), or empty outside the board. */
  function Get(g: Grid, x: int, y: int): Option<int>
  {
    if 0 <= x < g.width && 0 <= y < g.height && Index(g.width, x, y) < |g.cells| then
      IndexInRange(g.width, g.height, x, y);
      g.cells[Index(g.width, x, y)]
    else
      None
  }

  function At(g: Grid, c: Cell): Option<int> {
    Get(g, c.x, c.y)
  }

  /** `set(x, y, tile)`: the grid with one cell replaced. */
  function SetCell(g: Grid, c: Cell, t: Option<int>): (r: Grid)
    requires g.Valid() && InBounds(g, c)
    ensures r.Valid() && r.width == g.width && r.height == g.height
  {
    IndexInRange(g.width, g.height, c.x, c.y);
    g.(cells := g.cells[Index(g.width, c.x, c.y) := t])
  }

  /** `Tile.swap`: the two cells exchange their tiles. */
  function Exchange(g: Grid, a: Cell, b: Cell): (r: Grid)
    requires g.Valid() && InBounds(g, a) && InBounds(g, b)
    ensures r.Valid() && r.width == g.width && r.height == g.height
  {
    SetCell(SetCell(g, a, At(g, b)), b, At(g, a))
  }

  /** Row y from left to right. */
  function Row(g: Grid, y: int): (row: Line)
    ensures |row| == g.width
  {
    seq(g.width, x => Get(g, x, y))
  }

  /** Column x from bottom (y = 0) to top. */
  function Column(g: Grid, x: int): (col: Line)
    ensures |col| == g.height
  {
    seq(g.height, y => Get(g, x, y))
  }

  /** Every tile on the board is one of the `n` palette values. */
  predicate InPalette(g: Grid, n: int) {
    forall i :: 0 <= i < |g.cells| && g.cells[i].Some? ==> 0 <= g.cells[i].value < n
  }

  lemma GetIndex(g: Grid, x: int, y: int)
    requires g.Valid() && 0 <= x < g.width && 0 <= y < g.height
    ensures 0 <= Index(g.width, x, y) < |g.cells|
    ensures Get(g, x, y) == g.cells[Index(g.width, x, y)]
  {
    IndexInRange(g.width, g.height, x, y);
  }

  /** Reading after writing: only the written cell changes. */
  lemma GetSetCell(g: Grid, c: Cell, t: Option<int>, x: int, y: int)
    requires g.Valid() && InBounds(g, c)
    ensures Get(SetCell(g, c, t), x, y) == if Cell(x, y) == c then t else Get(g, x, y)
  {
    IndexInRange(g.width, g.height, c.x, c.y);
    if 0 <= x < g.width && 0 <= y < g.height {
      IndexInRange(g.width, g.height, x, y);
      if Cell(x, y) != c {
        if Index(g.width, x, y) == Index(g.width, c.x, c.y) {
          IndexInjective(g.width, x, y, c.x, c.y);
        }
      }
    }
  }

  /** Writing a cell changes only its own column, at its own row. */
  lemma ColumnSetCell(g: Grid, c: Cell, t: Option<int>, x: int)
    requires g.Valid() && InBounds(g, c)
    ensures Column(SetCell(g, c, t), x) == if x == c.x then Column(g, x)[c.y := t] else Column(g, x)
  {
    var g' := SetCell(g, c, t);
    forall y | 0 <= y < g.height
      ensures Column(g', x)[y] == (if x == c.x then Column(g, x)[c.y := t] else Column(g, x))[y]
    {
      GetSetCell(g, c, t, x, y);
    }
  }

  /** Two grids of the same shape that agree on every cell are equal. */
  lemma {:induction false} GridExtensionality(g: Grid, h: Grid)
    requires g.Valid() && h.Valid() && g.width == h.width && g.height == h.height
    requires forall x, y :: 0 <= x < g.width && 0 <= y < g.height ==> Get(g, x, y) == Get(h, x, y)
    ensures g == h
  {
    forall i | 0 <= i < |g.cells|
      ensures g.cells[i] == h.cells[i]
    {
      IndexDecompose(g.width, g.height, i);
      GetIndex(g, i % g.width, i / g.width);
      GetIndex(h, i % g.width, i / g.width);
    }
  }

  /** Grids whose columns all agree are equal. */
  lemma ColumnsDetermineGrid(g: Grid, h: Grid)
    requires g.Valid() && h.Valid() && g.width == h.width && g.height == h.height
    requires forall x :: 0 <= x < g.width ==> Column(g, x) == Column(h, x)
    ensures g == h
  {
    forall x, y | 0 <= x < g.width && 0 <= y < g.height
      ensures Get(g, x, y) == Get(h, x, y)
    {
      assert Column(g, x)[y] == Column(h, x)[y];
    }
    GridExtensionality(g, h);
  }

  /** Exchanging two cells twice restores the grid. */
  lemma ExchangeTwice(g: Grid, a: Cell, b: Cell)
    requires g.Valid() && InBounds(g, a) && InBounds(g, b)
    ensures Exchange(Exchange(g, a, b), a, b) == g
  {
    var g1 := Exchange(g, a, b);
    var g2 := Exchange(g1, a, b);
    forall x, y | 0 <= x < g.width && 0 <= y < g.height
      ensures Get(g2, x, y) == Get(g, x, y)
    {
      ExchangeAt(g, a, b, x, y);
      ExchangeAt(g1, a, b, x, y);
      ExchangeAt(g, a, b, a.x, a.y);
      ExchangeAt(g, a, b, b.x, b.y);
    }
    GridExtensionality(g2, g);
  }

  /** After an exchange, a holds b's old tile, b holds a's, the rest is unchanged. */
  lemma ExchangeAt(g: Grid, a: Cell, b: Cell, x: int, y: int)
    requires g.Valid() && InBounds(g, a) && InBounds(g, b)
    ensures Get(Exchange(g, a, b), x, y) ==
      if Cell(x, y) == b then At(g, a) else if Cell(x, y) == a then At(g, b) else Get(g, x, y)
  {
    var g1 := SetCell(g, a, At(g, b));
    GetSetCell(g, a, At(g, b), x, y);
    GetSetCell(g1, b, At(g, a), x, y);
  }

  /** Writing a palette value (or emptying a cell) keeps the board in the palette. */
  lemma SetCellInPalette(g: Grid, c: Cell, t: Option<int>, n: int)
    requires g.Valid() && InBounds(g, c) && InPalette(g, n)
    requires t.Some? ==> 0 <= t.value < n
    ensures InPalette(SetCell(g, c, t), n)
  {
  }
}
