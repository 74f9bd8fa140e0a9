/** Why `randomize` produces a board without matches: it commits cells in
    index order, and a committed tile's left and lower neighbours all have
    smaller indices, so what the commit test saw of them never changes again. */
module Generation {
  import opened Layout
  import opened Grid
  import opened Runs

  /** The tile at index j has at most one equal tile directly to its left
      and at most one directly below it. */
  predicate Settled(g: Grid, j: int) {
    && g.width > 0
    && 0 <= j < |g.cells|
    && g.cells[j].Some?
    && Before(Row(g, j / g.width), j % g.width, g.cells[j].value) <= 1
    && Before(Column(g, j % g.width), j / g.width, g.cells[j].value) <= 1
  }

  /** No tile in the top row, y = height - 1. */
  ghost predicate TopRowEmpty(g: Grid) {
    forall c :: InBounds(g, c) && c.y == g.height - 1 ==> At(g, c).None?
  }

  /** `randomize`'s commit test for index j: neither run of the tile at
      `transform1D(j)` is longer than 2. */
  predicate Committable(g: Grid, j: int) {
    && g.width > 0
    && |VerticalRun(g, Origin(g, j).x, Origin(g, j).y)| <= 2
    && |HorizontalRun(g, Origin(g, j).x, Origin(g, j).y)| <= 2
  }

  /** A tile that passed the commit test is settled. */
  lemma CommitSettles(g: Grid, j: int)
    requires g.Valid() && 0 <= j < |g.cells| && g.cells[j].Some?
    requires Committable(g, j)
    ensures Settled(g, j)
  {
    IndexDecompose(g.width, g.height, j);
    GetIndex(g, j % g.width, j / g.width);
  }

  /** Settledness of j only reads the cells below index j, so writing at or
      above any later index keeps it. */
  lemma SettledFrame(g: Grid, g': Grid, j: int, k: int)
    requires g.Valid() && g'.Valid() && g.width == g'.width && g.height == g'.height
    requires 0 <= j < k <= |g.cells| && g.cells[..k] == g'.cells[..k]
    requires Settled(g, j)
    ensures Settled(g', j)
  {
    var w := g.width;
    var x, y := j % w, j / w;
    IndexDecompose(w, g.height, j);
    assert g'.cells[j] == g'.cells[..k][j] == g.cells[..k][j] == g.cells[j];
    var v := g.cells[j].value;
    forall x' | 0 <= x' < x
      ensures Row(g, y)[x'] == Row(g', y)[x']
    {
      GetIndex(g, x', y);
      GetIndex(g', x', y);
      assert g.cells[Index(w, x', y)] == g.cells[..k][Index(w, x', y)];
      assert g'.cells[Index(w, x', y)] == g'.cells[..k][Index(w, x', y)];
    }
    assert Row(g, y)[..x] == Row(g', y)[..x];
    BeforePrefix(Row(g, y), Row(g', y), x, v);
    forall y' | 0 <= y' < y
      ensures Column(g, x)[y'] == Column(g', x)[y']
    {
      GetIndex(g, x, y');
      GetIndex(g', x, y');
      IndexRowOrder(w, x, y', x, y);
      assert g.cells[Index(w, x, y')] == g.cells[..k][Index(w, x, y')];
      assert g'.cells[Index(w, x, y')] == g'.cells[..k][Index(w, x, y')];
    }
    assert Column(g, x)[..y] == Column(g', x)[..y];
    BeforePrefix(Column(g, x), Column(g', x), y, v);
  }

  /** Writing at or above index k keeps every index below i <= k settled. */
  lemma SettledPrefixFrame(g: Grid, g': Grid, i: int, k: int)
    requires g.Valid() && g'.Valid() && g.width == g'.width && g.height == g'.height
    requires 0 <= i <= k <= |g.cells| && g.cells[..k] == g'.cells[..k]
    requires forall j :: 0 <= j < i ==> Settled(g, j)
    ensures forall j :: 0 <= j < i ==> Settled(g', j)
  {
    forall j | 0 <= j < i
      ensures Settled(g', j)
    {
      SettledFrame(g, g', j, k);
    }
  }

  /** A settled board below the top row has no horizontal run longer than 2:
      the rightmost tile of a longer run would have two equal tiles to its left. */
  lemma SettledRowRun(g: Grid, x: int, y: int)
    requires g.Valid() && g.width > 0 && g.height > 0
    requires forall j :: 0 <= j < |g.cells| - g.width ==> Settled(g, j)
    requires TopRowEmpty(g)
    ensures |HorizontalRun(g, x, y)| <= 2
  {
    if Get(g, x, y).Some? {
      var w, v, row := g.width, Get(g, x, y).value, Row(g, y);
      assert row[x] == Get(g, x, y);
      var right := After(row, x, v);
      ShiftRight(row, x, v, right);
      var r := x + right;
      assert At(g, Cell(r, y)) == row[r] == Some(v);
      assert y < g.height - 1;
      GetIndex(g, r, y);
      TopRowIndex(w, g.height, r, y);
      IndexRecover(w, r, y);
      assert Settled(g, Index(w, r, y));
    }
  }

  /** A settled board with an empty top row has no vertical run longer than 2:
      the topmost tile of a longer run would have two equal tiles below it. */
  lemma SettledColumnRun(g: Grid, x: int, y: int)
    requires g.Valid() && g.width > 0 && g.height > 0
    requires forall j :: 0 <= j < |g.cells| - g.width ==> Settled(g, j)
    requires TopRowEmpty(g)
    ensures |VerticalRun(g, x, y)| <= 2
  {
    if Get(g, x, y).Some? {
      var w, v, col := g.width, Get(g, x, y).value, Column(g, x);
      assert col[y] == Get(g, x, y);
      var above := After(col, y, v);
      ShiftRight(col, y, v, above);
      var t := y + above;
      assert At(g, Cell(x, t)) == col[t] == Some(v);
      assert t < g.height - 1;
      GetIndex(g, x, t);
      TopRowIndex(w, g.height, x, t);
      IndexRecover(w, x, t);
      assert Settled(g, Index(w, x, t));
    }
  }

  /** A board on which every cell below the top row is settled and the top
      row is empty has no matches. */
  lemma SettledBoardHasNoMatches(g: Grid)
    requires g.Valid() && g.width > 0 && g.height > 0
    requires forall j :: 0 <= j < |g.cells| - g.width ==> Settled(g, j)
    requires TopRowEmpty(g)
    ensures MatchSet(g) == {}
  {
    forall c | InBounds(g, c)
      ensures !Matched(g, c)
    {
      SettledRowRun(g, c.x, c.y);
      SettledColumnRun(g, c.x, c.y);
    }
  }

  /** A board whose top-row cells are those of an empty-topped board has an empty top row. */
  lemma TopRowKept(g: Grid, g': Grid)
    requires g.Valid() && g'.Valid() && g.width == g'.width && g.height == g'.height
    requires forall j :: 0 <= |g.cells| - g.width <= j < |g.cells| ==> g'.cells[j] == g.cells[j]
    requires TopRowEmpty(g)
    ensures TopRowEmpty(g')
  {
    forall c | InBounds(g', c) && c.y == g'.height - 1
      ensures At(g', c).None?
    {
      GetIndex(g, c.x, c.y);
      GetIndex(g', c.x, c.y);
      TopRowIndex(g.width, g.height, c.x, c.y);
      MulMono(1, g.height, g.width);
    }
  }
}
