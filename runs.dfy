/** Run detection: the walks of `getHorizontalMatches` / `getVerticalMatches`
    and the board-wide match set of `getMatches`, stated as functions.
    A walk runs along one line of the board (a row or a column), so the
    counting is done once, on lines. */
module Runs {
  import opened Layout
  import opened Grid

  /** The number of consecutive cells holding `v` immediately before position i. */
  function Before(line: Line, i: int, v: int): nat
    decreases i
  {
    if 0 < i && i - 1 < |line| && line[i - 1] == Some(v) then 1 + Before(line, i - 1, v) else 0
  }

  /** The number of consecutive cells holding `v` immediately after position i. */
  function After(line: Line, i: int, v: int): nat
    decreases |line| - i
  {
    if 0 <= i + 1 < |line| && line[i + 1] == Some(v) then 1 + After(line, i + 1, v) else 0
  }

  /** Before counts a maximal block: every counted cell holds v, the next one does not. */
  lemma {:induction false} BeforeSpec(line: Line, i: int, v: int)
    requires 0 <= i <= |line|
    ensures Before(line, i, v) <= i
    ensures forall j :: i - Before(line, i, v) <= j < i ==> line[j] == Some(v)
    ensures i - Before(line, i, v) - 1 >= 0 ==> line[i - Before(line, i, v) - 1] != Some(v)
  {
    if 0 < i && line[i - 1] == Some(v) {
      BeforeSpec(line, i - 1, v);
    }
  }

  /** After counts a maximal block: every counted cell holds v, the next one does not. */
  lemma {:induction false} AfterSpec(line: Line, i: int, v: int)
    requires -1 <= i < |line|
    ensures i + After(line, i, v) < |line|
    decreases |line| - i
    ensures forall j :: i < j <= i + After(line, i, v) ==> line[j] == Some(v)
    ensures i + After(line, i, v) + 1 < |line| ==> line[i + After(line, i, v) + 1] != Some(v)
  {
    if i + 1 < |line| && line[i + 1] == Some(v) {
      AfterSpec(line, i + 1, v);
    }
  }

  /** Moving k cells right inside a block of v: k more before, k fewer after. */
  lemma {:induction false} ShiftRight(line: Line, i: int, v: int, k: nat)
    requires 0 <= i < |line| && line[i] == Some(v)
    requires k <= After(line, i, v)
    ensures i + k < |line| && line[i + k] == Some(v)
    ensures Before(line, i + k, v) == Before(line, i, v) + k
    ensures After(line, i + k, v) == After(line, i, v) - k
  {
    if k > 0 {
      ShiftRight(line, i, v, k - 1);
      AfterSpec(line, i, v);
    }
  }

  /** Moving k cells left inside a block of v: k fewer before, k more after. */
  lemma {:induction false} ShiftLeft(line: Line, i: int, v: int, k: nat)
    requires 0 <= i < |line| && line[i] == Some(v)
    requires k <= Before(line, i, v)
    ensures 0 <= i - k && line[i - k] == Some(v)
    ensures Before(line, i - k, v) == Before(line, i, v) - k
    ensures After(line, i - k, v) == After(line, i, v) + k
  {
    if k > 0 {
      ShiftLeft(line, i, v, k - 1);
      BeforeSpec(line, i, v);
    }
  }

  /** The block before i depends only on the cells before i. */
  lemma {:induction false} BeforePrefix(l1: Line, l2: Line, i: int, v: int)
    requires 0 <= i <= |l1| && i <= |l2| && l1[..i] == l2[..i]
    ensures Before(l1, i, v) == Before(l2, i, v)
  {
    if 0 < i {
      assert l1[i - 1] == l1[..i][i - 1] == l2[..i][i - 1] == l2[i - 1];
      assert l1[..i - 1] == l1[..i][..i - 1];
      assert l2[..i - 1] == l2[..i][..i - 1];
      BeforePrefix(l1, l2, i - 1, v);
    }
  }

  /** `getHorizontalMatches`: the origin, then the equal tiles to its left
      (walking outward), then those to its right; just the origin when the
      cell is empty or off the board. */
  function HorizontalRun(g: Grid, x: int, y: int): seq<Cell>
  {
    match Get(g, x, y)
    case None => [Cell(x, y)]
    case Some(v) =>
      [Cell(x, y)]
      + seq(Before(Row(g, y), x, v), k => Cell(x - 1 - k, y))
      + seq(After(Row(g, y), x, v), k => Cell(x + 1 + k, y))
  }

  /** `getVerticalMatches`: the origin, then the equal tiles below it, then those above. */
  function VerticalRun(g: Grid, x: int, y: int): seq<Cell>
  {
    match Get(g, x, y)
    case None => [Cell(x, y)]
    case Some(v) =>
      [Cell(x, y)]
      + seq(Before(Column(g, x), y, v), k => Cell(x, y - 1 - k))
      + seq(After(Column(g, x), y, v), k => Cell(x, y + 1 + k))
  }

  /** One more step of a walk away from (x, y) in decreasing x: the cell n + 1 to its left is appended. */
  lemma LeftCellsStep(x: int, y: int, n: nat)
    ensures seq(n + 1, k => Cell(x - 1 - k, y)) == seq(n, k => Cell(x - 1 - k, y)) + [Cell(x - 1 - n, y)]
  {
  }

  /** One more step of a walk away from (x, y) in increasing x. */
  lemma RightCellsStep(x: int, y: int, n: nat)
    ensures seq(n + 1, k => Cell(x + 1 + k, y)) == seq(n, k => Cell(x + 1 + k, y)) + [Cell(x + 1 + n, y)]
  {
  }

  /** One more step of a walk away from (x, y) in decreasing y. */
  lemma DownCellsStep(x: int, y: int, n: nat)
    ensures seq(n + 1, k => Cell(x, y - 1 - k)) == seq(n, k => Cell(x, y - 1 - k)) + [Cell(x, y - 1 - n)]
  {
  }

  /** One more step of a walk away from (x, y) in increasing y. */
  lemma UpCellsStep(x: int, y: int, n: nat)
    ensures seq(n + 1, k => Cell(x, y + 1 + k)) == seq(n, k => Cell(x, y + 1 + k)) + [Cell(x, y + 1 + n)]
  {
  }

  /** The cells of a horizontal run from an occupied tile: those of its row
      from `left` cells before it to `right` cells after it. */
  lemma HorizontalRunMembers(g: Grid, x: int, y: int)
    requires Get(g, x, y).Some?
    ensures var r, v := HorizontalRun(g, x, y), Get(g, x, y).value;
      var left, right := Before(Row(g, y), x, v), After(Row(g, y), x, v);
      forall c :: c in r <==> c.y == y && x - left <= c.x <= x + right
  {
    var r, v := HorizontalRun(g, x, y), Get(g, x, y).value;
    var left, right := Before(Row(g, y), x, v), After(Row(g, y), x, v);
    forall c: Cell | c.y == y && x - left <= c.x <= x + right
      ensures c in r
    {
      if c.x < x {
        assert r[1 + (x - 1 - c.x)] == c;
      } else if c.x > x {
        assert r[1 + left + (c.x - x - 1)] == c;
      } else {
        assert r[0] == c;
      }
    }
  }

  /** The cells of a vertical run from an occupied tile: those of its column
      from `below` cells under it to `above` cells over it. */
  lemma VerticalRunMembers(g: Grid, x: int, y: int)
    requires Get(g, x, y).Some?
    ensures var r, v := VerticalRun(g, x, y), Get(g, x, y).value;
      var below, above := Before(Column(g, x), y, v), After(Column(g, x), y, v);
      forall c :: c in r <==> c.x == x && y - below <= c.y <= y + above
  {
    var r, v := VerticalRun(g, x, y), Get(g, x, y).value;
    var below, above := Before(Column(g, x), y, v), After(Column(g, x), y, v);
    forall c: Cell | c.x == x && y - below <= c.y <= y + above
      ensures c in r
    {
      if c.y < y {
        assert r[1 + (y - 1 - c.y)] == c;
      } else if c.y > y {
        assert r[1 + below + (c.y - y - 1)] == c;
      } else {
        assert r[0] == c;
      }
    }
  }

  /** The block of v around cell x of row y: its cells are tiles of the board holding v. */
  lemma RowBlockTiles(g: Grid, x: int, y: int, v: int)
    requires g.Valid() && Get(g, x, y) == Some(v)
    ensures var left, right := Before(Row(g, y), x, v), After(Row(g, y), x, v);
      forall x' :: x - left <= x' <= x + right ==> InBounds(g, Cell(x', y)) && Get(g, x', y) == Some(v)
  {
    var row := Row(g, y);
    var left, right := Before(row, x, v), After(row, x, v);
    BeforeSpec(row, x, v);
    AfterSpec(row, x, v);
    forall x' | x - left <= x' <= x + right
      ensures InBounds(g, Cell(x', y)) && Get(g, x', y) == Some(v)
    {
      assert row[x'] == Get(g, x', y);
    }
  }

  /** The cells just beyond the block of v around cell x of row y do not hold v. */
  lemma RowEnds(g: Grid, x: int, y: int, v: int)
    requires g.Valid() && Get(g, x, y) == Some(v)
    ensures var left, right := Before(Row(g, y), x, v), After(Row(g, y), x, v);
      && Get(g, x - left - 1, y) != Some(v)
      && Get(g, x + right + 1, y) != Some(v)
  {
    var row := Row(g, y);
    var left, right := Before(row, x, v), After(row, x, v);
    BeforeSpec(row, x, v);
    AfterSpec(row, x, v);
    if x - left - 1 >= 0 {
      assert row[x - left - 1] == Get(g, x - left - 1, y);
    }
    if x + right + 1 < g.width {
      assert row[x + right + 1] == Get(g, x + right + 1, y);
    }
  }

  /** The block of v around cell y of column x: its cells are tiles of the board holding v. */
  lemma ColumnBlockTiles(g: Grid, x: int, y: int, v: int)
    requires g.Valid() && Get(g, x, y) == Some(v)
    ensures var below, above := Before(Column(g, x), y, v), After(Column(g, x), y, v);
      forall y' :: y - below <= y' <= y + above ==> InBounds(g, Cell(x, y')) && Get(g, x, y') == Some(v)
  {
    var col := Column(g, x);
    var below, above := Before(col, y, v), After(col, y, v);
    BeforeSpec(col, y, v);
    AfterSpec(col, y, v);
    forall y' | y - below <= y' <= y + above
      ensures InBounds(g, Cell(x, y')) && Get(g, x, y') == Some(v)
    {
      assert col[y'] == Get(g, x, y');
    }
  }

  /** The cells just beyond the block of v around cell y of column x do not hold v. */
  lemma ColumnEnds(g: Grid, x: int, y: int, v: int)
    requires g.Valid() && Get(g, x, y) == Some(v)
    ensures var below, above := Before(Column(g, x), y, v), After(Column(g, x), y, v);
      && Get(g, x, y - below - 1) != Some(v)
      && Get(g, x, y + above + 1) != Some(v)
  {
    var col := Column(g, x);
    var below, above := Before(col, y, v), After(col, y, v);
    BeforeSpec(col, y, v);
    AfterSpec(col, y, v);
    if y - below - 1 >= 0 {
      assert col[y - below - 1] == Get(g, x, y - below - 1);
    }
    if y + above + 1 < g.height {
      assert col[y + above + 1] == Get(g, x, y + above + 1);
    }
  }

  /** Cells lo..hi of row y hold v, so every cell of a sequence made of
      exactly those cells is a tile holding v. */
  lemma RowCellsHold(g: Grid, r: seq<Cell>, y: int, lo: int, hi: int, v: int)
    requires forall c :: c in r <==> c.y == y && lo <= c.x <= hi
    requires forall x' :: lo <= x' <= hi ==> InBounds(g, Cell(x', y)) && Get(g, x', y) == Some(v)
    ensures forall c :: c in r ==> InBounds(g, c) && At(g, c) == Some(v)
  {
    forall c | c in r
      ensures InBounds(g, c) && At(g, c) == Some(v)
    {
      assert c == Cell(c.x, y);
    }
  }

  /** Cells lo..hi of column x hold v, as for rows. */
  lemma ColumnCellsHold(g: Grid, r: seq<Cell>, x: int, lo: int, hi: int, v: int)
    requires forall c :: c in r <==> c.x == x && lo <= c.y <= hi
    requires forall y' :: lo <= y' <= hi ==> InBounds(g, Cell(x, y')) && Get(g, x, y') == Some(v)
    ensures forall c :: c in r ==> InBounds(g, c) && At(g, c) == Some(v)
  {
    forall c | c in r
      ensures InBounds(g, c) && At(g, c) == Some(v)
    {
      assert c == Cell(x, c.y);
    }
  }

  /** Every cell of the horizontal run from an occupied tile is a tile of the board holding its value. */
  lemma HorizontalRunTiles(g: Grid, x: int, y: int)
    requires g.Valid() && Get(g, x, y).Some?
    ensures forall c :: c in HorizontalRun(g, x, y) ==> InBounds(g, c) && At(g, c) == Get(g, x, y)
  {
    var v := Get(g, x, y).value;
    HorizontalRunMembers(g, x, y);
    RowBlockTiles(g, x, y, v);
    RowCellsHold(g, HorizontalRun(g, x, y), y, x - Before(Row(g, y), x, v), x + After(Row(g, y), x, v), v);
  }

  /** Every cell of the vertical run from an occupied tile is a tile of the board holding its value. */
  lemma VerticalRunTiles(g: Grid, x: int, y: int)
    requires g.Valid() && Get(g, x, y).Some?
    ensures forall c :: c in VerticalRun(g, x, y) ==> InBounds(g, c) && At(g, c) == Get(g, x, y)
  {
    var v := Get(g, x, y).value;
    VerticalRunMembers(g, x, y);
    ColumnBlockTiles(g, x, y, v);
    ColumnCellsHold(g, VerticalRun(g, x, y), x, y - Before(Column(g, x), y, v), y + After(Column(g, x), y, v), v);
  }

  /** The horizontal run from an occupied tile is the maximal block of equal
      tiles around it on its row; from an empty cell it is the cell alone. */
  lemma HorizontalRunShape(g: Grid, x: int, y: int)
    requires g.Valid()
    ensures HorizontalRun(g, x, y)[0] == Cell(x, y)
    ensures Get(g, x, y).None? ==> HorizontalRun(g, x, y) == [Cell(x, y)]
    ensures Get(g, x, y).Some? ==>
      var r, v := HorizontalRun(g, x, y), Get(g, x, y).value;
      var left, right := Before(Row(g, y), x, v), After(Row(g, y), x, v);
      && |r| == 1 + left + right
      && (forall c :: c in r <==> c.y == y && x - left <= c.x <= x + right)
      && (forall c :: c in r ==> InBounds(g, c) && At(g, c) == Get(g, x, y))
      && Get(g, x - left - 1, y) != Some(v)
      && Get(g, x + right + 1, y) != Some(v)
  {
    RunLengths(g, x, y);
    if Get(g, x, y).Some? {
      var v := Get(g, x, y).value;
      HorizontalRunMembers(g, x, y);
      RowEnds(g, x, y, v);
      HorizontalRunTiles(g, x, y);
    }
  }

  /** The vertical run from an occupied tile is the maximal block of equal
      tiles around it on its column; from an empty cell it is the cell alone. */
  lemma VerticalRunShape(g: Grid, x: int, y: int)
    requires g.Valid()
    ensures VerticalRun(g, x, y)[0] == Cell(x, y)
    ensures Get(g, x, y).None? ==> VerticalRun(g, x, y) == [Cell(x, y)]
    ensures Get(g, x, y).Some? ==>
      var r, v := VerticalRun(g, x, y), Get(g, x, y).value;
      var below, above := Before(Column(g, x), y, v), After(Column(g, x), y, v);
      && |r| == 1 + below + above
      && (forall c :: c in r <==> c.x == x && y - below <= c.y <= y + above)
      && (forall c :: c in r ==> InBounds(g, c) && At(g, c) == Get(g, x, y))
      && Get(g, x, y - below - 1) != Some(v)
      && Get(g, x, y + above + 1) != Some(v)
  {
    RunLengths(g, x, y);
    if Get(g, x, y).Some? {
      var v := Get(g, x, y).value;
      VerticalRunMembers(g, x, y);
      ColumnEnds(g, x, y, v);
      VerticalRunTiles(g, x, y);
    }
  }

  /** The length of a run: the tile, the equal tiles before it and those after it. */
  lemma RunLengths(g: Grid, x: int, y: int)
    ensures Get(g, x, y).None? ==> |HorizontalRun(g, x, y)| == 1 && |VerticalRun(g, x, y)| == 1
    ensures Get(g, x, y).Some? ==>
      var v := Get(g, x, y).value;
      && |HorizontalRun(g, x, y)| == 1 + Before(Row(g, y), x, v) + After(Row(g, y), x, v)
      && |VerticalRun(g, x, y)| == 1 + Before(Column(g, x), y, v) + After(Column(g, x), y, v)
  {
  }

  /** A cell of a block of v at or left of i holds v and sees the same block. */
  lemma BlockSameLeft(line: Line, i: int, v: int, j: int)
    requires 0 <= i < |line| && line[i] == Some(v)
    requires i - Before(line, i, v) <= j <= i
    ensures 0 <= j < |line| && line[j] == Some(v)
    ensures Before(line, j, v) + After(line, j, v) == Before(line, i, v) + After(line, i, v)
  {
    ShiftLeft(line, i, v, i - j);
  }

  /** A cell of a block of v at or right of i holds v and sees the same block. */
  lemma BlockSameRight(line: Line, i: int, v: int, j: int)
    requires 0 <= i < |line| && line[i] == Some(v)
    requires i <= j <= i + After(line, i, v)
    ensures 0 <= j < |line| && line[j] == Some(v)
    ensures Before(line, j, v) + After(line, j, v) == Before(line, i, v) + After(line, i, v)
  {
    ShiftRight(line, i, v, j - i);
  }

  /** Every cell of a block of v sees the same block: it holds v, and the
      cells before and after it add up to the same count. */
  lemma BlockSame(line: Line, i: int, v: int, j: int)
    requires 0 <= i < |line| && line[i] == Some(v)
    requires i - Before(line, i, v) <= j <= i + After(line, i, v)
    ensures 0 <= j < |line| && line[j] == Some(v)
    ensures Before(line, j, v) + After(line, j, v) == Before(line, i, v) + After(line, i, v)
  {
    if j < i {
      BlockSameLeft(line, i, v, j);
    } else {
      BlockSameRight(line, i, v, j);
    }
  }

  /** Every tile of a horizontal run sees the same run, so the same length. */
  lemma HorizontalRunSegment(g: Grid, o: Cell, c: Cell)
    requires g.Valid() && c in HorizontalRun(g, o.x, o.y)
    ensures |HorizontalRun(g, c.x, c.y)| == |HorizontalRun(g, o.x, o.y)|
  {
    HorizontalRunShape(g, o.x, o.y);
    if Get(g, o.x, o.y).Some? {
      var v, row := Get(g, o.x, o.y).value, Row(g, o.y);
      assert row[o.x] == Get(g, o.x, o.y);
      BlockSame(row, o.x, v, c.x);
      assert Get(g, c.x, c.y) == row[c.x];
      RunLengths(g, o.x, o.y);
      RunLengths(g, c.x, c.y);
    }
  }

  /** Every tile of a vertical run sees the same run, so the same length. */
  lemma VerticalRunSegment(g: Grid, o: Cell, c: Cell)
    requires g.Valid() && c in VerticalRun(g, o.x, o.y)
    ensures |VerticalRun(g, c.x, c.y)| == |VerticalRun(g, o.x, o.y)|
  {
    VerticalRunShape(g, o.x, o.y);
    if Get(g, o.x, o.y).Some? {
      var v, col := Get(g, o.x, o.y).value, Column(g, o.x);
      assert col[o.y] == Get(g, o.x, o.y);
      BlockSame(col, o.y, v, c.y);
      assert Get(g, c.x, c.y) == col[c.y];
      RunLengths(g, o.x, o.y);
      RunLengths(g, c.x, c.y);
    }
  }

  function Elems(s: seq<Cell>): set<Cell> {
    set c | c in s
  }

  /** A cell is matched when its horizontal or its vertical run is longer than 2. */
  predicate Matched(g: Grid, c: Cell) {
    InBounds(g, c) && (|HorizontalRun(g, c.x, c.y)| > 2 || |VerticalRun(g, c.x, c.y)| > 2)
  }

  function MatchSet(g: Grid): set<Cell> {
    set x, y | 0 <= x < g.width && 0 <= y < g.height && Matched(g, Cell(x, y)) :: Cell(x, y)
  }

  /** What one origin tile adds to `getMatches`: each of its runs longer than 2. */
  function Contribution(g: Grid, o: Cell): set<Cell> {
    (if |HorizontalRun(g, o.x, o.y)| > 2 then Elems(HorizontalRun(g, o.x, o.y)) else {})
    + (if |VerticalRun(g, o.x, o.y)| > 2 then Elems(VerticalRun(g, o.x, o.y)) else {})
  }

  /** transform1D(i). */
  function Origin(g: Grid, i: int): Cell
    requires g.width > 0
  {
    Cell(i % g.width, i / g.width)
  }

  /** The union of f(0), ..., f(i - 1). */
  function UnionBelow(f: int -> set<Cell>, i: int): set<Cell>
    decreases i
  {
    if i <= 0 then {} else UnionBelow(f, i - 1) + f(i - 1)
  }

  lemma {:induction false} UnionBelowMember(f: int -> set<Cell>, i: int, c: Cell)
    ensures c in UnionBelow(f, i) <==> exists j :: 0 <= j < i && c in f(j)
    decreases i
  {
    if i > 0 {
      UnionBelowMember(f, i - 1, c);
      if c in f(i - 1) {
        assert 0 <= i - 1 < i;
      }
    }
  }

  /** The contribution of the origin with each index. */
  function OriginContribution(g: Grid): int -> set<Cell> {
    j => if g.width > 0 then Contribution(g, Origin(g, j)) else {}
  }

  /** What the origins with index below i add together. */
  function Contributions(g: Grid, i: int): set<Cell> {
    UnionBelow(OriginContribution(g), i)
  }

  /** A cell a run of some origin contributes is matched. */
  lemma ContributedMatched(g: Grid, j: int, c: Cell)
    requires g.Valid() && g.width > 0 && 0 <= j < |g.cells|
    requires c in Contribution(g, Origin(g, j))
    ensures c in MatchSet(g)
  {
    var o := Origin(g, j);
    IndexDecompose(g.width, g.height, j);
    if |HorizontalRun(g, o.x, o.y)| > 2 && c in HorizontalRun(g, o.x, o.y) {
      HorizontalRunShape(g, o.x, o.y);
      HorizontalRunSegment(g, o, c);
    } else {
      VerticalRunShape(g, o.x, o.y);
      VerticalRunSegment(g, o, c);
    }
  }

  /** A matched cell is contributed by its own origin, whose index is below |cells|. */
  lemma MatchedContributed(g: Grid, c: Cell)
    requires g.Valid() && g.width > 0 && c in MatchSet(g)
    ensures var j := Index(g.width, c.x, c.y);
      0 <= j < |g.cells| && c in OriginContribution(g)(j)
  {
    var j := Index(g.width, c.x, c.y);
    IndexInRange(g.width, g.height, c.x, c.y);
    IndexRecover(g.width, c.x, c.y);
    assert Origin(g, j) == c;
    HorizontalRunShape(g, c.x, c.y);
    VerticalRunShape(g, c.x, c.y);
    assert c in Contribution(g, c);
  }

  /** The runs of length > 2 collected from every tile of the board are
      exactly the matched cells: no matched cell is missed, and a run of
      length <= 2 adds nothing. */
  lemma AllContributions(g: Grid)
    requires g.Valid() && g.width > 0
    ensures Contributions(g, |g.cells|) == MatchSet(g)
  {
    forall c | c in Contributions(g, |g.cells|)
      ensures c in MatchSet(g)
    {
      UnionBelowMember(OriginContribution(g), |g.cells|, c);
      var j :| 0 <= j < |g.cells| && c in OriginContribution(g)(j);
      ContributedMatched(g, j, c);
    }
    forall c | c in MatchSet(g)
      ensures c in Contributions(g, |g.cells|)
    {
      MatchedContributed(g, c);
      UnionBelowMember(OriginContribution(g), |g.cells|, c);
    }
  }
}
