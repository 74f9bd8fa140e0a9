/** `BoardModel`: the match-3 board. It owns the tile map, the generator's
    seed, the guard around the swap in progress and the `onTileAdded` hook,
    and runs the remove / fill / gravity cascade on them. The cells are kept
    row-major as the tile map stores them; `View` is the board as a `Grid`. */
module Board {
  import opened Layout
  import opened Grid
  import opened Lcg
  import opened Runs
  import Dedup
  import opened Packing
  import opened Falling
  import opened Spawning
  import opened Generation
  import opened Text

  /** The two cells of the swap whose completion the board is waiting for. */
  datatype SwapPair = SwapPair(a: Cell, b: Cell)

  /** The board after `remove` on the tile of every listed cell, in order;
      a cell off the board holds no tile, so there is nothing to remove. */
  function ClearAll(g: Grid, cs: seq<Cell>): (r: Grid)
    requires g.Valid()
    ensures r.Valid() && r.width == g.width && r.height == g.height
    decreases |cs|
  {
    if cs == [] then g
    else
      var prev := ClearAll(g, cs[..|cs| - 1]);
      var c := cs[|cs| - 1];
      if InBounds(prev, c) then SetCell(prev, c, None) else prev
  }

  /** Removing a list of tiles empties exactly the listed cells. */
  lemma {:induction false} ClearAllAt(g: Grid, cs: seq<Cell>, x: int, y: int)
    requires g.Valid()
    ensures Get(ClearAll(g, cs), x, y) == if Cell(x, y) in cs then None else Get(g, x, y)
    decreases |cs|
  {
    if cs != [] {
      var init := cs[..|cs| - 1];
      ClearAllAt(g, init, x, y);
      assert cs == init + [cs[|cs| - 1]];
      var prev := ClearAll(g, init);
      if InBounds(prev, cs[|cs| - 1]) {
        GetSetCell(prev, cs[|cs| - 1], None, x, y);
      }
    }
  }

  /** Removing the matches leaves every unmatched tile where it was and empties every matched cell. */
  lemma ClearMatches(g: Grid, ms: seq<Cell>, x: int, y: int)
    requires g.Valid() && Elems(ms) == MatchSet(g)
    ensures Get(ClearAll(g, ms), x, y) == if Matched(g, Cell(x, y)) then None else Get(g, x, y)
  {
    ClearAllAt(g, ms, x, y);
    assert Cell(x, y) in ms <==> Cell(x, y) in Elems(ms);
  }

  /** The end of a cascade: no matches, a tile under every top cell and no tile above an empty cell. */
  ghost predicate Stable(g: Grid) {
    && MatchSet(g) == {}
    && (forall x :: 0 <= x < g.width ==> !Starved(g, x))
    && (forall x :: 0 <= x < g.width ==> !HasGap(Column(g, x)))
  }

  /** A stable board is full below its top row. */
  lemma StableRowsFull(g: Grid, x: int, y: int)
    requires g.Valid() && Stable(g) && 0 <= x < g.width && 0 <= y <= g.height - 2
    ensures Get(g, x, y).Some?
  {
    var col := Column(g, x);
    assert !Starved(g, x) && !HasGap(col);
    assert col[g.height - 2] == Get(g, x, g.height - 2);
    NoGapPacked(col);
    PackedBelowFull(col, g.height - 2);
    assert col[y] == Get(g, x, y);
  }

  /** A board is stable exactly when one round of the cascade finds nothing
      to do: no match to remove, no starved column to fill and no tile to drop. */
  lemma StableIffQuiet(g: Grid, seed: int, n: int)
    requires g.Valid() && g.height >= 1
    ensures Stable(g) <==>
      && MatchSet(g) == {}
      && |FillUpTo(g, seed, n, g.width).spawns| == 0
      && !SweepUpTo(g, g.width).moved
  {
    FillQuiet(g, seed, n);
    GravityPacks(g);
  }

  /** `transform1D(i)` of an index of the board is a cell of the board. */
  lemma OriginInBounds(g: Grid, i: int)
    requires g.Valid() && 0 <= i < |g.cells|
    ensures g.width > 0 && InBounds(g, Origin(g, i))
  {
    IndexDecompose(g.width, g.height, i);
  }

  /** Setting the cell `transform1D(i)` writes index i of the cell list. */
  lemma SetAtOrigin(g: Grid, i: int, t: Option<int>)
    requires g.Valid() && 0 <= i < |g.cells|
    ensures g.width > 0 && InBounds(g, Origin(g, i))
    ensures SetCell(g, Origin(g, i), t).cells == g.cells[i := t]
  {
    IndexDecompose(g.width, g.height, i);
  }

  /** The list `getMatches` builds from the runs of its first |hs| origins:
      for each, its horizontal run hs[j] and then its vertical run vs[j],
      each when longer than 2. */
  function Gather(hs: seq<seq<Cell>>, vs: seq<seq<Cell>>): seq<Cell>
    requires |hs| == |vs|
    decreases |hs|
  {
    if hs == [] then []
    else
      var n := |hs| - 1;
      var prev := Gather(hs[..n], vs[..n]);
      var mid := if |hs[n]| > 2 then prev + hs[n] else prev;
      if |vs[n]| > 2 then mid + vs[n] else mid
  }

  /** hs and vs hold the horizontal and vertical runs of the origins 0 .. |hs| - 1. */
  ghost predicate RunsOf(g: Grid, hs: seq<seq<Cell>>, vs: seq<seq<Cell>>)
    decreases |hs|
  {
    && |hs| == |vs| && g.width > 0
    && (hs != [] ==>
      var n := |hs| - 1;
      && RunsOf(g, hs[..n], vs[..n])
      && hs[n] == HorizontalRun(g, Origin(g, n).x, Origin(g, n).y)
      && vs[n] == VerticalRun(g, Origin(g, n).x, Origin(g, n).y))
  }

  /** One more iteration of `getMatches`' loop. */
  lemma GatherNext(hs: seq<seq<Cell>>, vs: seq<seq<Cell>>, h: seq<Cell>, v: seq<Cell>)
    requires |hs| == |vs|
    ensures Gather(hs + [h], vs + [v]) ==
      var mid := if |h| > 2 then Gather(hs, vs) + h else Gather(hs, vs);
      if |v| > 2 then mid + v else mid
  {
    assert (hs + [h])[..|hs|] == hs;
    assert (vs + [v])[..|vs|] == vs;
  }

  /** The runs of origin |hs| extend what the loop has seen by one origin. */
  lemma RunsOfNext(g: Grid, hs: seq<seq<Cell>>, vs: seq<seq<Cell>>, h: seq<Cell>, v: seq<Cell>)
    requires g.width > 0 && |hs| == |vs| && (hs != [] ==> RunsOf(g, hs, vs))
    requires h == HorizontalRun(g, Origin(g, |hs|).x, Origin(g, |hs|).y)
    requires v == VerticalRun(g, Origin(g, |hs|).x, Origin(g, |hs|).y)
    ensures RunsOf(g, hs + [h], vs + [v])
  {
    assert (hs + [h])[..|hs|] == hs;
    assert (vs + [v])[..|vs|] == vs;
  }

  /** The cells one origin adds to the list: its runs longer than 2. */
  function Piece(h: seq<Cell>, v: seq<Cell>): set<Cell> {
    (if |h| > 2 then Elems(h) else {}) + (if |v| > 2 then Elems(v) else {})
  }

  /** The cells the first |hs| origins add, as sets. */
  function Pieces(hs: seq<seq<Cell>>, vs: seq<seq<Cell>>): set<Cell>
    requires |hs| == |vs|
    decreases |hs|
  {
    if hs == [] then {} else Pieces(hs[..|hs| - 1], vs[..|hs| - 1]) + Piece(hs[|hs| - 1], vs[|hs| - 1])
  }

  /** The list gathered holds exactly the cells of the pieces. */
  lemma {:induction false} GatherPieces(hs: seq<seq<Cell>>, vs: seq<seq<Cell>>)
    requires |hs| == |vs|
    ensures Elems(Gather(hs, vs)) == Pieces(hs, vs)
    decreases |hs|
  {
    if hs == [] {
      assert Elems([]) == {};
    } else {
      var n := |hs| - 1;
      var prev := Gather(hs[..n], vs[..n]);
      GatherPieces(hs[..n], vs[..n]);
      var mid := if |hs[n]| > 2 then prev + hs[n] else prev;
      ElemsAppend(prev, hs[n]);
      ElemsAppend(mid, vs[n]);
    }
  }

  /** The piece of origin n is its contribution. */
  lemma OriginPiece(g: Grid, n: int, h: seq<Cell>, v: seq<Cell>)
    requires g.width > 0
    requires h == HorizontalRun(g, Origin(g, n).x, Origin(g, n).y)
    requires v == VerticalRun(g, Origin(g, n).x, Origin(g, n).y)
    ensures OriginContribution(g)(n) == Piece(h, v)
  {
  }

  /** The pieces of the first |hs| origins are what they contribute. */
  lemma {:induction false} PiecesContributions(g: Grid, hs: seq<seq<Cell>>, vs: seq<seq<Cell>>)
    requires RunsOf(g, hs, vs)
    ensures Pieces(hs, vs) == Contributions(g, |hs|)
    decreases |hs|
  {
    if hs != [] {
      var n := |hs| - 1;
      PiecesContributions(g, hs[..n], vs[..n]);
      OriginPiece(g, n, hs[n], vs[n]);
    }
  }

  /** The list gathered holds exactly the cells the origins contributed. */
  lemma GatherContributions(g: Grid, hs: seq<seq<Cell>>, vs: seq<seq<Cell>>)
    requires RunsOf(g, hs, vs)
    ensures Elems(Gather(hs, vs)) == Contributions(g, |hs|)
  {
    GatherPieces(hs, vs);
    PiecesContributions(g, hs, vs);
  }

  /** Deduplicating everything the origins contributed gives each matched cell once. */
  lemma UniqueMatches(g: Grid, hs: seq<seq<Cell>>, vs: seq<seq<Cell>>, matches: seq<Cell>)
    requires g.Valid() && RunsOf(g, hs, vs) && |hs| == |g.cells|
    requires matches == Dedup.Unique(Gather(hs, vs))
    ensures Elems(matches) == MatchSet(g) && Dedup.Distinct(matches)
  {
    var all := Gather(hs, vs);
    Dedup.UniqueDistinct(all);
    assert Elems(matches) == Elems(all);
    GatherContributions(g, hs, vs);
    AllContributions(g);
  }

  lemma ElemsAppend(a: seq<Cell>, b: seq<Cell>)
    ensures Elems(a + b) == Elems(a) + Elems(b)
  {
    assert forall c :: c in a + b <==> c in a || c in b;
  }

  class BoardModel {
    const width: nat
    const height: nat
    /** The number of tile images, `Object.keys(TileView.IMAGES).length`. */
    const paletteSize: nat
    var cells: seq<Option<int>>
    var seed: int
    /** `_swapped`: the swap still in progress, if any. */
    var swapped: Option<SwapPair>
    /** Whether an `onTileAdded` hook is set. */
    var onTileAdded: bool
    /** The calls made to the `onTileAdded` hook so far, oldest first. */
    var notified: seq<Spawn>

    function View(): Grid
      reads this
    {
      Grid(width, height, cells)
    }

    predicate Valid()
      reads this
    {
      && |cells| == width * height
      && (swapped.Some? ==> InBounds(View(), swapped.value.a) && InBounds(View(), swapped.value.b))
    }

    /** `new BoardModel(width, height, seed)` on an empty tile map. */
    constructor (width: nat, height: nat, seed: int, paletteSize: nat)
      ensures Valid()
      ensures this.width == width && this.height == height && this.paletteSize == paletteSize
      ensures this.seed == seed && swapped == None && !onTileAdded && notified == []
      ensures forall j :: 0 <= j < |cells| ==> cells[j] == None
    {
      this.width := width;
      this.height := height;
      this.paletteSize := paletteSize;
      this.seed := seed;
      cells := seq(width * height, _ => None);
      swapped := None;
      onTileAdded := false;
      notified := [];
    }

    /** `size`: the number of cells. */
    function Size(): (n: nat)
      reads this
      requires Valid()
      ensures n == width * height
    {
      |cells|
    }

    /** `random()`: advances the seed; the number drawn is the new seed / 233280. */
    method Random() returns (r: int)
      modifies this`seed
      ensures seed == NextSeed(old(seed)) && r == seed
      ensures old(seed) >= 0 ==> 0 <= r < Modulus
    {
      seed := NextSeed(seed);
      r := seed;
    }

    /** `randomTileValue(min, max)`: one draw, scaled to [min, max]. */
    method RandomTileValue(min: int, max: int) returns (v: int)
      modifies this`seed
      ensures seed == NextSeed(old(seed)) && v == ScaledValue(seed, min, max)
      ensures old(seed) >= 0 && min <= max ==> min <= v <= max
    {
      var r := Random();
      v := ScaledValue(r, min, max);
    }

    /** `createRandomTileModel()`: a tile whose value is one draw over the palette. */
    method CreateRandomTileModel() returns (v: int)
      modifies this`seed
      ensures seed == NextSeed(old(seed)) && v == ScaledValue(seed, 0, paletteSize - 1)
      ensures old(seed) >= 0 && paletteSize >= 1 ==> 0 <= v < paletteSize
    {
      v := RandomTileValue(0, paletteSize - 1);
    }

    /** `tilesMatch`: both cells hold tiles, and the tiles have the same value. */
    static function TilesMatch(t1: Option<int>, t2: Option<int>): (r: bool)
      ensures r <==> t1.Some? && t1 == t2
    {
      if t1.None? || t2.None? then false else t1.value == t2.value
    }

    /** The first loop of `getHorizontalMatches`: the tiles equal to the one
        at (x, y) to its left, walking outward until a cell differs. */
    method MatchLeft(x: int, y: int) returns (cells: seq<Cell>)
      requires Valid() && Get(View(), x, y).Some?
      ensures cells == seq(Before(Row(View(), y), x, Get(View(), x, y).value), k => Cell(x - 1 - k, y))
    {
      var g := View();
      var tile := Get(g, x, y);
      ghost var row, v := Row(g, y), tile.value;
      cells := [];
      var px := x - 1;
      while TilesMatch(tile, Get(g, px, y))
        invariant -1 <= px <= x - 1
        invariant cells == seq(x - 1 - px, k => Cell(x - 1 - k, y))
        invariant Before(row, x, v) == (x - 1 - px) + Before(row, px + 1, v)
        decreases px
      {
        assert row[px] == Get(g, px, y);
        LeftCellsStep(x, y, x - 1 - px);
        cells := cells + [Cell(px, y)];
        px := px - 1;
      }
      assert Before(row, px + 1, v) == 0 by {
        if 0 <= px {
          assert row[px] == Get(g, px, y);
        }
      }
    }

    /** The second loop of `getHorizontalMatches`: the equal tiles to the right. */
    method MatchRight(x: int, y: int) returns (cells: seq<Cell>)
      requires Valid() && Get(View(), x, y).Some?
      ensures cells == seq(After(Row(View(), y), x, Get(View(), x, y).value), k => Cell(x + 1 + k, y))
    {
      var g := View();
      var tile := Get(g, x, y);
      ghost var row, v := Row(g, y), tile.value;
      cells := [];
      var px := x + 1;
      while TilesMatch(tile, Get(g, px, y))
        invariant x + 1 <= px <= g.width
        invariant cells == seq(px - x - 1, k => Cell(x + 1 + k, y))
        invariant After(row, x, v) == (px - x - 1) + After(row, px - 1, v)
        decreases g.width - px
      {
        assert row[px] == Get(g, px, y);
        RightCellsStep(x, y, px - x - 1);
        cells := cells + [Cell(px, y)];
        px := px + 1;
      }
      assert After(row, px - 1, v) == 0 by {
        if px < g.width {
          assert row[px] == Get(g, px, y);
        }
      }
    }

    /** `getHorizontalMatches`: the origin first, then the equal tiles to
        its left (walking outward), then those to its right; the origin
        alone when its cell is empty. */
    method GetHorizontalMatches(x: int, y: int) returns (matches: seq<Cell>)
      requires Valid()
      ensures matches == HorizontalRun(View(), x, y)
    {
      var tile := Get(View(), x, y);
      matches := [Cell(x, y)];
      if tile.Some? {
        var left := MatchLeft(x, y);
        var right := MatchRight(x, y);
        matches := matches + left + right;
      }
    }

    /** The first loop of `getVerticalMatches`: the equal tiles below (x, y). */
    method MatchDown(x: int, y: int) returns (cells: seq<Cell>)
      requires Valid() && Get(View(), x, y).Some?
      ensures cells == seq(Before(Column(View(), x), y, Get(View(), x, y).value), k => Cell(x, y - 1 - k))
    {
      var g := View();
      var tile := Get(g, x, y);
      ghost var col, v := Column(g, x), tile.value;
      cells := [];
      var py := y - 1;
      while TilesMatch(tile, Get(g, x, py))
        invariant -1 <= py <= y - 1
        invariant cells == seq(y - 1 - py, k => Cell(x, y - 1 - k))
        invariant Before(col, y, v) == (y - 1 - py) + Before(col, py + 1, v)
        decreases py
      {
        assert col[py] == Get(g, x, py);
        DownCellsStep(x, y, y - 1 - py);
        cells := cells + [Cell(x, py)];
        py := py - 1;
      }
      assert Before(col, py + 1, v) == 0 by {
        if 0 <= py {
          assert col[py] == Get(g, x, py);
        }
      }
    }

    /** The second loop of `getVerticalMatches`: the equal tiles above (x, y). */
    method MatchUp(x: int, y: int) returns (cells: seq<Cell>)
      requires Valid() && Get(View(), x, y).Some?
      ensures cells == seq(After(Column(View(), x), y, Get(View(), x, y).value), k => Cell(x, y + 1 + k))
    {
      var g := View();
      var tile := Get(g, x, y);
      ghost var col, v := Column(g, x), tile.value;
      cells := [];
      var py := y + 1;
      while TilesMatch(tile, Get(g, x, py))
        invariant y + 1 <= py <= g.height
        invariant cells == seq(py - y - 1, k => Cell(x, y + 1 + k))
        invariant After(col, y, v) == (py - y - 1) + After(col, py - 1, v)
        decreases g.height - py
      {
        assert col[py] == Get(g, x, py);
        UpCellsStep(x, y, py - y - 1);
        cells := cells + [Cell(x, py)];
        py := py + 1;
      }
      assert After(col, py - 1, v) == 0 by {
        if py < g.height {
          assert col[py] == Get(g, x, py);
        }
      }
    }

    /** `getVerticalMatches`: the origin first, then the equal tiles below
        it, then those above; the origin alone when its cell is empty. */
    method GetVerticalMatches(x: int, y: int) returns (matches: seq<Cell>)
      requires Valid()
      ensures matches == VerticalRun(View(), x, y)
    {
      var tile := Get(View(), x, y);
      matches := [Cell(x, y)];
      if tile.Some? {
        var below := MatchDown(x, y);
        var above := MatchUp(x, y);
        matches := matches + below + above;
      }
    }

    /** `BoardModel.unique`: a copy of the list in which, for each position i,
        the later entries for the same cell are spliced out. */
    static method Unique(tiles: seq<Cell>) returns (unique: seq<Cell>)
      ensures unique == Dedup.Unique(tiles)
    {
      unique := tiles;
      var i := 0;
      while i < |unique|
        invariant 0 <= i <= |unique|
        invariant unique[..i] + Dedup.Unique(unique[i..]) == Dedup.Unique(tiles)
        decreases |unique| - i
      {
        ghost var before := unique;
        var j := i + 1;
        while j < |unique|
          invariant i + 1 <= j <= |unique|
          invariant unique[..i + 1] == before[..i + 1]
          invariant forall k :: i + 1 <= k < j ==> unique[k] != unique[i]
          invariant Dedup.Without(unique[i + 1..], unique[i]) == Dedup.Without(before[i + 1..], before[i])
          decreases |unique| - j
        {
          if unique[i] == unique[j] {
            Dedup.SpliceCopy(unique, i, j);
            unique := unique[..j] + unique[j + 1..];
          } else {
            j := j + 1;
          }
        }
        Dedup.WithoutAbsent(unique[i + 1..], unique[i]);
        Dedup.UniqueStep(before, unique, i);
        assert unique[..i + 1] + Dedup.Unique(unique[i + 1..]) == before[..i] + Dedup.Unique(before[i..]);
        i := i + 1;
      }
      assert unique[..i] == unique;
    }

    /** `getMatches`: for every tile in index order, its horizontal and then
        its vertical run when longer than 2, with repeated cells dropped. */
    method GetMatches() returns (matches: seq<Cell>)
      requires Valid()
      ensures Elems(matches) == MatchSet(View())
      ensures Dedup.Distinct(matches)
    {
      var g := View();
      var all: seq<Cell> := [];
      ghost var hs: seq<seq<Cell>> := [];
      ghost var vs: seq<seq<Cell>> := [];
      var i := 0;
      while i < |cells|
        invariant 0 <= i <= |cells| && g == View()
        invariant |hs| == i && |vs| == i && (i > 0 ==> RunsOf(g, hs, vs))
        invariant all == Gather(hs, vs)
      {
        OriginInBounds(g, i);
        var origin := Origin(g, i);
        var horizontal := GetHorizontalMatches(origin.x, origin.y);
        if |horizontal| > 2 {
          all := all + horizontal;
        }
        var vertical := GetVerticalMatches(origin.x, origin.y);
        if |vertical| > 2 {
          all := all + vertical;
        }
        GatherNext(hs, vs, horizontal, vertical);
        RunsOfNext(g, hs, vs, horizontal, vertical);
        hs, vs := hs + [horizontal], vs + [vertical];
        i := i + 1;
      }
      matches := Unique(all);
      if |cells| > 0 {
        UniqueMatches(g, hs, vs, matches);
      } else {
        assert MatchSet(g) == {};
      }
    }

    /** The inner loop of `toString` for row y: the row's cells left to
        right, and the newline written with the last one. */
    method RowText(y: int) returns (line: string)
      requires Valid()
      ensures line == LineWritten(View(), y, width, CellText)
    {
      var g := View();
      line := "";
      var x := 0;
      while x < width
        invariant 0 <= x <= width
        invariant line == LineWritten(g, y, x, CellText)
      {
        var tile := Get(g, x, y);
        LineTextNext(g, y, x);
        var text := CellText(tile);
        line := line + text;
        if x == width - 1 {
          line := line + "\n";
        }
        x := x + 1;
      }
    }

    /** `toString`: rows from the top down, cells left to right. */
    method ToString() returns (s: string)
      requires Valid()
      ensures s == Render(View())
    {
      s := "";
      var y: int := height - 1;
      while y >= 0
        invariant -1 <= y <= height - 1
        invariant s == RowsText(View(), height - 1 - y, CellText)
      {
        var line := RowText(y);
        RowsTextNext(View(), height - 1 - y, CellText);
        s := s + line;
        y := y - 1;
      }
    }

    /** `removeAll(matches)`: `remove` on every listed tile; reports whether
        the list was non-empty. */
    method RemoveAll(matches: seq<Cell>) returns (removed: bool)
      requires Valid()
      modifies this`cells
      ensures Valid()
      ensures View() == ClearAll(old(View()), matches)
      ensures removed == (|matches| > 0)
    {
      ghost var g := View();
      var k := 0;
      while k < |matches|
        invariant 0 <= k <= |matches| && Valid()
        invariant View() == ClearAll(g, matches[..k])
      {
        assert matches[..k + 1][..k] == matches[..k];
        if InBounds(View(), matches[k]) {
          cells := SetCell(View(), matches[k], None).cells;
        }
        k := k + 1;
      }
      assert matches[..k] == matches;
      removed := |matches| > 0;
    }

    /** `moveTile(from, to)`: the tile at `from` moves to `to`; with no tile
        at `from` the move is refused ("Tile is moving") and nothing changes. */
    method MoveTile(from: Cell, to: Cell) returns (ok: bool)
      requires Valid() && InBounds(View(), to)
      modifies this`cells
      ensures Valid()
      ensures ok == At(old(View()), from).Some?
      ensures ok ==> InBounds(old(View()), from)
      ensures ok ==> View() == SetCell(SetCell(old(View()), from, None), to, At(old(View()), from))
      ensures !ok ==> cells == old(cells)
    {
      var moving := At(View(), from);
      ok := moving.Some?;
      if ok {
        var emptied := SetCell(View(), from, None);
        cells := SetCell(emptied, to, moving).cells;
      }
    }

    /** The inner loop of `gravity` for column i: the column is scanned
        bottom to top, counting the empty cells seen; a tile with `drop`
        empty cells below it moves down by `drop`. Reports whether a tile moved. */
    method DropColumn(i: int) returns (columnMoved: bool)
      requires Valid() && 0 <= i < width
      modifies this`cells
      ensures Valid()
      ensures View() == ScanUpTo(old(View()), i, height).grid
      ensures columnMoved == ScanUpTo(old(View()), i, height).moved
    {
      ghost var h := View();
      var drop := 0;
      var cell := Origin(View(), i);
      assert cell == Cell(i, 0) by { IndexRecover(width, i, 0); }
      columnMoved := false;
      while cell.y <= height - 1
        invariant cell.x == i && 0 <= cell.y <= height && Valid()
        invariant ScanUpTo(h, i, cell.y) == Scan(View(), drop, columnMoved)
      {
        if Get(View(), cell.x, cell.y).None? {
          drop := drop + 1;
        } else if drop > 0 {
          var ok := MoveTile(cell, Cell(cell.x, cell.y - drop));
          columnMoved := true;
        }
        cell := cell.(y := cell.y + 1);
      }
    }

    /** `gravity`: every column is scanned bottom to top, and its tiles fall
        into the empty cells below them. Every column ends packed, and the
        pass reports whether a tile moved, which happens exactly when some
        tile had an empty cell beneath it. */
    method Gravity() returns (moved: bool)
      requires Valid()
      modifies this`cells
      ensures Valid()
      ensures View() == SweepUpTo(old(View()), width).grid && moved == SweepUpTo(old(View()), width).moved
      ensures forall x :: 0 <= x < width ==> Column(View(), x) == Packed(Column(old(View()), x))
      ensures moved <==> exists x :: 0 <= x < width && HasGap(Column(old(View()), x))
    {
      ghost var g := View();
      var movements := false;
      var i := 0;
      while i < width
        invariant 0 <= i <= width && Valid()
        invariant SweepUpTo(g, i) == Sweep(View(), movements)
      {
        var columnMoved := DropColumn(i);
        movements := movements || columnMoved;
        i := i + 1;
      }
      GravityPacks(g);
      moved := movements;
    }

    /** `fill`: one pass over the columns; a column whose cell just below the
        top row is empty gets a new random tile in its top cell, reported to
        the `onTileAdded` hook. Reports whether a tile was added. */
    method Fill() returns (filled: bool)
      requires Valid() && height >= 1
      modifies this`cells, this`seed, this`notified
      ensures Valid()
      ensures var r := FillUpTo(old(View()), old(seed), paletteSize, width);
        && View() == r.grid && seed == r.seed && filled == (|r.spawns| > 0)
        && notified == old(notified) + (if onTileAdded then r.spawns else [])
      ensures old(seed) >= 0 && paletteSize >= 1 && InPalette(old(View()), paletteSize) ==>
        seed >= 0 && InPalette(View(), paletteSize)
    {
      ghost var g, seed0, log0 := View(), seed, notified;
      var added: seq<Spawn> := [];
      var y := height - 1;
      var x := 0;
      while x < width
        invariant 0 <= x <= width && Valid()
        invariant FillUpTo(g, seed0, paletteSize, x) == FillState(View(), seed, added)
        invariant notified == log0 + (if onTileAdded then added else [])
      {
        assert Starved(View(), x) == Get(View(), x, y - 1).None?;
        if Get(View(), x, y - 1).None? {
          var value := CreateRandomTileModel();
          var spawn := Spawn(Cell(x, y), value);
          cells := SetCell(View(), Cell(x, y), Some(value)).cells;
          if onTileAdded {
            assert log0 + (added + [spawn]) == log0 + added + [spawn];
            notified := notified + [spawn];
          }
          added := added + [spawn];
        }
        x := x + 1;
      }
      if seed0 >= 0 && paletteSize >= 1 && InPalette(g, paletteSize) {
        FillUpToInPalette(g, seed0, paletteSize, width);
      }
      filled := |added| > 0;
    }

    /** One pass of the do-while loop of `randomize` for index i: a random
        tile, one draw of the generator, is put in cell `transform1D(i)`;
        the result is the loop's exit test, that neither of its runs is
        longer than 2. Only cell i changes. */
    method TryCell(i: int) returns (ok: bool)
      requires Valid() && 0 <= i < |cells|
      modifies this`cells, this`seed
      ensures Valid() && cells == old(cells)[i := cells[i]] && cells[i].Some?
      ensures seed == NextSeed(old(seed)) && cells[i] == Some(ScaledValue(seed, 0, paletteSize - 1))
      ensures ok == Committable(View(), i)
      ensures old(seed) >= 0 && paletteSize >= 1 && InPalette(old(View()), paletteSize) ==>
        seed >= 0 && 0 <= cells[i].value < paletteSize && InPalette(View(), paletteSize)
    {
      OriginInBounds(View(), i);
      var position := Origin(View(), i);
      var tileModel := CreateRandomTileModel();
      SetAtOrigin(View(), i, Some(tileModel));
      if old(seed) >= 0 && paletteSize >= 1 && InPalette(View(), paletteSize) {
        SetCellInPalette(View(), position, Some(tileModel), paletteSize);
      }
      cells := SetCell(View(), position, Some(tileModel)).cells;
      var vertical := GetVerticalMatches(position.x, position.y);
      ok := |vertical| <= 2;
      if ok {
        var horizontal := GetHorizontalMatches(position.x, position.y);
        ok := |horizontal| <= 2;
      }
    }

    /** The do-while loop of `randomize` for index i: draw a random tile for
        cell `transform1D(i)` until it makes no vertical and no horizontal run
        longer than 2, while the budget of attempts lasts. Only cell i changes,
        and each attempt draws once from the generator; the tile left in the
        cell is the value of the last draw, and a success leaves it passing
        that test, and so settled. */
    method SettleCell(i: int, budget: nat) returns (left: nat, settled: bool)
      requires Valid() && 0 <= i < |cells|
      modifies this`cells, this`seed
      ensures Valid() && cells == old(cells)[i := cells[i]]
      ensures left <= budget && seed == SeedAfter(old(seed), budget - left)
      ensures left < budget ==> cells[i] == Some(ScaledValue(seed, 0, paletteSize - 1))
      ensures settled ==> Committable(View(), i) && Settled(View(), i)
      ensures old(seed) >= 0 && paletteSize >= 1 && InPalette(old(View()), paletteSize) ==>
        seed >= 0 && InPalette(View(), paletteSize)
    {
      ghost var gi, seed0 := View(), seed;
      ghost var inPalette := seed >= 0 && paletteSize >= 1 && InPalette(View(), paletteSize);
      left := budget;
      settled := false;
      var again := true;
      while again && left > 0
        invariant Valid() && cells == gi.cells[i := cells[i]]
        invariant left <= budget && seed == SeedAfter(seed0, budget - left)
        invariant left < budget ==> cells[i] == Some(ScaledValue(seed, 0, paletteSize - 1))
        invariant !again ==> Committable(View(), i) && cells[i].Some?
        invariant inPalette ==> seed >= 0 && InPalette(View(), paletteSize)
        decreases left
      {
        left := left - 1;
        var ok := TryCell(i);
        again := !ok;
      }
      settled := !again;
      if settled {
        CommitSettles(View(), i);
      }
    }

    /** `randomize`: the cells below the top row, in index order, each get
        random tiles until one makes no vertical and no horizontal run longer
        than 2. `fuel` bounds the number of attempts, and `attempts` is how
        many were made, one draw each; a run that does not end early leaves
        every such cell settled, keeps the top row, and so on a board whose
        top row is empty leaves no match. */
    method Randomize(fuel: nat) returns (done: bool, attempts: nat)
      requires Valid()
      modifies this`cells, this`seed
      ensures Valid()
      ensures attempts <= fuel && seed == SeedAfter(old(seed), attempts)
      ensures forall j :: |old(cells)| - width <= j < |cells| && 0 <= j ==> cells[j] == old(cells)[j]
      ensures done ==> forall j :: 0 <= j < |cells| - width ==> Settled(View(), j)
      ensures done && width > 0 && height > 0 && TopRowEmpty(old(View())) ==> MatchSet(View()) == {}
      ensures old(seed) >= 0 && paletteSize >= 1 && InPalette(old(View()), paletteSize) ==>
        seed >= 0 && InPalette(View(), paletteSize)
    {
      ghost var g0, seed0 := View(), seed;
      ghost var inPalette := seed >= 0 && paletteSize >= 1 && InPalette(View(), paletteSize);
      var i := 0;
      var budget := fuel;
      attempts := 0;
      done := true;
      while i < Size() - width && done
        invariant 0 <= i <= |cells| && Valid()
        invariant attempts + budget == fuel && seed == SeedAfter(seed0, attempts)
        invariant forall j :: |g0.cells| - width <= j < |cells| && 0 <= j ==> cells[j] == g0.cells[j]
        invariant forall j :: 0 <= j < i ==> Settled(View(), j)
        invariant inPalette ==> seed >= 0 && InPalette(View(), paletteSize)
        decreases if done then 1 else 0, |cells| - width - i
      {
        ghost var gi := View();
        var left;
        left, done := SettleCell(i, budget);
        SeedAfterAdd(seed0, attempts, budget - left);
        attempts, budget := attempts + (budget - left), left;
        assert gi.cells[..i] == cells[..i];
        SettledPrefixFrame(gi, View(), i, i);
        if done {
          i := i + 1;
        }
      }
      if done {
        if width > 0 && height > 0 && TopRowEmpty(g0) {
          TopRowKept(g0, View());
          SettledBoardHasNoMatches(View());
        }
      }
    }

    /** `swapTiles(tile1, tile2)`, up to the moment the swap animation ends:
        with no swap in progress, the two tiles trade places and the board
        waits for that swap; a call while one is pending does nothing. */
    method SwapTiles(a: Cell, b: Cell) returns (started: bool)
      requires Valid() && InBounds(View(), a) && InBounds(View(), b)
      modifies this`cells, this`swapped
      ensures Valid()
      ensures started == old(swapped).None?
      ensures started ==> View() == Exchange(old(View()), a, b) && swapped == Some(SwapPair(a, b))
      ensures !started ==> cells == old(cells) && swapped == old(swapped)
    {
      started := swapped.None?;
      if started {
        cells := Exchange(View(), a, b).cells;
        swapped := Some(SwapPair(a, b));
      }
    }

    /** The continuation of `swapTiles` once the swap animation ends: a swap
        that made a match sets off `simulate`, any other is swapped back. The
        guard is cleared when that has finished. */
    method OnSwapped(fuel: nat) returns (settled: bool)
      requires Valid() && swapped.Some? && height >= 1
      modifies this`cells, this`seed, this`notified, this`swapped
      ensures Valid()
      ensures var p := old(swapped).value;
        MatchSet(old(View())) == {} ==> settled && View() == Exchange(old(View()), p.a, p.b)
      ensures MatchSet(old(View())) == {} ==> seed == old(seed) && notified == old(notified)
      ensures settled ==> swapped == None
      ensures !settled ==> swapped == old(swapped)
      ensures settled && MatchSet(old(View())) != {} ==> Stable(View())
    {
      var pair := swapped.value;
      var matches := GetMatches();
      if |matches| > 0 {
        assert matches[0] in MatchSet(View());
        settled := Simulate(fuel);
      } else {
        cells := Exchange(View(), pair.a, pair.b).cells;
        settled := true;
      }
      if settled {
        swapped := None;
      }
    }

    /** `swapTiles` followed by waiting for the promise it returns. A swap
        that makes no match leaves the board as it was; one that does ends,
        once the cascade settles, on a stable board. Either way the guard is
        then clear. */
    method SwapTilesAndWait(a: Cell, b: Cell, fuel: nat) returns (started: bool, settled: bool)
      requires Valid() && InBounds(View(), a) && InBounds(View(), b) && height >= 1
      modifies this`cells, this`seed, this`notified, this`swapped
      ensures Valid()
      ensures started == old(swapped).None?
      ensures !started ==> cells == old(cells) && swapped == old(swapped)
      ensures !started || MatchSet(Exchange(old(View()), a, b)) == {} ==>
        seed == old(seed) && notified == old(notified)
      ensures started && MatchSet(Exchange(old(View()), a, b)) == {} ==> settled && View() == old(View())
      ensures started && settled ==> swapped == None
      ensures started && settled && MatchSet(Exchange(old(View()), a, b)) != {} ==> Stable(View())
    {
      ghost var g := View();
      started := SwapTiles(a, b);
      settled := false;
      if started {
        settled := OnSwapped(fuel);
        ExchangeTwice(g, a, b);
      }
    }

    /** The `onTileAdded` setter: whether a hook is installed. */
    method SetOnTileAdded(value: bool)
      modifies this`onTileAdded
      ensures onTileAdded == value
    {
      onTileAdded := value;
    }

    /** `simulate`: one round of the cascade removes the matches, fills the
        starved columns and lets the tiles fall; while any of the three did
        something, another round follows. `fuel` bounds the number of
        rounds; a run that settles leaves a stable board. */
    method Simulate(fuel: nat) returns (settled: bool)
      requires Valid() && height >= 1
      modifies this`cells, this`seed, this`notified
      ensures Valid()
      ensures settled ==> Stable(View())
      decreases fuel
    {
      ghost var g := View();
      var matches := GetMatches();
      var removed := RemoveAll(matches);
      ghost var s1 := seed;
      var filled := Fill();
      var moved := Gravity();
      if removed || filled || moved {
        if fuel > 0 {
          settled := Simulate(fuel - 1);
        } else {
          settled := false;
        }
      } else {
        assert MatchSet(g) == {} by { assert matches == []; }
        FillQuiet(g, s1, paletteSize);
        GravityPacks(g);
        StableIffQuiet(g, s1, paletteSize);
        settled := true;
      }
    }
  }
}
