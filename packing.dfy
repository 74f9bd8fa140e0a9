/** What `gravity` does to one column: the tiles fall to the bottom in
    their order, and the empty cells collect above them. Columns are read
    bottom (y = 0) to top. */
module Packing {
  import opened Grid

  /** The tiles of a line in order, empty cells dropped. */
  function Occupied(s: Line): (r: Line)
    ensures |r| <= |s|
    ensures forall i :: 0 <= i < |r| ==> r[i].Some?
  {
    if s == [] then [] else Occupied(s[..|s| - 1]) + (if s[|s| - 1].Some? then [s[|s| - 1]] else [])
  }

  function Empties(n: nat): (r: Line)
    ensures |r| == n
  {
    seq(n, _ => None)
  }

  /** The column after gravity: its tiles packed from the bottom up, then empty cells. */
  function Packed(s: Line): Line {
    Occupied(s) + Empties(|s| - |Occupied(s)|)
  }

  /** Some tile has an empty cell somewhere beneath it. */
  predicate HasGap(s: Line) {
    exists i, j :: 0 <= i < j < |s| && s[i].None? && s[j].Some?
  }

  lemma {:induction false} OccupiedAppend(s: Line, t: Option<int>)
    ensures Occupied(s + [t]) == Occupied(s) + (if t.Some? then [t] else [])
  {
    assert (s + [t])[..|s + [t]| - 1] == s;
  }

  /** A line without empty cells is all tiles. */
  lemma {:induction false} OccupiedFull(s: Line)
    requires forall i :: 0 <= i < |s| ==> s[i].Some?
    ensures Occupied(s) == s
  {
    if s != [] {
      OccupiedFull(s[..|s| - 1]);
      assert s == s[..|s| - 1] + [s[|s| - 1]];
    }
  }

  lemma {:induction false} OccupiedEmpties(n: nat)
    ensures Occupied(Empties(n)) == []
  {
    if n > 0 {
      assert Empties(n)[..n - 1] == Empties(n - 1);
      OccupiedEmpties(n - 1);
    }
  }

  lemma {:induction false} OccupiedConcat(a: Line, b: Line)
    ensures Occupied(a + b) == Occupied(a) + Occupied(b)
    decreases |b|
  {
    if b == [] {
      assert a + b == a;
    } else {
      var b' := b[..|b| - 1];
      assert a + b == (a + b') + [b[|b| - 1]];
      assert b == b' + [b[|b| - 1]];
      OccupiedAppend(a + b', b[|b| - 1]);
      OccupiedAppend(b', b[|b| - 1]);
      OccupiedConcat(a, b');
    }
  }

  /** Gravity keeps the column's height, its tiles and their order, and the
      tiles end up exactly in the bottom cells. */
  lemma PackedShape(s: Line)
    ensures |Packed(s)| == |s|
    ensures Occupied(Packed(s)) == Occupied(s)
    ensures forall i :: 0 <= i < |s| ==> (Packed(s)[i].Some? <==> i < |Occupied(s)|)
  {
    OccupiedConcat(Occupied(s), Empties(|s| - |Occupied(s)|));
    OccupiedFull(Occupied(s));
    OccupiedEmpties(|s| - |Occupied(s)|);
  }

  /** Gravity changes a column exactly when some tile has an empty cell beneath it. */
  lemma PackedChanges(s: Line)
    ensures Packed(s) != s <==> HasGap(s)
  {
    if HasGap(s) {
      PackedShape(s);
      var i, j :| 0 <= i < j < |s| && s[i].None? && s[j].Some?;
    } else {
      NoGapPacked(s);
    }
  }

  /** Without a gap, every cell from an empty one up is empty. */
  lemma NoGapTail(s: Line, p: int)
    requires !HasGap(s) && 0 <= p <= |s| && (p < |s| ==> s[p].None?)
    ensures s[p..] == Empties(|s| - p)
  {
    var tail, none := s[p..], Empties(|s| - p);
    forall j | 0 <= j < |tail|
      ensures tail[j] == none[j]
    {
      assert tail[j] == s[p + j];
      if j > 0 {
        assert !(s[p].None? && s[p + j].Some?);
      }
    }
  }

  /** A column of tiles below p and empty cells from p up is packed already. */
  lemma PackedSplit(s: Line, p: int)
    requires 0 <= p <= |s| && (forall i :: 0 <= i < p ==> s[i].Some?)
    requires s[p..] == Empties(|s| - p)
    ensures Packed(s) == s
  {
    var head, tail := s[..p], s[p..];
    assert s == head + tail;
    OccupiedFull(head);
    OccupiedConcat(head, tail);
    OccupiedEmpties(|s| - p);
  }

  /** Without a gap, the column is tiles followed by empty cells already. */
  lemma NoGapPacked(s: Line)
    requires !HasGap(s)
    ensures Packed(s) == s
  {
    var p := FirstEmpty(s);
    NoGapTail(s, p);
    PackedSplit(s, p);
  }

  /** The index of the first empty cell, or |s| when there is none. */
  function FirstEmpty(s: Line): (p: nat)
    ensures p <= |s|
    ensures forall i :: 0 <= i < p ==> s[i].Some?
    ensures p < |s| ==> s[p].None?
  {
    if s == [] then 0 else if s[0].None? then 0 else 1 + FirstEmpty(s[1..])
  }

  /** A packed column whose cell k holds a tile holds tiles in every cell below k. */
  lemma PackedBelowFull(s: Line, k: int)
    requires Packed(s) == s && 0 <= k < |s| && s[k].Some?
    ensures forall j :: 0 <= j <= k ==> s[j].Some?
  {
    PackedShape(s);
  }

  /** Appending an empty cell on top appends it to the packed column. */
  lemma PackAppendNone(pre: Line)
    ensures Packed(pre + [None]) == Packed(pre) + [None]
  {
    OccupiedAppend(pre, None);
    var n := |pre| - |Occupied(pre)|;
    assert Empties(n + 1) == Empties(n) + [None];
  }

  /** Appending a tile on top of a column with an empty cell: the tile lands in
      the lowest empty cell of the packed column, index |Occupied(pre)|. */
  lemma PackAppendTile(pre: Line, t: Option<int>)
    requires t.Some?
    ensures var k := |Occupied(pre)|;
      && (k == |pre| ==> Packed(pre + [t]) == Packed(pre) + [t])
      && (k < |pre| ==> Packed(pre)[k].None? && Packed(pre + [t]) == Packed(pre)[k := t] + [None])
  {
    OccupiedAppend(pre, t);
    var occ := Occupied(pre);
    var n := |pre| - |occ|;
    if n > 0 {
      assert Empties(n) == [None] + Empties(n - 1);
      assert Packed(pre + [t]) == occ + [t] + Empties(n - 1) + [None];
    }
  }

  /** Appending on top creates a gap exactly when a tile is put above an empty cell. */
  lemma GapAppend(pre: Line, t: Option<int>)
    ensures HasGap(pre + [t]) <==> HasGap(pre) || (t.Some? && |Occupied(pre)| < |pre|)
  {
    var s := pre + [t];
    if HasGap(s) {
      var i, j :| 0 <= i < j < |s| && s[i].None? && s[j].Some?;
      if j < |pre| {
        assert pre[i].None? && pre[j].Some?;
      } else {
        assert pre[i].None?;
        NoneCounted(pre, i);
      }
    }
    if t.Some? && |Occupied(pre)| < |pre| {
      var i := FirstEmpty(pre);
      if i == |pre| {
        OccupiedFull(pre);
      }
      assert s[i].None? && s[|pre|].Some?;
    }
    if HasGap(pre) {
      var i, j :| 0 <= i < j < |pre| && pre[i].None? && pre[j].Some?;
      assert s[i].None? && s[j].Some?;
    }
  }

  /** HasGap, computed on the way up the column: a tile lands above an empty
      cell exactly when the cells below it hold fewer tiles than cells. */
  predicate Gapped(s: Line)
    decreases |s|
  {
    s != [] && (Gapped(s[..|s| - 1]) || (s[|s| - 1].Some? && |Occupied(s[..|s| - 1])| < |s| - 1))
  }

  lemma {:induction false} GappedHasGap(s: Line)
    ensures Gapped(s) <==> HasGap(s)
    decreases |s|
  {
    if s != [] {
      var pre := s[..|s| - 1];
      GappedHasGap(pre);
      assert s == pre + [s[|s| - 1]];
      GapAppend(pre, s[|s| - 1]);
    }
  }

  /** One step of gravity's bottom-to-top scan. `drop` is the number of empty
      cells seen below row y; a tile at y with drop > 0 moves down to y - drop,
      which is the lowest empty cell of the packed part below y. */
  lemma PackStep(s: Line, y: int)
    requires 0 <= y < |s|
    ensures var p, drop := Packed(s[..y]), y - |Occupied(s[..y])|;
      && 0 <= drop <= y
      && |p| == y
      && |Occupied(s[..y + 1])| == |Occupied(s[..y])| + (if s[y].Some? then 1 else 0)
      && (s[y].None? ==> Packed(s[..y + 1]) == p + [None])
      && (s[y].Some? && drop == 0 ==> Packed(s[..y + 1]) == p + [s[y]])
      && (s[y].Some? && drop > 0 ==> p[y - drop].None? && Packed(s[..y + 1]) == p[y - drop := s[y]] + [None])
  {
    var pre := s[..y];
    assert s[..y + 1] == pre + [s[y]];
    OccupiedAppend(pre, s[y]);
    PackedShape(pre);
    if s[y].None? {
      PackAppendNone(pre);
    } else {
      PackAppendTile(pre, s[y]);
    }
  }

  /** A line with an empty cell has fewer tiles than cells. */
  lemma {:induction false} NoneCounted(s: Line, i: int)
    requires 0 <= i < |s| && s[i].None?
    ensures |Occupied(s)| < |s|
  {
    var init := s[..|s| - 1];
    if i < |s| - 1 {
      assert init[i].None?;
      NoneCounted(init, i);
    }
  }

  /** One iteration of gravity's scan up a column, seen on the whole column:
      `cur` is the column after the cells below y were scanned, `drop` the
      number of empty cells among them. An empty cell or a tile with nothing
      to fall into leaves the column as it is; any other tile moves down by
      `drop`, and the scanned part is then the packed prefix one cell longer. */
  lemma ScanStep(s: Line, y: int, cur: Line)
    requires 0 <= y < |s| && cur == Packed(s[..y]) + s[y..]
    ensures var drop := y - |Occupied(s[..y])|;
      && 0 <= drop <= y && cur[y] == s[y]
      && y + 1 - |Occupied(s[..y + 1])| == drop + (if s[y].None? then 1 else 0)
      && (s[y].None? || drop == 0 ==> cur == Packed(s[..y + 1]) + s[y + 1..])
      && (s[y].Some? && drop > 0 ==> cur[y := None][y - drop := s[y]] == Packed(s[..y + 1]) + s[y + 1..])
      && (Gapped(s[..y + 1]) <==> Gapped(s[..y]) || (s[y].Some? && drop > 0))
  {
    PackStep(s, y);
    assert s[..y + 1][..y] == s[..y];
    assert s[y..] == [s[y]] + s[y + 1..];
  }

  /** Whether one of the first i columns has a gap, column by column. */
  predicate SomeColumnGapped(g: Grid, i: int)
    decreases i
  {
    i > 0 && (SomeColumnGapped(g, i - 1) || Gapped(Column(g, i - 1)))
  }

  lemma {:induction false} GappedColumns(g: Grid, i: int)
    ensures SomeColumnGapped(g, i) <==> exists x :: 0 <= x < i && HasGap(Column(g, x))
    decreases i
  {
    if i > 0 {
      GappedColumns(g, i - 1);
      GappedHasGap(Column(g, i - 1));
      if HasGap(Column(g, i - 1)) {
        assert 0 <= i - 1 < i;
      }
    }
  }

  /** A column-wise gravity step changes the board exactly when some column
      has a tile above an empty cell. */
  lemma GravityChanges(g: Grid, h: Grid)
    requires g.Valid() && h.Valid() && g.width == h.width && g.height == h.height
    requires forall x :: 0 <= x < g.width ==> Column(h, x) == Packed(Column(g, x))
    ensures h != g <==> exists x :: 0 <= x < g.width && HasGap(Column(g, x))
  {
    if exists x :: 0 <= x < g.width && HasGap(Column(g, x)) {
      var x :| 0 <= x < g.width && HasGap(Column(g, x));
      PackedChanges(Column(g, x));
    } else {
      forall x | 0 <= x < g.width
        ensures Column(h, x) == Column(g, x)
      {
        PackedChanges(Column(g, x));
      }
      ColumnsDetermineGrid(h, g);
    }
  }
}
