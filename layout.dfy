/** Row-major layout of a width x height board in a flat sequence:
    cell (x, y) lives at index y * width + x, so index i holds the cell
    (i % width, i / width). The lemmas here relate products, indices and
    their order, for the other modules to call. */
module Layout {

  function Index(width: int, x: int, y: int): int {
    y * width + x
  }

  lemma MulMono(a: int, b: int, w: nat)
    requires a <= b
    ensures a * w <= b * w
  {
    assert b * w - a * w == (b - a) * w;
  }

  lemma MulSucc(k: int, w: int)
    ensures (k + 1) * w == k * w + w
  {
  }

  /** Every in-range cell has an in-range index. */
  lemma IndexInRange(width: nat, height: nat, x: int, y: int)
    requires 0 <= x < width && 0 <= y < height
    ensures 0 <= Index(width, x, y) < width * height
  {
    MulMono(0, y, width);
    MulMono(y + 1, height, width);
    assert (y + 1) * width == y * width + width;
    assert height * width == width * height;
  }

  /** A cell in a lower row has a smaller index than any cell of a higher row. */
  lemma IndexRowOrder(width: nat, x1: int, y1: int, x2: int, y2: int)
    requires 0 <= x1 < width && 0 <= x2 < width && y1 < y2
    ensures Index(width, x1, y1) < Index(width, x2, y2)
  {
    MulMono(y1 + 1, y2, width);
    assert (y1 + 1) * width == y1 * width + width;
  }

  /** Distinct in-range cells have distinct indices. */
  lemma IndexInjective(width: nat, x1: int, y1: int, x2: int, y2: int)
    requires 0 <= x1 < width && 0 <= x2 < width
    requires Index(width, x1, y1) == Index(width, x2, y2)
    ensures x1 == x2 && y1 == y2
  {
    if y1 < y2 {
      IndexRowOrder(width, x1, y1, x2, y2);
    } else if y2 < y1 {
      IndexRowOrder(width, x2, y2, x1, y1);
    }
  }

  /** transform1D: an index decomposes into the column i % width and the row i / width. */
  lemma IndexDecompose(width: nat, height: nat, i: int)
    requires 0 <= i < width * height
    ensures width > 0
    ensures 0 <= i % width < width && 0 <= i / width < height
    ensures Index(width, i % width, i / width) == i
  {
    var x, y := i % width, i / width;
    assert i == y * width + x;
    if y >= height {
      MulMono(height, y, width);
    }
  }

  /** The cell (x, y) is recovered from its index. */
  lemma IndexRecover(width: nat, x: int, y: int)
    requires 0 <= x < width
    ensures Index(width, x, y) % width == x && Index(width, x, y) / width == y
  {
    var i := Index(width, x, y);
    var q, r := i / width, i % width;
    assert i == q * width + r;
    IndexInjective(width, r, q, x, y);
  }

  /** The last row occupies indices width * (height - 1) .. width * height - 1. */
  lemma TopRowIndex(width: nat, height: nat, x: int, y: int)
    requires 0 <= x < width && 0 <= y < height
    ensures Index(width, x, y) < width * height - width <==> y < height - 1
  {
    assert width * height - width == (height - 1) * width;
    if y < height - 1 {
      IndexRowOrder(width, x, y, 0, height - 1);
    } else {
      assert y == height - 1;
    }
  }
}
