/** `toString`: the board as text, top row first; a tile is written as its
    value in decimal, an empty cell as `X`, and each row ends with a newline. */
module Text {
  import opened Layout
  import opened Grid

  function DigitChar(d: int): (c: char)
    requires 0 <= d < 10
    ensures '0' <= c <= '9'
  {
    (d + '0' as int) as char
  }

  function DigitValue(c: char): int {
    c as int - '0' as int
  }

  predicate IsDigit(c: char) {
    '0' <= c <= '9'
  }

  /** A non-negative number in decimal, most significant digit first. */
  function NatToString(n: nat): (s: string)
    ensures |s| >= 1
    decreases n
  {
    if n < 10 then [DigitChar(n)] else NatToString(n / 10) + [DigitChar(n % 10)]
  }

  /** Reading a string of digits back as a number. */
  function ParseNat(s: string): int
    decreases |s|
  {
    if s == [] then 0 else 10 * ParseNat(s[..|s| - 1]) + DigitValue(s[|s| - 1])
  }

  /** JavaScript's number-to-string conversion for integers. */
  function IntToString(i: int): string {
    if i < 0 then "-" + NatToString(-i) else NatToString(i)
  }

  /** The decimal text denotes the number, and has no leading zero. */
  lemma {:induction false} NatToStringParses(n: nat)
    ensures ParseNat(NatToString(n)) == n
    ensures NatToString(n)[0] == '0' ==> n == 0
    decreases n
  {
    var s := NatToString(n);
    if n < 10 {
      assert s[..0] == [];
    } else {
      NatToStringParses(n / 10);
      assert s[..|s| - 1] == NatToString(n / 10);
      assert s[0] == NatToString(n / 10)[0];
    }
  }

  /** Different integers are written differently. */
  lemma IntToStringInjective(a: int, b: int)
    requires IntToString(a) == IntToString(b)
    ensures a == b
  {
    IntToStringSign(a);
    IntToStringSign(b);
    if a < 0 && b < 0 {
      assert IntToString(a)[1..] == NatToString(-a);
      assert IntToString(b)[1..] == NatToString(-b);
      NatToStringParses(-a);
      NatToStringParses(-b);
    } else if a >= 0 && b >= 0 {
      NatToStringParses(a);
      NatToStringParses(b);
    }
  }

  /** Every character of the decimal text is a digit. */
  lemma {:induction false} NatToStringDigits(n: nat)
    ensures forall i :: 0 <= i < |NatToString(n)| ==> IsDigit(NatToString(n)[i])
    decreases n
  {
    if n >= 10 {
      NatToStringDigits(n / 10);
    }
  }

  /** The text starts with a minus sign exactly for negative numbers. */
  lemma IntToStringSign(i: int)
    ensures IntToString(i)[0] == '-' <==> i < 0
  {
    if i >= 0 {
      NatToStringDigits(i);
      assert IsDigit(NatToString(i)[0]);
    }
  }

  /** `tileModel ? tileModel.value : 'X'`. */
  function CellText(t: Option<int>): (s: string)
    ensures |s| >= 1
  {
    match t
    case None => "X"
    case Some(v) => IntToString(v)
  }

  /** Row y's cells left of x, each written as `text` writes it, in order. */
  function LineText(g: Grid, y: int, x: int, text: Option<int> -> string): string
    decreases x
  {
    if x <= 0 then "" else LineText(g, y, x - 1, text) + text(Get(g, x - 1, y))
  }

  /** The newline the inner loop writes together with the cell at x = width - 1. */
  function EndOfLine(g: Grid, x: int): string {
    if x == g.width && x > 0 then "\n" else ""
  }

  /** What the inner loop has written of row y after its first x iterations. */
  function LineWritten(g: Grid, y: int, x: int, text: Option<int> -> string): string {
    LineText(g, y, x, text) + EndOfLine(g, x)
  }

  /** The text of the k top rows: rows height - 1 down to height - k, each
      followed by a newline. */
  function RowsText(g: Grid, k: int, text: Option<int> -> string): string
    decreases k
  {
    if k <= 0 then "" else RowsText(g, k - 1, text) + LineWritten(g, g.height - k, g.width, text)
  }

  /** `toString`'s result: every row, top first, cells written by CellText. */
  function Render(g: Grid): string {
    RowsText(g, g.height, CellText)
  }

  /** One more iteration of the inner loop: the cell's text, and the newline after the last cell. */
  lemma LineTextNext(g: Grid, y: int, x: int)
    requires 0 <= x < g.width
    ensures LineWritten(g, y, x, CellText) + CellText(Get(g, x, y)) + (if x == g.width - 1 then "\n" else "")
      == LineWritten(g, y, x + 1, CellText)
  {
  }

  /** One more row of the outer loop: row height - 1 - k, the next one down. */
  lemma RowsTextNext(g: Grid, k: int, text: Option<int> -> string)
    requires 0 <= k
    ensures RowsText(g, k + 1, text) == RowsText(g, k, text) + LineWritten(g, g.height - 1 - k, g.width, text)
  {
  }

  /** The first character of a cell's text: all of it on a single-digit board. */
  function CellChar(t: Option<int>): char {
    CellText(t)[0]
  }

  /** Single-digit tile values, as on a board drawn from a palette of at most ten. */
  predicate SingleDigits(g: Grid) {
    forall i :: 0 <= i < |g.cells| && g.cells[i].Some? ==> 0 <= g.cells[i].value < 10
  }

  /** `text` writes every cell of row y as one character. */
  predicate SingleCharRow(g: Grid, y: int, text: Option<int> -> string) {
    forall x :: 0 <= x < g.width ==> |text(Get(g, x, y))| == 1
  }

  /** `text` writes every cell of the board as one character. */
  predicate SingleChars(g: Grid, text: Option<int> -> string) {
    forall y :: 0 <= y < g.height ==> SingleCharRow(g, y, text)
  }

  /** A row written one character per cell: character i is that of cell i. */
  lemma {:induction false} LineTextSingleChars(g: Grid, y: int, x: int, text: Option<int> -> string)
    requires SingleCharRow(g, y, text) && 0 <= x <= g.width
    ensures |LineText(g, y, x, text)| == x
    ensures forall i :: 0 <= i < x ==> LineText(g, y, x, text)[i] == text(Get(g, i, y))[0]
    decreases x
  {
    if x > 0 {
      LineTextSingleChars(g, y, x - 1, text);
    }
  }

  /** Such a row with its newline takes width + 1 characters: those of its
      cells, in order, and then the newline. */
  lemma LineWrittenSingleChars(g: Grid, y: int, text: Option<int> -> string)
    requires SingleCharRow(g, y, text) && g.width > 0
    ensures |LineWritten(g, y, g.width, text)| == g.width + 1
    ensures forall x :: 0 <= x < g.width ==> LineWritten(g, y, g.width, text)[x] == text(Get(g, x, y))[0]
    ensures LineWritten(g, y, g.width, text)[g.width] == '\n'
  {
    LineTextSingleChars(g, y, g.width, text);
  }

  /** Written one character per cell, the k top rows take k lines of width + 1 characters. */
  lemma {:induction false} RowsTextLength(g: Grid, k: int, text: Option<int> -> string)
    requires SingleChars(g, text) && g.width > 0 && 0 <= k <= g.height
    ensures |RowsText(g, k, text)| == k * (g.width + 1)
    decreases k
  {
    if k > 0 {
      RowsTextLength(g, k - 1, text);
      LineWrittenSingleChars(g, g.height - k, text);
      MulSucc(k - 1, g.width + 1);
    }
  }

  /** The text of the top m rows is the beginning of the text of the top k >= m rows. */
  lemma {:induction false} RowsTextPrefix(g: Grid, m: int, k: int, text: Option<int> -> string)
    requires 0 <= m <= k
    ensures RowsText(g, m, text) <= RowsText(g, k, text)
    decreases k
  {
    if m < k {
      RowsTextPrefix(g, m, k - 1, text);
    }
  }

  /** Written one character per cell, character x of line i (counting from
      the top) is character x of the text of row height - 1 - i. */
  lemma RowsTextAt(g: Grid, k: int, i: int, x: int, text: Option<int> -> string)
    requires SingleChars(g, text) && g.width > 0 && 0 <= i < k <= g.height
    requires 0 <= x <= g.width
    ensures Index(g.width + 1, x, i) < |RowsText(g, k, text)|
    ensures |LineWritten(g, g.height - 1 - i, g.width, text)| == g.width + 1
    ensures RowsText(g, k, text)[Index(g.width + 1, x, i)] == LineWritten(g, g.height - 1 - i, g.width, text)[x]
  {
    var prefix, line := RowsText(g, i, text), LineWritten(g, g.height - 1 - i, g.width, text);
    RowsTextNext(g, i, text);
    RowsTextPrefix(g, i + 1, k, text);
    RowsTextLength(g, i, text);
    LineWrittenSingleChars(g, g.height - 1 - i, text);
    var whole := RowsText(g, i + 1, text);
    assert whole == prefix + line;
    assert Index(g.width + 1, x, i) == |prefix| + x < |whole|;
    assert whole[|prefix| + x] == line[x];
  }

  /** On a single-digit board every cell's text is one character. */
  lemma SingleDigitChars(g: Grid)
    requires g.Valid() && SingleDigits(g)
    ensures SingleChars(g, CellText)
  {
    forall y, x | 0 <= y < g.height && 0 <= x < g.width
      ensures |CellText(Get(g, x, y))| == 1
    {
      GetIndex(g, x, y);
    }
  }

  /** The whole dump of a single-digit board: line i from the top holds row
      height - 1 - i, one character per cell, and ends with a newline. */
  lemma RenderSingleDigits(g: Grid, x: int, i: int)
    requires g.Valid() && SingleDigits(g) && g.width > 0
    requires 0 <= x <= g.width && 0 <= i < g.height
    ensures Index(g.width + 1, x, i) < |Render(g)|
    ensures Render(g)[Index(g.width + 1, x, i)] ==
      if x < g.width then CellChar(Get(g, x, g.height - 1 - i)) else '\n'
  {
    SingleDigitChars(g);
    RowsTextAt(g, g.height, i, x, CellText);
    LineWrittenSingleChars(g, g.height - 1 - i, CellText);
  }

  /** The dump of a single-digit board is height lines of width + 1 characters. */
  lemma RenderLength(g: Grid)
    requires g.Valid() && SingleDigits(g) && g.width > 0
    ensures |Render(g)| == g.height * (g.width + 1)
  {
    SingleDigitChars(g);
    RowsTextLength(g, g.height, CellText);
  }
}
