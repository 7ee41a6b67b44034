/**
 * The facts the table's methods need about the text in their buffer: the
 * scans of sheet.c (countRows, countColumns, getCellPtr, the cell-length
 * loop) read on the grid the text serializes, and the grid each splice of
 * an edit produces. Every lemma here starts from a text that parses, so a
 * method can hand over its old content and the offsets it found.
 */
module TableText {
  import opened SheetTypes
  import opened Text
  import opened Scan
  import opened GridView
  import opened Edits

  /** (row, col) names a cell of the grid. */
  predicate InGrid(g: Grid, row: int, col: int)
  {
    1 <= row <= |g| && 1 <= col <= |g[row - 1]|
  }

  /** getCellPtr finds (row, col): a row of the grid, or the first column of the row after the last. */
  predicate Addressable(g: Grid, row: int, col: int)
  {
    1 <= row <= |g| + 1 && (row <= |g| || col == 1)
  }

  /**
   * What readCell answers for (row, col): the column is checked against
   * countColumns first, then getCellPtr must find the cell.
   */
  function CellOutcome(g: Grid, row: int, col: int): State
  {
    if col < 1 || col > Width(g) then ErrOutOfRange
    else if !Addressable(g, row, col) then ErrGeneric
    else Success
  }

  /**
   * What writeCell answers for text t in (row, col) of a table whose text
   * is `size` bytes long: readCell's errors, then ErrTooLong when the
   * terminator would leave the buffer.
   */
  function WriteOutcome(g: Grid, size: int, row: int, col: int, t: seq<char>): State
  {
    if CellOutcome(g, row, col) != Success then CellOutcome(g, row, col)
    else if InGrid(g, row, col) && size + |t| - |g[row - 1][col - 1]| >= MAX_LINE_LENGTH then ErrTooLong
    else Success
  }

  /** The grid with cell (row, col) replaced by t. */
  function SetCell(g: Grid, row: int, col: int, t: seq<char>): Grid
    requires InGrid(g, row, col)
  {
    g[row - 1 := g[row - 1][col - 1 := t]]
  }

  /** Offset of the first byte of cell (k+1, c+1) in the text. */
  function CellStart(g: Grid, d: char, k: nat, c: nat): nat
    requires k < |g| && c < |g[k]|
  {
    RowStart(g, d, k) + CellPos(g[k], c)
  }

  /** Text the model reads as a grid: no '\0', empty or ending in '\n'. */
  predicate Wellformed(o: seq<char>, d: char)
  {
    GoodDelimiter(d) && '\0' !in o && Terminated(o)
  }

  /** countColumns on the text is the width of the first row. */
  lemma TextColumns(o: seq<char>, d: char)
    requires Wellformed(o, d)
    ensures Parse(o, d) != [] ==> '\n' in o && CountColumns(o, d) == Width(Parse(o, d))
  {
    TextIsGrid(o, d);
    if Parse(o, d) != [] {
      CountColumnsSerialize(Parse(o, d), d);
    }
  }

  /** getCellPtr succeeds exactly at the addressable coordinates. */
  lemma TextAddressing(o: seq<char>, d: char, row: int, col: int)
    requires Wellformed(o, d) && Rectangular(Parse(o, d)) && 1 <= col <= Width(Parse(o, d))
    ensures CellOffset(o, d, row, col).Some? <==> Addressable(Parse(o, d), row, col)
  {
    var g := Parse(o, d);
    TextIsGrid(o, d);
    if !Addressable(g, row, col) {
      CellOffsetOutside(g, d, row, col);
    } else if row <= |g| {
      CellOffsetInGrid(g, d, row, col);
    } else {
      CellOffsetPastLastRow(g, d);
    }
  }

  /** What getCellPtr and the cell-length loop find in the text. */
  lemma TextCell(o: seq<char>, d: char, g: Grid, row: int, col: int, p: nat, n: nat)
    requires Wellformed(o, d) && g == Parse(o, d) && Rectangular(g) && 1 <= col <= Width(g)
    requires CellOffset(o, d, row, col) == Some(p)
    requires p <= |o| && n == CellLength(o[p..], d)
    ensures Addressable(g, row, col)
    ensures row <= |g| ==> (InGrid(g, row, col) && p == CellStart(g, d, row - 1, col - 1) &&
      n == |g[row - 1][col - 1]| && p + n <= |o| && o[p..p + n] == g[row - 1][col - 1])
    ensures row == |g| + 1 ==> p == |o| && n == 0
  {
    TextIsGrid(o, d);
    GridCell(g, d, o, row, col, p, n);
  }

  lemma GridCell(g: Grid, d: char, o: seq<char>, row: int, col: int, p: nat, n: nat)
    requires GoodDelimiter(d) && Clean(g, d) && Rectangular(g) && 1 <= col <= Width(g)
    requires o == Serialize(g, d)
    requires CellOffset(o, d, row, col) == Some(p)
    requires p <= |o| && n == CellLength(o[p..], d)
    ensures Addressable(g, row, col)
    ensures row <= |g| ==> (InGrid(g, row, col) && p == CellStart(g, d, row - 1, col - 1) &&
      n == |g[row - 1][col - 1]| && p + n <= |o| && o[p..p + n] == g[row - 1][col - 1])
    ensures row == |g| + 1 ==> p == |o| && n == 0
  {
    if !Addressable(g, row, col) {
      CellOffsetOutside(g, d, row, col);
    } else if row <= |g| {
      assert |g[row - 1]| == |g[0]|;
      GridCellInRow(g, d, o, row - 1, col - 1, p, n);
    } else {
      CellOffsetPastLastRow(g, d);
      assert o[p..] == [];
    }
  }

  lemma GridCellInRow(g: Grid, d: char, o: seq<char>, k: nat, c: nat, p: nat, n: nat)
    requires GoodDelimiter(d) && Clean(g, d) && k < |g| && c < |g[k]|
    requires o == Serialize(g, d)
    requires CellOffset(o, d, k + 1, c + 1) == Some(p)
    requires p <= |o| && n == CellLength(o[p..], d)
    ensures p == CellStart(g, d, k, c) && n == |g[k][c]| && p + n <= |o| && o[p..p + n] == g[k][c]
  {
    var p', n' := CellInText(g, d, k, c, o);
  }

  /** writeCell's splice at a cell gives the grid with that cell replaced. */
  lemma TextWrite(o: seq<char>, d: char, g: Grid, row: int, col: int, t: seq<char>, p: nat, n: nat, s: seq<char>)
    requires Wellformed(o, d) && g == Parse(o, d) && 1 <= row <= |g| && 1 <= col <= |g[row - 1]|
    requires p == CellStart(g, d, row - 1, col - 1) && n == |g[row - 1][col - 1]| && p + n <= |o|
    requires s == Splice(o, p, p + n, t)
    ensures Terminated(s) && s == Serialize(g[row - 1 := g[row - 1][col - 1 := t]], d)
    ensures CleanCell(t, d) ==> (Parse(s, d) == g[row - 1 := g[row - 1][col - 1 := t]] &&
        (Rectangular(g) ==> Rectangular(g[row - 1 := g[row - 1][col - 1 := t]])))
  {
    TextIsGrid(o, d);
    GridWrite(g, d, o, row, col, t, p, n, s);
  }

  lemma GridWrite(g: Grid, d: char, o: seq<char>, row: int, col: int, t: seq<char>, p: nat, n: nat, s: seq<char>)
    requires GoodDelimiter(d) && Clean(g, d) && o == Serialize(g, d)
    requires 1 <= row <= |g| && 1 <= col <= |g[row - 1]|
    requires p == CellStart(g, d, row - 1, col - 1) && n == |g[row - 1][col - 1]| && p + n <= |o|
    requires s == Splice(o, p, p + n, t)
    ensures s == Serialize(g[row - 1 := g[row - 1][col - 1 := t]], d)
    ensures CleanCell(t, d) ==> (Parse(s, d) == g[row - 1 := g[row - 1][col - 1 := t]] &&
        (Rectangular(g) ==> Rectangular(g[row - 1 := g[row - 1][col - 1 := t]])))
  {
    var k, c := row - 1, col - 1;
    WriteInGrid(g, d, k, c, t, o, p, n);
    if CleanCell(t, d) {
      assert Clean(g[k := g[k][c := t]], d) by { CleanSetCell(g, d, k, c, t); }
      ParseSerialize(g[k := g[k][c := t]], d);
    }
  }

  /** writeCell with a text no longer than the old cell: shrink, then copy. */
  lemma ShrinkThenPut(o: seq<char>, c1: seq<char>, c2: seq<char>, p: nat, n: nat, t: seq<char>)
    requires p + n <= |o| && |t| <= n
    requires c1 == o[..p] + o[p + (n - |t|)..]
    requires p + |t| <= |c1| && c2 == c1[..p] + t + c1[p + |t|..]
    ensures c2 == Splice(o, p, p + n, t)
  {
    assert c1[..p] == o[..p];
    assert c1[p + |t|..] == o[p + n..];
  }

  /** writeCell with a longer text: open a gap, then copy over gap and old cell. */
  lemma GrowThenPut(o: seq<char>, c1: seq<char>, c2: seq<char>, p: nat, n: nat, t: seq<char>)
    requires p + n <= |o| && |t| > n
    requires |c1| == |o| + (|t| - n) && c1[..p] == o[..p]
    requires c1[p + (|t| - n)..] == o[p..]
    requires c2 == c1[..p] + t + c1[p + |t|..]
    ensures c2 == Splice(o, p, p + n, t)
  {
    assert c1[p + |t|..] == c1[p + (|t| - n)..][n..];
  }

  // ---------------------------------------------------------------------
  // Rows

  /** countRows counts the rows of the grid the text holds. */
  lemma TextRows(o: seq<char>, d: char)
    requires Wellformed(o, d)
    ensures CountRows(o) == |Parse(o, d)|
  {
    TextIsGrid(o, d);
    CountRowsSerialize(Parse(o, d), d);
  }

  /** getCellPtr(row, 1) is where row `row` starts; for the row after the last, the terminator. */
  lemma TextRowStart(o: seq<char>, d: char, row: int)
    requires Wellformed(o, d) && 1 <= row <= |Parse(o, d)| + 1
    ensures CellOffset(o, d, row, 1) == Some(RowStart(Parse(o, d), d, row - 1))
  {
    TextIsGrid(o, d);
    RowOffset(Parse(o, d), d, row - 1);
  }

  /** irow's blank line spliced in at the start of row `row` inserts a blank row there. */
  lemma TextInsertRow(o: seq<char>, d: char, row: int, p: nat, s: seq<char>)
    requires Wellformed(o, d) && Rectangular(Parse(o, d)) && Parse(o, d) != []
    requires 1 <= row <= |Parse(o, d)| + 1 && p == RowStart(Parse(o, d), d, row - 1)
    requires p <= |o| && s == Splice(o, p, p, BlankLine(Width(Parse(o, d)), d))
    ensures Wellformed(s, d) && Rectangular(Parse(s, d))
    ensures Parse(s, d) == InsertRow(Parse(o, d), row - 1, Blank(Width(Parse(o, d))))
  {
    TextIsGrid(o, d);
    GridInsertRow(Parse(o, d), d, o, row, p, s);
  }

  lemma GridInsertRow(g: Grid, d: char, o: seq<char>, row: int, p: nat, s: seq<char>)
    requires GoodDelimiter(d) && Clean(g, d) && Rectangular(g) && g != [] && o == Serialize(g, d) && '\0' !in o
    requires 1 <= row <= |g| + 1 && p == RowStart(g, d, row - 1)
    requires p <= |o| && s == Splice(o, p, p, BlankLine(Width(g), d))
    ensures '\0' !in s && Terminated(s) && Rectangular(Parse(s, d))
    ensures Parse(s, d) == InsertRow(g, row - 1, Blank(Width(g)))
  {
    var g' := InsertRow(g, row - 1, Blank(Width(g)));
    var p' := InsertRowText(g, d, row - 1, Width(g), o);
    CleanInsertRow(g, d, row - 1, Width(g));
    ParseSerialize(g', d);
    RectangularInsertRow(g, row - 1, Width(g));
    NoTerminatorSplice(o, p, p, BlankLine(Width(g), d));
  }

  /** A splice of terminator-free texts holds no terminator. */
  lemma NoTerminatorSplice(o: seq<char>, x: nat, y: nat, t: seq<char>)
    requires x <= y <= |o| && '\0' !in o && '\0' !in t
    ensures '\0' !in Splice(o, x, y, t)
  {
    assert o == o[..x] + o[x..y] + o[y..];
  }

  /** drow's loop runs from the start of row `row` through its '\n': the row's whole line. */
  lemma TextRowLine(o: seq<char>, d: char, g: Grid, row: int, p: nat)
    requires Wellformed(o, d) && g == Parse(o, d) && 1 <= row <= |g| && p == RowStart(g, d, row - 1)
    ensures p < |o| && '\n' in o[p..] && IndexOf(o[p..], '\n') + 1 == |Line(g[row - 1], d)|
  {
    TextIsGrid(o, d);
    GridRowLine(g, d, o, row, p);
  }

  lemma GridRowLine(g: Grid, d: char, o: seq<char>, row: int, p: nat)
    requires GoodDelimiter(d) && Clean(g, d) && o == Serialize(g, d) && 1 <= row <= |g| && p == RowStart(g, d, row - 1)
    ensures p < |o| && '\n' in o[p..] && IndexOf(o[p..], '\n') + 1 == |Line(g[row - 1], d)|
  {
    var k: nat := row - 1;
    var p', n := RowLineLength(g, d, k, o);
    FirstNewline(o[p..], n);
  }

  /** The first '\n' of t is at n - 1 when t[n - 1] is one and no earlier byte is. */
  lemma FirstNewline(t: seq<char>, n: nat)
    requires 1 <= n <= |t| && t[n - 1] == '\n' && forall i :: 0 <= i < n - 1 ==> t[i] != '\n'
    ensures '\n' in t && IndexOf(t, '\n') == n - 1
  {
    assert t[n - 1] in t;
  }

  /** drow's cut of a whole line removes that row. */
  lemma TextDeleteRow(o: seq<char>, d: char, row: int, p: nat, n: nat, s: seq<char>)
    requires Wellformed(o, d) && 1 <= row <= |Parse(o, d)|
    requires p == RowStart(Parse(o, d), d, row - 1) && n == |Line(Parse(o, d)[row - 1], d)|
    requires p + n <= |o| && s == o[..p] + o[p + n..]
    ensures Wellformed(s, d) && Parse(s, d) == DeleteRow(Parse(o, d), row - 1)
    ensures Rectangular(Parse(o, d)) ==> Rectangular(Parse(s, d))
  {
    TextIsGrid(o, d);
    GridDeleteRow(Parse(o, d), d, o, row, p, n, s);
  }

  lemma GridDeleteRow(g: Grid, d: char, o: seq<char>, row: int, p: nat, n: nat, s: seq<char>)
    requires GoodDelimiter(d) && Clean(g, d) && o == Serialize(g, d) && '\0' !in o
    requires 1 <= row <= |g| && p == RowStart(g, d, row - 1) && n == |Line(g[row - 1], d)|
    requires p + n <= |o| && s == o[..p] + o[p + n..]
    ensures '\0' !in s && Terminated(s) && Parse(s, d) == DeleteRow(g, row - 1)
    ensures Rectangular(g) ==> Rectangular(Parse(s, d))
  {
    var k: nat := row - 1;
    var g' := DeleteRow(g, k);
    assert s == Splice(o, p, p + n, []);
    assert s == Serialize(g', d) by {
      var p', n' := DeleteRowText(g, d, k, o);
    }
    assert '\0' !in s by {
      NoTerminatorSplice(o, p, p + n, []);
    }
    assert Parse(s, d) == g' by {
      CleanDeleteRow(g, d, k);
      ParseSerialize(g', d);
    }
    if Rectangular(g) {
      RectangularDeleteRow(g, k);
    }
  }

  // ---------------------------------------------------------------------
  // Columns

  /** A text cut out of a terminator-free text holds no terminator. */
  lemma NoTerminatorCut(s: seq<char>, x: nat, y: nat)
    requires x <= y <= |s| && '\0' !in s
    ensures '\0' !in s[..x] + s[y..]
  {
    NoTerminatorSplice(s, x, y, []);
    assert Splice(s, x, y, []) == s[..x] + s[y..];
  }

  /**
   * icol in row i, the rows before it done: getCellPtr(i, col) finds the
   * offset, and a delimiter spliced in there inserts the empty cell.
   */
  lemma IcolRow(g: Grid, d: char, col: int, i: int, s: seq<char>) returns (p: nat)
    requires GoodDelimiter(d) && Clean(g, d) && Rectangular(g) && 1 <= col <= Width(g) + 1 && 1 <= i <= |g|
    requires s == Serialize(InsertColumn(g, col - 1, i - 1), d) && '\0' !in s
    ensures CellOffset(s, d, i, col) == Some(p) && p <= |s|
    ensures Splice(s, p, p, [d]) == Serialize(InsertColumn(g, col - 1, i), d) && '\0' !in Splice(s, p, p, [d])
  {
    var c: nat, k: nat := col - 1, i - 1;
    var h := InsertColumn(g, c, k);
    assert h[k] == g[k] && |g[k]| == |g[0]|;
    CleanInsertColumn(g, d, c, k);
    p := RowStart(h, d, k) + CellPos(h[k], c);
    InsertInGrid(h, d, k, c, s, p);
    NoTerminatorSplice(s, p, p, [d]);
  }

  /** The text icol leaves after j rows reads as that grid. */
  lemma IcolText(g: Grid, d: char, col: int, j: int, s: seq<char>)
    requires GoodDelimiter(d) && Clean(g, d) && Rectangular(g) && 1 <= col <= Width(g) + 1 && 0 <= j <= |g|
    requires s == Serialize(InsertColumn(g, col - 1, j), d)
    ensures Terminated(s) && Parse(s, d) == InsertColumn(g, col - 1, j)
    ensures j == |g| && g != [] ==>
      Rectangular(Parse(s, d)) && Width(Parse(s, d)) == Width(g) + 1
  {
    CleanInsertColumn(g, d, col - 1, j);
    ParseSerialize(InsertColumn(g, col - 1, j), d);
    if j == |g| && g != [] {
      RectangularInsertColumn(g, col - 1);
    }
  }

  /**
   * dcol in row i, the rows before it done: getCellPtr(i, col) finds the
   * cell and the cell-length loop measures it; the grid at that point,
   * with its rows before i already cut.
   */
  lemma DcolRow(g: Grid, d: char, col: int, i: int, s: seq<char>) returns (h: Grid, p: nat, n: nat)
    requires GoodDelimiter(d) && Clean(g, d) && Rectangular(g) && 1 <= col <= Width(g) && Width(g) >= 2
    requires 1 <= i <= |g| && s == Serialize(DeleteColumn(g, col - 1, i - 1), d)
    ensures h == DeleteColumn(g, col - 1, i - 1) && Clean(h, d) && h[i - 1] == g[i - 1] && |h[i - 1]| == Width(g)
    ensures DeleteColumn(g, col - 1, i) == h[i - 1 := DeleteCell(h[i - 1], col - 1)]
    ensures p == RowStart(h, d, i - 1) + CellPos(h[i - 1], col - 1) && n == |h[i - 1][col - 1]|
    ensures CellOffset(s, d, i, col) == Some(p) && p <= |s| && CellLength(s[p..], d) == n
  {
    var c: nat, k: nat := col - 1, i - 1;
    h := DeleteColumn(g, c, k);
    assert h[k] == g[k] && |g[k]| == Width(g);
    CleanDeleteColumn(g, d, c, k);
    p, n := CellInText(h, d, k, c, s);
  }

  /** dcol in row i at a column before the last: the cell and the delimiter after it go. */
  lemma DcolInner(g: Grid, d: char, col: int, i: int, s: seq<char>, p: nat) returns (n: nat)
    requires GoodDelimiter(d) && Clean(g, d) && Rectangular(g) && 1 <= col < Width(g)
    requires 1 <= i <= |g| && s == Serialize(DeleteColumn(g, col - 1, i - 1), d)
    requires CellOffset(s, d, i, col) == Some(p)
    ensures p <= |s| && CellLength(s[p..], d) == n
    ensures p + n < |s| && s[p + n] == d
    ensures Splice(s, p, p + n + 1, []) == Serialize(DeleteColumn(g, col - 1, i), d)
  {
    var h, q;
    h, q, n := DcolRow(g, d, col, i, s);
    assert q == p;
    DelimiterAfterCell(h, d, i - 1, col - 1, s, p, n);
    DeleteInnerInGrid(h, d, i - 1, col - 1, s, p, n);
  }

  /** dcol in row i at its last column: the delimiter before the cell and the cell go. */
  lemma DcolLast(g: Grid, d: char, col: int, i: int, s: seq<char>, p: nat) returns (n: nat)
    requires GoodDelimiter(d) && Clean(g, d) && Rectangular(g) && col == Width(g) >= 2
    requires 1 <= i <= |g| && s == Serialize(DeleteColumn(g, col - 1, i - 1), d)
    requires CellOffset(s, d, i, col) == Some(p)
    ensures p <= |s| && CellLength(s[p..], d) == n
    ensures p >= 1 && p + n < |s| && s[p + n] == '\n'
    ensures Splice(s, p - 1, p + n, []) == Serialize(DeleteColumn(g, col - 1, i), d)
  {
    var h, q;
    h, q, n := DcolRow(g, d, col, i, s);
    assert q == p;
    NewlineAfterLastCell(h, d, i - 1, col - 1, s, p, n);
    DeleteLastInGrid(h, d, i - 1, col - 1, s, p, n);
  }

  /** getCellPtr finds cell (i, col) in the text of a grid whose rows before i lost that column. */
  lemma DcolFinds(g: Grid, d: char, col: int, i: int, s: seq<char>)
    requires GoodDelimiter(d) && Clean(g, d) && Rectangular(g) && 1 <= col <= Width(g) && Width(g) >= 2
    requires 1 <= i <= |g| && s == Serialize(DeleteColumn(g, col - 1, i - 1), d)
    ensures CellOffset(s, d, i, col).Some?
  {
    var h, p, n := DcolRow(g, d, col, i, s);
  }

  /**
   * dcol in row i, the rows before it done: cutting the bytes dcol cuts
   * there (the cell and the delimiter after it, or, when a '\n' follows the
   * cell, the delimiter before it and the cell) leaves the text t of the
   * grid with row i done too.
   */
  lemma DcolCut(g: Grid, d: char, col: int, i: int, s: seq<char>, p: nat) returns (n: nat, t: seq<char>)
    requires GoodDelimiter(d) && Clean(g, d) && Rectangular(g) && 1 <= col <= Width(g) && Width(g) >= 2
    requires 1 <= i <= |g| && s == Serialize(DeleteColumn(g, col - 1, i - 1), d)
    requires CellOffset(s, d, i, col) == Some(p)
    ensures t == Serialize(DeleteColumn(g, col - 1, i), d)
    ensures p + n < |s| && n == CellLength(s[p..], d)
    ensures s[p + n] == d ==> Splice(s, p, p + n + 1, []) == t
    ensures s[p + n] != d ==> p >= 1 && Splice(s, p - 1, p + n, []) == t
  {
    t := Serialize(DeleteColumn(g, col - 1, i), d);
    if col < Width(g) {
      n := DcolInner(g, d, col, i, s, p);
    } else {
      n := DcolLast(g, d, col, i, s, p);
    }
  }

  /** The text dcol leaves after j rows reads as that grid. */
  lemma DcolText(g: Grid, d: char, col: int, j: int, s: seq<char>)
    requires GoodDelimiter(d) && Clean(g, d) && Rectangular(g) && 1 <= col <= Width(g) && Width(g) >= 2
    requires 0 <= j <= |g| && s == Serialize(DeleteColumn(g, col - 1, j), d)
    ensures Terminated(s) && Parse(s, d) == DeleteColumn(g, col - 1, j)
    ensures j == |g| ==> Rectangular(Parse(s, d)) && Width(Parse(s, d)) == Width(g) - 1
  {
    CleanDeleteColumn(g, d, col - 1, j);
    ParseSerialize(DeleteColumn(g, col - 1, j), d);
    if j == |g| {
      RectangularDeleteColumn(g, col - 1);
    }
  }
}
