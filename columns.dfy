/**
 * What the data commands and the row selections of sheet.c do to the
 * table, read on the grid: which cells of which rows they rewrite, when a
 * write that does not fit is dropped, and how the selection flags of the
 * rows change. The methods of Sheet.Table are proved against these
 * functions; the lemmas here state what the functions promise.
 */
module Columns {
  import opened SheetTypes
  import opened GridView
  import opened Edits
  import opened TableText

  // ---------------------------------------------------------------------
  // Case conversion (upperLine, lowerLine)

  function UpperChar(c: char): char
  {
    if 'a' <= c <= 'z' then (c as int - 32) as char else c
  }

  function LowerChar(c: char): char
  {
    if 'A' <= c <= 'Z' then (c as int + 32) as char else c
  }

  /** upperLine on a text: no ASCII lower-case letter is left, nothing else changes. */
  function Upper(s: seq<char>): (r: seq<char>)
    ensures |r| == |s|
    ensures forall i :: 0 <= i < |s| ==> !('a' <= r[i] <= 'z')
    ensures forall i :: 0 <= i < |s| && r[i] != s[i] ==> 'a' <= s[i] <= 'z'
  {
    seq(|s|, i requires 0 <= i < |s| => UpperChar(s[i]))
  }

  /** lowerLine on a text: no ASCII upper-case letter is left, nothing else changes. */
  function Lower(s: seq<char>): (r: seq<char>)
    ensures |r| == |s|
    ensures forall i :: 0 <= i < |s| ==> !('A' <= r[i] <= 'Z')
    ensures forall i :: 0 <= i < |s| && r[i] != s[i] ==> 'A' <= s[i] <= 'Z'
  {
    seq(|s|, i requires 0 <= i < |s| => LowerChar(s[i]))
  }

  lemma UpperIdempotent(s: seq<char>)
    ensures Upper(Upper(s)) == Upper(s)
  {
  }

  lemma LowerIdempotent(s: seq<char>)
    ensures Lower(Lower(s)) == Lower(s)
  {
  }

  /** Raising a lowered text is raising the text, and the other way round. */
  lemma CaseAbsorbs(s: seq<char>)
    ensures Upper(Lower(s)) == Upper(s) && Lower(Upper(s)) == Lower(s)
  {
  }

  /**
   * The cell transforms modifyData is called with: upperLine, lowerLine,
   * and the rewriting of roundLine and intLine, which goes through the C
   * library's floating point and is a parameter here.
   */
  datatype LineOp = ToUpper | ToLower | Rewrite(f: seq<char> -> seq<char>)

  function Apply(op: LineOp, s: seq<char>): seq<char>
  {
    match op
    case ToUpper => Upper(s)
    case ToLower => Lower(s)
    case Rewrite(f) => f(s)
  }

  /** The case change cannot produce the delimiter. */
  predicate CaseSafe(op: LineOp, d: char)
  {
    match op
    case ToUpper => !('A' <= d <= 'Z')
    case ToLower => !('a' <= d <= 'z')
    case Rewrite(_) => true
  }

  /** A clean cell stays clean under a case change that cannot produce the delimiter. */
  lemma CleanCase(op: LineOp, s: seq<char>, d: char)
    requires !op.Rewrite? && CaseSafe(op, d) && CleanCell(s, d)
    ensures CleanCell(Apply(op, s), d) && |Apply(op, s)| == |s|
  {
    var r := Apply(op, s);
    forall i | 0 <= i < |s| ensures r[i] != d && r[i] != '\n' && r[i] != '\0' {
      assert s[i] in s;
    }
  }

  /**
   * The transform turns every cell readCell can deliver into a cell again:
   * no delimiter, line break or terminator, and short enough for the
   * buffer it is written back from.
   */
  ghost predicate SafeOp(op: LineOp, d: char)
  {
    forall s {:trigger Apply(op, s)} :: CleanCell(s, d) && |s| < MAX_CELL_LENGTH ==>
      CleanCell(Apply(op, s), d) && |Apply(op, s)| < MAX_CELL_LENGTH
  }

  /** The case changes are safe when they cannot produce the delimiter. */
  lemma CaseIsSafe(op: LineOp, d: char)
    requires !op.Rewrite? && CaseSafe(op, d)
    ensures SafeOp(op, d)
  {
    forall s | CleanCell(s, d) && |s| < MAX_CELL_LENGTH
      ensures CleanCell(Apply(op, s), d) && |Apply(op, s)| < MAX_CELL_LENGTH
    {
      CleanCase(op, s, d);
    }
  }

  // ---------------------------------------------------------------------
  // Columns of a grid

  /** Every row has a cell in column col (1-based). */
  predicate HasColumn(g: Grid, col: int)
  {
    1 <= col && forall i :: 0 <= i < |g| ==> col <= |g[i]|
  }

  /** A grid with the row lengths of a rectangular one is rectangular and as wide. */
  lemma SameShape(g: Grid, h: Grid)
    requires Rectangular(g) && |h| == |g| && forall i :: 0 <= i < |g| ==> |h[i]| == |g[i]|
    ensures Rectangular(h) && Width(h) == Width(g)
  {
  }

  /** Every selected row has at most n bytes in column col. */
  predicate ShortIn(g: Grid, sel: seq<bool>, col: int, n: int)
    requires |sel| == |g| && HasColumn(g, col)
  {
    forall i :: 0 <= i < |g| && sel[i] ==> |g[i][col - 1]| <= n
  }

  /** The text t written into column col of every row. */
  function Fill(n: nat, t: seq<char>): (v: seq<seq<char>>)
    ensures |v| == n && forall i :: 0 <= i < n ==> v[i] == t
  {
    seq(n, _ => t)
  }

  /** The cells of column col, top to bottom. */
  function Column(g: Grid, col: int): (v: seq<seq<char>>)
    requires HasColumn(g, col)
    ensures |v| == |g| && forall i :: 0 <= i < |g| ==> v[i] == g[i][col - 1]
  {
    seq(|g|, i requires 0 <= i < |g| => g[i][col - 1])
  }

  /**
   * setColumn and copyColumn after rows 1..k: each selected row among them
   * has v[row - 1] in column col, and nothing else differs.
   */
  function PutColumn(g: Grid, sel: seq<bool>, col: int, v: seq<seq<char>>, k: nat): (h: Grid)
    requires |sel| == |g| && |v| == |g| && k <= |g| && HasColumn(g, col)
    ensures |h| == |g|
    ensures forall i {:trigger h[i]} :: 0 <= i < |g| ==>
      h[i] == if i < k && sel[i] then g[i][col - 1 := v[i]] else g[i]
  {
    if k == 0 then g
    else
      var h := PutColumn(g, sel, col, v, k - 1);
      if sel[k - 1] then h[k - 1 := h[k - 1][col - 1 := v[k - 1]]] else h
  }

  /** Only column col of the selected rows changes, and the grid keeps its shape. */
  lemma PutColumnShape(g: Grid, sel: seq<bool>, col: int, v: seq<seq<char>>, k: nat)
    requires |sel| == |g| && |v| == |g| && k <= |g| && HasColumn(g, col)
    ensures Rectangular(g) ==> Rectangular(PutColumn(g, sel, col, v, k))
    ensures Width(PutColumn(g, sel, col, v, k)) == Width(g)
    ensures forall i, j :: 0 <= i < |g| && 0 <= j < |g[i]| && (j != col - 1 || !sel[i] || i >= k) ==>
      PutColumn(g, sel, col, v, k)[i][j] == g[i][j]
  {
  }

  /** Writing the same column twice from the same values is writing it once. */
  lemma PutColumnIdempotent(g: Grid, sel: seq<bool>, col: int, v: seq<seq<char>>)
    requires |sel| == |g| && |v| == |g| && HasColumn(g, col)
    ensures PutColumn(PutColumn(g, sel, col, v, |g|), sel, col, v, |g|) == PutColumn(g, sel, col, v, |g|)
  {
    var h := PutColumn(g, sel, col, v, |g|);
    assert HasColumn(h, col);
    forall i | 0 <= i < |g| ensures PutColumn(h, sel, col, v, |g|)[i] == h[i] {
      if sel[i] {
        assert h[i][col - 1 := v[i]] == h[i];
      }
    }
  }

  /** After copyColumn, column dest equals column src in every selected row. */
  lemma CopiedColumn(g: Grid, sel: seq<bool>, src: int, dest: int)
    requires |sel| == |g| && HasColumn(g, src) && HasColumn(g, dest)
    ensures forall i :: 0 <= i < |g| && sel[i] ==>
      PutColumn(g, sel, dest, Column(g, src), |g|)[i][dest - 1] == g[i][src - 1]
  {
  }

  /** Every selected row has a cell in column col short enough for readCell's buffer. */
  predicate ShortColumn(g: Grid, sel: seq<bool>, col: int)
    requires |sel| == |g|
  {
    forall i :: 0 <= i < |g| && sel[i] && 1 <= col <= |g[i]| ==> |g[i][col - 1]| < MAX_CELL_LENGTH
  }

  /** Column c lies between columns a and b, in either order. */
  predicate Between(c: int, a: int, b: int)
  {
    a <= c <= b || b <= c <= a
  }

  /**
   * Every cell of a selected row that lies between columns a and b is
   * short enough for readCell's buffer.
   */
  predicate ShortBetween(g: Grid, sel: seq<bool>, a: int, b: int)
    requires |sel| == |g|
  {
    forall i :: 0 <= i < |g| && sel[i] ==> ShortCells(g[i], a, b)
  }

  /** Every cell of row r between columns a and b is short enough for readCell's buffer. */
  predicate ShortCells(r: seq<seq<char>>, a: int, b: int)
  {
    forall j :: 0 <= j < |r| && Between(j + 1, a, b) ==> |r[j]| < MAX_CELL_LENGTH
  }

  /** What a column command answers when column col is checked at the first selected row. */
  function ColumnOutcome(g: Grid, sel: seq<bool>, col: int): State
  {
    if true in sel && !(1 <= col <= Width(g)) then ErrOutOfRange else Success
  }

  /**
   * The loop of setColumn and copyColumn from row i + 1 on: each selected
   * row gets v[row - 1] in column col, until a write does not fit in the
   * buffer; that write is refused and the loop stops with ErrTooLong,
   * keeping the rows written before it.
   */
  function WriteFrom(g: Grid, d: char, sel: seq<bool>, col: int, v: seq<seq<char>>, i: nat): (r: Moved)
    requires |sel| == |g| && |v| == |g| && i <= |g| && HasColumn(g, col)
    ensures |r.grid| == |g| && forall j :: 0 <= j < |g| ==> |r.grid[j]| == |g[j]|
    ensures r.st == Success || r.st == ErrTooLong
    ensures forall j :: 0 <= j < i ==> r.grid[j] == g[j]
    decreases |g| - i
  {
    if i == |g| then Moved(Success, g)
    else if !sel[i] then WriteFrom(g, d, sel, col, v, i + 1)
    else if |Serialize(g, d)| + |v[i]| - |g[i][col - 1]| >= MAX_LINE_LENGTH then Moved(ErrTooLong, g)
    else WriteFrom(SetCell(g, i + 1, col, v[i]), d, sel, col, v, i + 1)
  }

  /**
   * What the loop leaves is column col written in the selected rows up to
   * some row k: all of them when it answers Success, and otherwise those
   * before row k + 1, whose write is the one that did not fit.
   */
  lemma {:induction false} WriteFromWrites(g: Grid, d: char, sel: seq<bool>, col: int, v: seq<seq<char>>, i: nat)
    returns (k: nat)
    requires |sel| == |g| && |v| == |g| && i <= |g| && HasColumn(g, col)
    ensures i <= k <= |g|
    ensures WriteFrom(PutColumn(g, sel, col, v, i), d, sel, col, v, i).grid == PutColumn(g, sel, col, v, k)
    ensures WriteFrom(PutColumn(g, sel, col, v, i), d, sel, col, v, i).st == Success <==> k == |g|
    ensures k < |g| ==> sel[k]
    ensures k < |g| ==> |Serialize(PutColumn(g, sel, col, v, k), d)| + |v[k]| - |g[k][col - 1]| >= MAX_LINE_LENGTH
    decreases |g| - i
  {
    var h := PutColumn(g, sel, col, v, i);
    if i == |g| {
      k := i;
    } else if sel[i] && |Serialize(h, d)| + |v[i]| - |h[i][col - 1]| >= MAX_LINE_LENGTH {
      assert h[i] == g[i];
      k := i;
    } else {
      var n := i + 1;
      WriteFromStep(g, d, sel, col, v, i, n);
      k := WriteFromWrites(g, d, sel, col, v, n);
    }
  }

  /** A row that is not selected, or whose write fits, hands the loop on to the next row. */
  lemma WriteFromStep(g: Grid, d: char, sel: seq<bool>, col: int, v: seq<seq<char>>, i: nat, n: nat)
    requires |sel| == |g| && |v| == |g| && n == i + 1 <= |g| && HasColumn(g, col)
    requires sel[i] ==> |Serialize(PutColumn(g, sel, col, v, i), d)| + |v[i]| - |g[i][col - 1]| < MAX_LINE_LENGTH
    ensures WriteFrom(PutColumn(g, sel, col, v, i), d, sel, col, v, i) ==
      WriteFrom(PutColumn(g, sel, col, v, n), d, sel, col, v, n)
  {
    var h := PutColumn(g, sel, col, v, i);
    assert n - 1 == i && h[i] == g[i];
    if sel[i] {
      assert PutColumn(g, sel, col, v, n) == SetCell(h, n, col, v[i]);
    } else {
      assert PutColumn(g, sel, col, v, n) == h;
    }
  }

  /** Row i + 1 of setColumn and copyColumn: a selected row gets v[i] in column col, another stays. */
  lemma PutColumnStep(g: Grid, sel: seq<bool>, col: int, v: seq<seq<char>>, i: nat, n: nat)
    requires |sel| == |g| && |v| == |g| && n == i + 1 <= |g| && HasColumn(g, col)
    ensures !sel[i] ==> PutColumn(g, sel, col, v, n) == PutColumn(g, sel, col, v, i)
    ensures sel[i] ==> PutColumn(g, sel, col, v, n) == SetCell(PutColumn(g, sel, col, v, i), n, col, v[i])
  {
    assert n - 1 == i;
  }

  /** Writing texts no longer than the cells they replace never overflows the buffer. */
  lemma {:induction false} ShrinkingPut(g: Grid, d: char, sel: seq<bool>, col: int, v: seq<seq<char>>, k: nat)
    requires |sel| == |g| && |v| == |g| && k <= |g| && HasColumn(g, col)
    requires forall i :: 0 <= i < |g| && sel[i] ==> |v[i]| <= |g[i][col - 1]|
    ensures |Serialize(PutColumn(g, sel, col, v, k), d)| <= |Serialize(g, d)|
  {
    if k > 0 {
      ShrinkingPut(g, d, sel, col, v, k - 1);
      var h := PutColumn(g, sel, col, v, k - 1);
      if sel[k - 1] {
        SetCellSize(h, d, k, col, v[k - 1]);
      }
    }
  }

  /**
   * When no selected cell grows, setColumn and copyColumn write the whole
   * column: they answer Success and every selected row holds its new text.
   */
  lemma WriteShrinking(g: Grid, d: char, sel: seq<bool>, col: int, v: seq<seq<char>>)
    requires |sel| == |g| && |v| == |g| && HasColumn(g, col) && |Serialize(g, d)| < MAX_LINE_LENGTH
    requires forall i :: 0 <= i < |g| && sel[i] ==> |v[i]| <= |g[i][col - 1]|
    ensures WriteFrom(g, d, sel, col, v, 0) == Moved(Success, PutColumn(g, sel, col, v, |g|))
  {
    var k := WriteFromWrites(g, d, sel, col, v, 0);
    if k < |g| {
      ShrinkingPut(g, d, sel, col, v, k);
    }
  }

  /** setColumn and copyColumn: the column is checked first, then written row by row. */
  function WriteColumn(g: Grid, d: char, sel: seq<bool>, col: int, v: seq<seq<char>>): Moved
    requires Rectangular(g) && |sel| == |g| && |v| == |g|
  {
    if 1 <= col <= Width(g) then WriteFrom(g, d, sel, col, v, 0)
    else Moved(ColumnOutcome(g, sel, col), g)
  }

  /** copyColumn: the source column is read before the destination is written. */
  function CopyResult(g: Grid, d: char, sel: seq<bool>, src: int, dest: int): Moved
    requires Rectangular(g) && |sel| == |g|
  {
    if 1 <= src <= Width(g) then WriteColumn(g, d, sel, dest, Column(g, src))
    else Moved(ColumnOutcome(g, sel, src), g)
  }

  /** Setting a column to the text it already holds changes nothing and succeeds. */
  lemma SetColumnIdempotent(g: Grid, d: char, sel: seq<bool>, col: int, t: seq<char>)
    requires Rectangular(g) && |sel| == |g| && 1 <= col <= Width(g)
    requires |Serialize(PutColumn(g, sel, col, Fill(|g|, t), |g|), d)| < MAX_LINE_LENGTH
    ensures var h := PutColumn(g, sel, col, Fill(|g|, t), |g|);
      WriteColumn(h, d, sel, col, Fill(|g|, t)) == Moved(Success, h)
  {
    var v := Fill(|g|, t);
    var h := PutColumn(g, sel, col, v, |g|);
    WriteShrinking(h, d, sel, col, v);
    PutColumnIdempotent(g, sel, col, v);
  }

  /**
   * Where setColumn stands, with grid cur, once rows 1..done are behind it:
   * for a column in range, cur is v written into the selected rows among
   * them and what remains of the loop ends as the whole write does; for a
   * column out of range, nothing has changed and no row so far was selected.
   */
  predicate PutState(g: Grid, d: char, sel: seq<bool>, col: int, v: seq<seq<char>>, done: nat, cur: Grid)
    requires Rectangular(g) && |sel| == |g| && |v| == |g| && done <= |g|
  {
    if 1 <= col <= Width(g) then
      cur == PutColumn(g, sel, col, v, done) &&
      WriteFrom(PutColumn(g, sel, col, v, done), d, sel, col, v, done) == WriteFrom(g, d, sel, col, v, 0)
    else
      cur == g && forall i :: 0 <= i < done ==> !sel[i]
  }

  /** The rows written so far keep the grid's shape. */
  lemma PutStateShape(g: Grid, d: char, sel: seq<bool>, col: int, v: seq<seq<char>>, done: nat, cur: Grid)
    requires Rectangular(g) && |sel| == |g| && |v| == |g| && done <= |g|
    requires PutState(g, d, sel, col, v, done, cur)
    ensures Rectangular(cur) && |cur| == |g|
  {
    if 1 <= col <= Width(g) {
      PutColumnShape(g, sel, col, v, done);
    }
  }

  /** Nothing has happened before the first row. */
  lemma PutStart(g: Grid, d: char, sel: seq<bool>, col: int, v: seq<seq<char>>)
    requires Rectangular(g) && |sel| == |g| && |v| == |g|
    ensures PutState(g, d, sel, col, v, 0, g)
  {
  }

  /** An unselected row is passed over. */
  lemma PutSkip(g: Grid, d: char, sel: seq<bool>, col: int, v: seq<seq<char>>, done: nat, n: nat, cur: Grid)
    requires Rectangular(g) && |sel| == |g| && |v| == |g| && n == done + 1 <= |g| && !sel[done]
    requires PutState(g, d, sel, col, v, done, cur)
    ensures PutState(g, d, sel, col, v, n, cur)
  {
    if 1 <= col <= Width(g) {
      PutColumnStep(g, sel, col, v, done, n);
      WriteFromStep(g, d, sel, col, v, done, n);
    }
  }

  /**
   * A selected row: writeCell answers as it does for h, the grid so far,
   * and leaves either h or h with the cell written. Success keeps the loop
   * going; any other answer is what the whole write answers.
   */
  lemma PutWrite(g: Grid, d: char, sel: seq<bool>, col: int, v: seq<seq<char>>, done: nat, n: nat,
    h: Grid, st: State, cur: Grid)
    requires Rectangular(g) && |sel| == |g| && |v| == |g| && n == done + 1 <= |g| && sel[done]
    requires PutState(g, d, sel, col, v, done, h)
    requires st == WriteOutcome(h, |Serialize(h, d)|, n, col, v[done])
    requires st != Success ==> cur == h
    requires st == Success && InGrid(h, n, col) ==> cur == SetCell(h, n, col, v[done])
    ensures st == Success ==> PutState(g, d, sel, col, v, n, cur)
    ensures st != Success ==> Moved(st, cur) == WriteColumn(g, d, sel, col, v)
  {
    if 1 <= col <= Width(g) {
      PutColumnShape(g, sel, col, v, done);
      PutColumnStep(g, sel, col, v, done, n);
      assert h[done] == g[done] && |h[done]| == Width(g);
      if st == Success {
        WriteFromStep(g, d, sel, col, v, done, n);
      } else {
        assert WriteFrom(h, d, sel, col, v, done) == Moved(ErrTooLong, h);
      }
    } else {
      assert st == ErrOutOfRange;
    }
  }

  /** After the last row the loop has done what the whole write does. */
  lemma PutDone(g: Grid, d: char, sel: seq<bool>, col: int, v: seq<seq<char>>, cur: Grid)
    requires Rectangular(g) && |sel| == |g| && |v| == |g|
    requires PutState(g, d, sel, col, v, |g|, cur)
    ensures Moved(Success, cur) == WriteColumn(g, d, sel, col, v)
  {
    if !(1 <= col <= Width(g)) {
      assert true !in sel;
    }
  }

  /** Where copyColumn stands, with grid cur, once rows 1..done are behind it. */
  predicate CopyState(g: Grid, d: char, sel: seq<bool>, src: int, dest: int, done: nat, cur: Grid)
    requires Rectangular(g) && |sel| == |g| && done <= |g|
  {
    if 1 <= src <= Width(g) then PutState(g, d, sel, dest, Column(g, src), done, cur)
    else cur == g && forall i :: 0 <= i < done ==> !sel[i]
  }

  /** copyColumn passes over an unselected row. */
  lemma CopySkip(g: Grid, d: char, sel: seq<bool>, src: int, dest: int, done: nat, n: nat, cur: Grid)
    requires Rectangular(g) && |sel| == |g| && n == done + 1 <= |g| && !sel[done]
    requires CopyState(g, d, sel, src, dest, done, cur)
    ensures CopyState(g, d, sel, src, dest, n, cur)
  {
    if 1 <= src <= Width(g) {
      PutSkip(g, d, sel, dest, Column(g, src), done, n, cur);
    }
  }

  /**
   * A selected row of copyColumn: the source cell is in range exactly when
   * the source column is, it still holds what it held at the start, and an
   * out-of-range source is the answer of the whole command.
   */
  lemma CopyRead(g: Grid, d: char, sel: seq<bool>, src: int, dest: int, done: nat, cur: Grid)
    requires Rectangular(g) && |sel| == |g| && done < |g| && sel[done]
    requires CopyState(g, d, sel, src, dest, done, cur)
    ensures Rectangular(cur) && |cur| == |g| && Width(cur) == Width(g)
    ensures 1 <= src <= Width(g) ==> cur[done][src - 1] == g[done][src - 1]
    ensures !(1 <= src <= Width(g)) ==> cur == g && Moved(ErrOutOfRange, cur) == CopyResult(g, d, sel, src, dest)
  {
    if 1 <= src <= Width(g) {
      if 1 <= dest <= Width(g) {
        PutColumnShape(g, sel, dest, Column(g, src), done);
        assert cur[done] == g[done];
      }
    }
  }

  /** After the last row copyColumn has done what CopyResult says. */
  lemma CopyDone(g: Grid, d: char, sel: seq<bool>, src: int, dest: int, cur: Grid)
    requires Rectangular(g) && |sel| == |g|
    requires CopyState(g, d, sel, src, dest, |g|, cur)
    ensures Moved(Success, cur) == CopyResult(g, d, sel, src, dest)
  {
    if 1 <= src <= Width(g) {
      PutDone(g, d, sel, dest, Column(g, src), cur);
    } else {
      assert true !in sel;
    }
  }

  // ---------------------------------------------------------------------
  // Writes whose answer is ignored (modifyData, swapColumn)

  /**
   * The grid after writeCell(row, col, t) when its answer is ignored: the
   * cell is replaced when the text still fits in the buffer, and the grid
   * is left as it was otherwise.
   */
  function TryWrite(g: Grid, d: char, row: int, col: int, t: seq<char>): (h: Grid)
    requires InGrid(g, row, col)
    ensures |h| == |g| && forall i :: 0 <= i < |g| ==> |h[i]| == |g[i]|
  {
    if |Serialize(g, d)| + |t| - |g[row - 1][col - 1]| < MAX_LINE_LENGTH then SetCell(g, row, col, t) else g
  }

  /** A write replaces at most the one cell, and by the text written. */
  lemma TryWriteCells(g: Grid, d: char, row: int, col: int, t: seq<char>)
    requires InGrid(g, row, col)
    ensures forall i, j :: 0 <= i < |g| && 0 <= j < |g[i]| ==>
      TryWrite(g, d, row, col, t)[i][j] == g[i][j] || (i == row - 1 && j == col - 1 && TryWrite(g, d, row, col, t)[i][j] == t)
  {
  }

  /** Replacing one cell changes the length of the text by the difference in length of the cell. */
  lemma SetCellSize(g: Grid, d: char, row: int, col: int, t: seq<char>)
    requires InGrid(g, row, col)
    ensures |Serialize(SetCell(g, row, col, t), d)| == |Serialize(g, d)| + |t| - |g[row - 1][col - 1]|
  {
    var k, c := row - 1, col - 1;
    WriteInGrid(g, d, k, c, t, Serialize(g, d), RowStart(g, d, k) + CellPos(g[k], c), |g[k][c]|);
  }

  /**
   * modifyData after rows 1..k: each selected row among them had its cell in
   * column col replaced by op of it, when that fitted.
   */
  function ModifyRows(g: Grid, d: char, sel: seq<bool>, col: int, op: LineOp, k: nat): (h: Grid)
    requires |sel| == |g| && k <= |g| && HasColumn(g, col)
    ensures |h| == |g| && forall i :: 0 <= i < |g| ==> |h[i]| == |g[i]|
    ensures forall i :: k <= i < |g| ==> h[i] == g[i]
    ensures forall i, j :: 0 <= i < |g| && 0 <= j < |g[i]| && (j != col - 1 || !sel[i]) ==> h[i][j] == g[i][j]
    ensures forall i :: 0 <= i < k && sel[i] ==>
      h[i][col - 1] == g[i][col - 1] || h[i][col - 1] == Apply(op, g[i][col - 1])
  {
    if k == 0 then g
    else
      var h := ModifyRows(g, d, sel, col, op, k - 1);
      if sel[k - 1] then TryWrite(h, d, k, col, Apply(op, h[k - 1][col - 1])) else h
  }

  /** The grid modifyData leaves after rows 1..k: unchanged when the column is out of range. */
  function ModifyAfter(g: Grid, d: char, sel: seq<bool>, col: int, op: LineOp, k: nat): (h: Grid)
    requires Rectangular(g) && |sel| == |g| && k <= |g|
    ensures |h| == |g| && forall i :: 0 <= i < |g| ==> |h[i]| == |g[i]|
    ensures forall i :: k <= i < |g| ==> h[i] == g[i]
  {
    if 1 <= col <= Width(g) then ModifyRows(g, d, sel, col, op, k) else g
  }

  /** One more row of modifyData: a row that is not selected is skipped. */
  lemma ModifyAfterStep(g: Grid, d: char, sel: seq<bool>, col: int, op: LineOp, done: nat, next: nat)
    requires Rectangular(g) && |sel| == |g| && next == done + 1 <= |g|
    ensures !sel[done] ==> ModifyAfter(g, d, sel, col, op, next) == ModifyAfter(g, d, sel, col, op, done)
    ensures sel[done] && 1 <= col <= Width(g) ==>
      ModifyAfter(g, d, sel, col, op, next) ==
      TryWrite(ModifyAfter(g, d, sel, col, op, done), d, next, col,
        Apply(op, ModifyAfter(g, d, sel, col, op, done)[done][col - 1]))
  {
    assert next - 1 == done;
  }

  /**
   * A transform that keeps every cell's length always fits: modifyData then
   * replaces the cell of every selected row, and the text keeps its length.
   */
  lemma {:induction false} ModifyKeepsLength(g: Grid, d: char, sel: seq<bool>, col: int, op: LineOp, k: nat)
    requires |sel| == |g| && k <= |g| && HasColumn(g, col) && |Serialize(g, d)| < MAX_LINE_LENGTH
    requires forall i :: 0 <= i < |g| ==> |Apply(op, g[i][col - 1])| == |g[i][col - 1]|
    ensures ModifyRows(g, d, sel, col, op, k) == PutColumn(g, sel, col, ModifiedColumn(g, col, op), k)
    ensures |Serialize(ModifyRows(g, d, sel, col, op, k), d)| == |Serialize(g, d)|
  {
    if k > 0 {
      ModifyKeepsLength(g, d, sel, col, op, k - 1);
      assert |Apply(op, g[k - 1][col - 1])| == |g[k - 1][col - 1]|;
      ModifyKeepsStep(g, d, sel, col, op, k - 1, k);
    }
  }

  /** One row of ModifyKeepsLength. */
  lemma ModifyKeepsStep(g: Grid, d: char, sel: seq<bool>, col: int, op: LineOp, j: nat, k: nat)
    requires |sel| == |g| && k == j + 1 <= |g| && HasColumn(g, col) && |Serialize(g, d)| < MAX_LINE_LENGTH
    requires |Apply(op, g[j][col - 1])| == |g[j][col - 1]|
    requires ModifyRows(g, d, sel, col, op, j) == PutColumn(g, sel, col, ModifiedColumn(g, col, op), j)
    requires |Serialize(ModifyRows(g, d, sel, col, op, j), d)| == |Serialize(g, d)|
    ensures ModifyRows(g, d, sel, col, op, k) == PutColumn(g, sel, col, ModifiedColumn(g, col, op), k)
    ensures |Serialize(ModifyRows(g, d, sel, col, op, k), d)| == |Serialize(g, d)|
  {
    var h := ModifyRows(g, d, sel, col, op, j);
    var v := ModifiedColumn(g, col, op);
    PutColumnStep(g, sel, col, v, j, k);
    ModifyRowsUnfold(g, d, sel, col, op, j, k);
    if sel[j] {
      var t := Apply(op, g[j][col - 1]);
      assert t == v[j];
      FitsInPlace(h, d, k, col, t);
    }
  }

  /** Row j + 1 of modifyData: a selected row tries the write of op of its cell, another stays. */
  lemma ModifyRowsUnfold(g: Grid, d: char, sel: seq<bool>, col: int, op: LineOp, j: nat, k: nat)
    requires |sel| == |g| && k == j + 1 <= |g| && HasColumn(g, col)
    ensures ModifyRows(g, d, sel, col, op, j)[j] == g[j]
    ensures ModifyRows(g, d, sel, col, op, k) ==
      if sel[j] then TryWrite(ModifyRows(g, d, sel, col, op, j), d, k, col, Apply(op, g[j][col - 1]))
      else ModifyRows(g, d, sel, col, op, j)
  {
    assert k - 1 == j;
  }

  /** A write that keeps the cell's length fits whenever the text did, and keeps the text's length. */
  lemma FitsInPlace(h: Grid, d: char, row: int, col: int, t: seq<char>)
    requires InGrid(h, row, col) && |t| == |h[row - 1][col - 1]| && |Serialize(h, d)| < MAX_LINE_LENGTH
    ensures TryWrite(h, d, row, col, t) == SetCell(h, row, col, t)
    ensures |Serialize(SetCell(h, row, col, t), d)| == |Serialize(h, d)|
  {
    SetCellSize(h, d, row, col, t);
  }

  /** op applied to every cell of column col. */
  function ModifiedColumn(g: Grid, col: int, op: LineOp): (v: seq<seq<char>>)
    requires HasColumn(g, col)
    ensures |v| == |g| && forall i :: 0 <= i < |g| ==> v[i] == Apply(op, g[i][col - 1])
  {
    seq(|g|, i requires 0 <= i < |g| => Apply(op, g[i][col - 1]))
  }

  /**
   * swapColumn in one row: col1 gets col2's text, then col2 gets col1's
   * old text, each write dropped when it does not fit.
   */
  function SwapRow(h: Grid, d: char, row: int, c1: int, c2: int): (h': Grid)
    requires 1 <= row <= |h| && 1 <= c1 <= |h[row - 1]| && 1 <= c2 <= |h[row - 1]|
    ensures |h'| == |h| && forall i :: 0 <= i < |h| ==> |h'[i]| == |h[i]|
  {
    var x1, x2 := h[row - 1][c1 - 1], h[row - 1][c2 - 1];
    var h1 := TryWrite(h, d, row, c1, x2);
    TryWrite(h1, d, row, c2, x1)
  }

  /** When col2's text fits in col1, swapColumn exchanges the two cells of the row. */
  lemma SwapRowFits(h: Grid, d: char, j: nat, row: int, c1: int, c2: int, r: seq<seq<char>>)
    requires row == j + 1 <= |h| && r == h[j] && 1 <= c1 <= |r| && 1 <= c2 <= |r|
    requires |Serialize(h, d)| < MAX_LINE_LENGTH
    requires |Serialize(h, d)| + |r[c2 - 1]| - |r[c1 - 1]| < MAX_LINE_LENGTH
    ensures SwapRow(h, d, row, c1, c2) == h[j := Swapped(r, c1, c2)]
    ensures |Serialize(SwapRow(h, d, row, c1, c2), d)| == |Serialize(h, d)|
  {
    var x1, x2 := h[row - 1][c1 - 1], h[row - 1][c2 - 1];
    SetCellSize(h, d, row, c1, x2);
    var h1 := SetCell(h, row, c1, x2);
    assert h1[row - 1][c2 - 1] == x2;
    SetCellSize(h1, d, row, c2, x1);
  }

  /** swapColumn after rows 1..k. */
  function SwapRows(g: Grid, d: char, sel: seq<bool>, c1: int, c2: int, k: nat): (h: Grid)
    requires |sel| == |g| && k <= |g| && HasColumn(g, c1) && HasColumn(g, c2)
    ensures |h| == |g| && forall i :: 0 <= i < |g| ==> |h[i]| == |g[i]|
    ensures forall i :: 0 <= i < |g| && (i >= k || !sel[i]) ==> h[i] == g[i]
  {
    if k == 0 then g
    else
      var h := SwapRows(g, d, sel, c1, c2, k - 1);
      if sel[k - 1] then SwapRow(h, d, k, c1, c2) else h
  }

  /**
   * swapColumn only moves texts between its two columns: when both lie
   * between a and b, every cell there that was short stays short.
   */
  lemma {:induction false} SwapRowsShort(g: Grid, d: char, sel: seq<bool>, c1: int, c2: int, k: nat, a: int, b: int)
    requires |sel| == |g| && k <= |g| && HasColumn(g, c1) && HasColumn(g, c2)
    requires Between(c1, a, b) && Between(c2, a, b) && ShortBetween(g, sel, a, b)
    ensures ShortBetween(SwapRows(g, d, sel, c1, c2, k), sel, a, b)
  {
    if k > 0 {
      SwapRowsShort(g, d, sel, c1, c2, k - 1, a, b);
      SwapRowsShortStep(g, d, sel, c1, c2, k - 1, k, a, b);
    }
  }

  /** One row of SwapRowsShort. */
  lemma SwapRowsShortStep(g: Grid, d: char, sel: seq<bool>, c1: int, c2: int, j: nat, k: nat, a: int, b: int)
    requires |sel| == |g| && k == j + 1 <= |g| && HasColumn(g, c1) && HasColumn(g, c2)
    requires Between(c1, a, b) && Between(c2, a, b)
    requires ShortBetween(SwapRows(g, d, sel, c1, c2, j), sel, a, b)
    ensures ShortBetween(SwapRows(g, d, sel, c1, c2, k), sel, a, b)
  {
    var h := SwapRows(g, d, sel, c1, c2, j);
    if sel[j] {
      SwapRowsUnfold(g, d, sel, c1, c2, j, k, h);
      SwapRowShort(h, d, sel, j, k, c1, c2, a, b);
    } else {
      assert SwapRows(g, d, sel, c1, c2, k) == h;
    }
  }

  /** One row of SwapRowsShort. */
  lemma SwapRowShort(h: Grid, d: char, sel: seq<bool>, j: nat, row: int, c1: int, c2: int, a: int, b: int)
    requires |sel| == |h| && row == j + 1 <= |h| && 1 <= c1 <= |h[j]| && 1 <= c2 <= |h[j]|
    requires Between(c1, a, b) && Between(c2, a, b) && ShortBetween(h, sel, a, b)
    ensures ShortBetween(SwapRow(h, d, row, c1, c2), sel, a, b)
  {
    var x1, x2 := h[j][c1 - 1], h[j][c2 - 1];
    TryWriteCells(h, d, row, c1, x2);
    var h1 := TryWrite(h, d, row, c1, x2);
    TryWriteCells(h1, d, row, c2, x1);
  }

  /** The grid swapColumn leaves keeps short the cells between a and b when both its columns lie there. */
  lemma SwapGridShort(g: Grid, d: char, sel: seq<bool>, c1: int, c2: int, a: int, b: int)
    requires Rectangular(g) && |sel| == |g| && Between(c1, a, b) && Between(c2, a, b) && ShortBetween(g, sel, a, b)
    ensures ShortBetween(SwapGrid(g, d, sel, c1, c2), sel, a, b)
  {
    if 1 <= c1 <= Width(g) && 1 <= c2 <= Width(g) {
      SwapRowsShort(g, d, sel, c1, c2, |g|, a, b);
    }
  }

  /** Swapping a column with itself changes nothing. */
  lemma {:induction false} SwapSelf(g: Grid, d: char, sel: seq<bool>, c: int, k: nat)
    requires |sel| == |g| && k <= |g| && HasColumn(g, c)
    ensures SwapRows(g, d, sel, c, c, k) == g
  {
    if k > 0 {
      var j := k - 1;
      SwapSelf(g, d, sel, c, j);
      if sel[j] {
        SwapRowsUnfold(g, d, sel, c, c, j, k, g);
        SwapRowSelf(g, d, j, k, c);
      } else {
        SwapRowsSkip(g, d, sel, c, c, j, k);
      }
    }
  }

  lemma SwapRowsSkip(g: Grid, d: char, sel: seq<bool>, c1: int, c2: int, j: nat, k: nat)
    requires |sel| == |g| && k == j + 1 <= |g| && HasColumn(g, c1) && HasColumn(g, c2) && !sel[j]
    ensures SwapRows(g, d, sel, c1, c2, k) == SwapRows(g, d, sel, c1, c2, j)
  {
    assert k - 1 == j;
  }

  /** Swapping a cell with itself writes back the text it already holds. */
  lemma SwapRowSelf(h: Grid, d: char, j: nat, row: int, c: int)
    requires row == j + 1 <= |h| && 1 <= c <= |h[j]|
    ensures SwapRow(h, d, row, c, c) == h
  {
    assert h[j][c - 1 := h[j][c - 1]] == h[j];
    assert SetCell(h, row, c, h[j][c - 1]) == h;
  }

  /** The row with its cells a and b exchanged. */
  function Swapped(r: seq<seq<char>>, a: int, b: int): (x: seq<seq<char>>)
    requires 1 <= a <= |r| && 1 <= b <= |r|
    ensures |x| == |r| && x[a - 1] == r[b - 1] && x[b - 1] == r[a - 1]
    ensures forall j :: 0 <= j < |r| && j != a - 1 && j != b - 1 ==> x[j] == r[j]
  {
    r[a - 1 := r[b - 1]][b - 1 := r[a - 1]]
  }

  /** Both cells of column c1 and c2 exchanged in the selected rows before k. */
  function Exchange(g: Grid, sel: seq<bool>, c1: int, c2: int, k: nat): (h: Grid)
    requires |sel| == |g| && k <= |g| && HasColumn(g, c1) && HasColumn(g, c2)
    ensures |h| == |g|
    ensures forall i {:trigger h[i]} :: 0 <= i < |g| ==>
      h[i] == if i < k && sel[i] then Swapped(g[i], c1, c2) else g[i]
  {
    if k == 0 then g
    else
      var h := Exchange(g, sel, c1, c2, k - 1);
      if sel[k - 1] then h[k - 1 := Swapped(g[k - 1], c1, c2)] else h
  }

  /** There is room for col2's text in col1 in every selected row. */
  predicate Roomy(g: Grid, d: char, sel: seq<bool>, c1: int, c2: int)
    requires |sel| == |g| && HasColumn(g, c1) && HasColumn(g, c2)
  {
    forall i :: 0 <= i < |g| ==> RoomyRow(g, d, sel, c1, c2, i)
  }

  /** There is room for col2's text in col1 in row i + 1 if it is selected. */
  predicate RoomyRow(g: Grid, d: char, sel: seq<bool>, c1: int, c2: int, i: int)
    requires |sel| == |g| && HasColumn(g, c1) && HasColumn(g, c2) && 0 <= i < |g|
  {
    sel[i] ==> |Serialize(g, d)| + |g[i][c2 - 1]| - |g[i][c1 - 1]| < MAX_LINE_LENGTH
  }

  /**
   * When col2's text fits in col1 in every selected row, swapColumn really
   * exchanges the two cells of each selected row, and the text keeps its
   * length.
   */
  lemma {:induction false} SwapExchanges(g: Grid, d: char, sel: seq<bool>, c1: int, c2: int, k: nat)
    requires |sel| == |g| && k <= |g| && HasColumn(g, c1) && HasColumn(g, c2)
    requires |Serialize(g, d)| < MAX_LINE_LENGTH && Roomy(g, d, sel, c1, c2)
    ensures SwapRows(g, d, sel, c1, c2, k) == Exchange(g, sel, c1, c2, k)
    ensures |Serialize(SwapRows(g, d, sel, c1, c2, k), d)| == |Serialize(g, d)|
  {
    if k > 0 {
      var j := k - 1;
      SwapExchanges(g, d, sel, c1, c2, j);
      assert RoomyRow(g, d, sel, c1, c2, j);
      SwapStep(g, d, sel, c1, c2, j, k);
    } else {
      assert SwapRows(g, d, sel, c1, c2, k) == g == Exchange(g, sel, c1, c2, k);
    }
  }

  /** One row of SwapExchanges: the k-th row is exchanged and the text keeps its length. */
  lemma SwapStep(g: Grid, d: char, sel: seq<bool>, c1: int, c2: int, j: nat, k: nat)
    requires |sel| == |g| && k == j + 1 <= |g| && HasColumn(g, c1) && HasColumn(g, c2)
    requires |Serialize(g, d)| < MAX_LINE_LENGTH
    requires RoomyRow(g, d, sel, c1, c2, j)
    requires SwapRows(g, d, sel, c1, c2, j) == Exchange(g, sel, c1, c2, j)
    requires |Serialize(SwapRows(g, d, sel, c1, c2, j), d)| == |Serialize(g, d)|
    ensures SwapRows(g, d, sel, c1, c2, k) == Exchange(g, sel, c1, c2, k)
    ensures |Serialize(SwapRows(g, d, sel, c1, c2, k), d)| == |Serialize(g, d)|
  {
    var h := SwapRows(g, d, sel, c1, c2, j);
    assert k - 1 == j;
    if sel[j] {
      assert h[j] == g[j];
      SwapRowFits(h, d, j, k, c1, c2, g[j]);
      SwapRowsUnfold(g, d, sel, c1, c2, j, k, h);
      ExchangeUnfold(g, sel, c1, c2, j, k);
    } else {
      assert SwapRows(g, d, sel, c1, c2, k) == h;
      assert Exchange(g, sel, c1, c2, k) == Exchange(g, sel, c1, c2, j);
    }
  }

  /** The definitions of SwapRows and Exchange at a selected row. */
  lemma SwapRowsUnfold(g: Grid, d: char, sel: seq<bool>, c1: int, c2: int, j: nat, k: nat, h: Grid)
    requires |sel| == |g| && k == j + 1 <= |g| && HasColumn(g, c1) && HasColumn(g, c2) && sel[j]
    requires h == SwapRows(g, d, sel, c1, c2, j)
    ensures SwapRows(g, d, sel, c1, c2, k) == SwapRow(h, d, k, c1, c2)
  {
    assert k - 1 == j;
  }

  lemma ExchangeUnfold(g: Grid, sel: seq<bool>, c1: int, c2: int, j: nat, k: nat)
    requires |sel| == |g| && k == j + 1 <= |g| && HasColumn(g, c1) && HasColumn(g, c2) && sel[j]
    ensures Exchange(g, sel, c1, c2, k) == Exchange(g, sel, c1, c2, j)[j := Swapped(g[j], c1, c2)]
  {
    assert k - 1 == j;
  }

  /**
   * The answer of swapColumn is not checked: when col2's text does not fit
   * in col1, the first write is dropped and the second still goes through,
   * so the row ends with col1's text in both columns.
   */
  lemma SwapOverflowDuplicates(h: Grid, d: char, row: int, c1: int, c2: int)
    requires 1 <= row <= |h| && 1 <= c1 <= |h[row - 1]| && 1 <= c2 <= |h[row - 1]|
    requires |Serialize(h, d)| < MAX_LINE_LENGTH
    requires |Serialize(h, d)| + |h[row - 1][c2 - 1]| - |h[row - 1][c1 - 1]| >= MAX_LINE_LENGTH
    ensures SwapRow(h, d, row, c1, c2)[row - 1][c1 - 1] == h[row - 1][c1 - 1]
    ensures SwapRow(h, d, row, c1, c2)[row - 1][c2 - 1] == h[row - 1][c1 - 1]
  {
  }

  // ---------------------------------------------------------------------
  // moveColumn

  /** What swapColumn answers: a column out of range fails at the first selected row. */
  function SwapOutcome(g: Grid, sel: seq<bool>, c1: int, c2: int): State
  {
    if true in sel && !(1 <= c1 <= Width(g) && 1 <= c2 <= Width(g)) then ErrOutOfRange else Success
  }

  /** The grid swapColumn leaves: unchanged when it fails. */
  function SwapGrid(g: Grid, d: char, sel: seq<bool>, c1: int, c2: int): (h: Grid)
    requires Rectangular(g) && |sel| == |g|
    ensures |h| == |g| && Rectangular(h) && Width(h) == Width(g)
  {
    if 1 <= c1 <= Width(g) && 1 <= c2 <= Width(g) then SwapRows(g, d, sel, c1, c2, |g|) else g
  }

  /**
   * Where swapColumn stands, with grid cur, once rows 1..done are behind
   * it: with both columns in range, the selected rows among them are
   * swapped; otherwise nothing changed and no row so far was selected.
   */
  predicate SwapState(g: Grid, d: char, sel: seq<bool>, c1: int, c2: int, done: nat, cur: Grid)
    requires Rectangular(g) && |sel| == |g| && done <= |g|
  {
    if 1 <= c1 <= Width(g) && 1 <= c2 <= Width(g) then cur == SwapRows(g, d, sel, c1, c2, done)
    else cur == g && forall i :: 0 <= i < done ==> !sel[i]
  }

  /** swapColumn passes over an unselected row. */
  lemma SwapSkip(g: Grid, d: char, sel: seq<bool>, c1: int, c2: int, done: nat, n: nat, cur: Grid)
    requires Rectangular(g) && |sel| == |g| && n == done + 1 <= |g| && !sel[done]
    requires SwapState(g, d, sel, c1, c2, done, cur)
    ensures SwapState(g, d, sel, c1, c2, n, cur)
  {
    if 1 <= c1 <= Width(g) && 1 <= c2 <= Width(g) {
      assert n - 1 == done;
    }
  }

  /**
   * A selected row of swapColumn: the row still holds what it held at the
   * start, and a column out of range is the answer of the whole command.
   */
  lemma SwapRead(g: Grid, d: char, sel: seq<bool>, c1: int, c2: int, done: nat, cur: Grid)
    requires Rectangular(g) && |sel| == |g| && done < |g| && sel[done]
    requires SwapState(g, d, sel, c1, c2, done, cur)
    ensures Rectangular(cur) && |cur| == |g| && Width(cur) == Width(g) && cur[done] == g[done]
    ensures !(1 <= c1 <= Width(g) && 1 <= c2 <= Width(g)) ==>
      cur == g && Moved(ErrOutOfRange, cur) == Moved(SwapOutcome(g, sel, c1, c2), SwapGrid(g, d, sel, c1, c2))
  {
    if 1 <= c1 <= Width(g) && 1 <= c2 <= Width(g) {
      SameShape(g, cur);
    }
  }

  /** Both writes of a selected row done, whether each fitted or not, the row is swapped as SwapRow says. */
  lemma SwapWrite(g: Grid, d: char, sel: seq<bool>, c1: int, c2: int, done: nat, n: nat, h: Grid, h1: Grid, cur: Grid)
    requires Rectangular(g) && |sel| == |g| && n == done + 1 <= |g| && sel[done]
    requires 1 <= c1 <= Width(g) && 1 <= c2 <= Width(g)
    requires SwapState(g, d, sel, c1, c2, done, h)
    requires h1 == TryWrite(h, d, n, c1, h[done][c2 - 1])
    requires cur == TryWrite(h1, d, n, c2, h[done][c1 - 1])
    ensures SwapState(g, d, sel, c1, c2, n, cur)
  {
    SwapRowsUnfold(g, d, sel, c1, c2, done, n, h);
  }

  /** After the last row swapColumn has done what SwapOutcome and SwapGrid say. */
  lemma SwapDone(g: Grid, d: char, sel: seq<bool>, c1: int, c2: int, cur: Grid)
    requires Rectangular(g) && |sel| == |g|
    requires SwapState(g, d, sel, c1, c2, |g|, cur)
    ensures Moved(Success, cur) == Moved(SwapOutcome(g, sel, c1, c2), SwapGrid(g, d, sel, c1, c2))
  {
    if !(1 <= c1 <= Width(g) && 1 <= c2 <= Width(g)) {
      assert true !in sel;
    }
  }

  /** Where moveColumn(n, m) stops: before column m, which is m - 1 when moving right. */
  function MoveEnd(n: int, m: int): int
  {
    if n < m then m - 1 else m
  }

  /** distance from pos to endPos */
  function Distance(pos: int, endPos: int): nat
  {
    if pos < endPos then endPos - pos else pos - endPos
  }

  datatype Moved = Moved(st: State, grid: Grid)

  /** moveColumn's loop from pos on: adjacent swaps towards endPos until one fails. */
  function MoveFrom(g: Grid, d: char, sel: seq<bool>, pos: int, endPos: int): (r: Moved)
    requires Rectangular(g) && |sel| == |g|
    ensures |r.grid| == |g| && Rectangular(r.grid) && Width(r.grid) == Width(g)
    ensures r.st == Success || r.st == ErrOutOfRange
    decreases Distance(pos, endPos)
  {
    if pos == endPos then Moved(Success, g)
    else
      var next := if pos < endPos then pos + 1 else pos - 1;
      if SwapOutcome(g, sel, pos, next) != Success then Moved(SwapOutcome(g, sel, pos, next), g)
      else MoveFrom(SwapGrid(g, d, sel, pos, next), d, sel, next, endPos)
  }

  /** Cells short between columns a and b are short in any one column between them. */
  lemma ShortBetweenColumns(g: Grid, sel: seq<bool>, a: int, b: int, c: int)
    requires |sel| == |g| && ShortBetween(g, sel, a, b) && Between(c, a, b)
    ensures ShortColumn(g, sel, c)
  {
  }

  /** One swap of moveColumn: the rest of the move starts from the swapped grid, or the move ends. */
  lemma MoveFromStep(g: Grid, d: char, sel: seq<bool>, pos: int, next: int, e: int)
    requires Rectangular(g) && |sel| == |g| && pos != e && next == (if pos < e then pos + 1 else pos - 1)
    ensures SwapOutcome(g, sel, pos, next) != Success ==>
      MoveFrom(g, d, sel, pos, e) == Moved(SwapOutcome(g, sel, pos, next), SwapGrid(g, d, sel, pos, next))
    ensures SwapOutcome(g, sel, pos, next) == Success ==>
      MoveFrom(g, d, sel, pos, e) == MoveFrom(SwapGrid(g, d, sel, pos, next), d, sel, next, e)
  {
  }

  /**
   * The cells moveColumn(n to e) reads: with column n in range, those
   * between n and e; with n out of range the first swap fails before it
   * reads anything, unless no row is selected and nothing is ever read.
   */
  predicate MoveReads(g: Grid, sel: seq<bool>, n: int, e: int)
    requires Rectangular(g) && |sel| == |g|
  {
    1 <= n <= Width(g) ==> ShortBetween(g, sel, n, e)
  }

  /**
   * Where moveColumn stands, with grid cur, at column pos: cur has the shape
   * of the start grid, the cells still to be read between pos and e are
   * short (or pos is still n, out of range, and the next swap fails), and
   * the rest of the move from pos ends as the whole move from n does.
   */
  predicate MoveState(g: Grid, d: char, sel: seq<bool>, n: int, e: int, pos: int, cur: Grid)
    requires Rectangular(g) && |sel| == |g|
  {
    Rectangular(cur) && |cur| == |g| && Width(cur) == Width(g) &&
    (1 <= n <= Width(g) || true !in sel ==> ShortBetween(cur, sel, pos, e)) &&
    (!(1 <= n <= Width(g)) && true in sel ==> pos == n) &&
    MoveFrom(cur, d, sel, pos, e) == MoveFrom(g, d, sel, n, e)
  }

  /** moveColumn starts in its state at column n. */
  lemma MoveStart(g: Grid, d: char, sel: seq<bool>, n: int, e: int)
    requires Rectangular(g) && |sel| == |g| && MoveReads(g, sel, n, e)
    ensures MoveState(g, d, sel, n, e, n, g)
  {
  }

  /**
   * The swap moveColumn makes at pos reads nothing it was not given short:
   * column pos, and column next once pos is in range.
   */
  lemma MoveSwapReads(g: Grid, d: char, sel: seq<bool>, n: int, e: int, pos: int, next: int, cur: Grid)
    requires Rectangular(g) && |sel| == |g| && pos != e && next == (if pos < e then pos + 1 else pos - 1)
    requires MoveState(g, d, sel, n, e, pos, cur)
    ensures ShortColumn(cur, sel, pos) && (1 <= pos <= Width(cur) ==> ShortColumn(cur, sel, next))
  {
    if 1 <= n <= Width(g) || true !in sel {
      ShortBetweenColumns(cur, sel, pos, e, pos);
      ShortBetweenColumns(cur, sel, pos, e, next);
    }
  }

  /**
   * One swap of moveColumn, from cur to after: success moves on to next,
   * any other answer is the answer of the whole move.
   */
  lemma MoveAdvance(g: Grid, d: char, sel: seq<bool>, n: int, e: int, pos: int, next: int, cur: Grid, st: State, after: Grid)
    requires Rectangular(g) && |sel| == |g| && pos != e && next == (if pos < e then pos + 1 else pos - 1)
    requires MoveState(g, d, sel, n, e, pos, cur)
    requires st == SwapOutcome(cur, sel, pos, next) && after == SwapGrid(cur, d, sel, pos, next)
    ensures st == Success ==> MoveState(g, d, sel, n, e, next, after)
    ensures st != Success ==> Moved(st, after) == MoveFrom(g, d, sel, n, e)
  {
    MoveFromStep(cur, d, sel, pos, next, e);
    if st == Success && (1 <= n <= Width(g) || true !in sel) {
      SwapGridShort(cur, d, sel, pos, next, pos, e);
    }
  }

  /** The row with cell n taken out. */
  function Remove(r: seq<seq<char>>, n: int): (x: seq<seq<char>>)
    requires 1 <= n <= |r|
    ensures |x| == |r| - 1
  {
    r[..n - 1] + r[n..]
  }

  /**
   * The row with cell n moved so that it becomes cell e: the moved cell is
   * at e, and taking it out of both rows leaves the other cells in the
   * same order.
   */
  function MoveCell(r: seq<seq<char>>, n: int, e: int): (x: seq<seq<char>>)
    requires 1 <= n <= |r| && 1 <= e <= |r|
    ensures |x| == |r| && x[e - 1] == r[n - 1] && Remove(x, e) == Remove(r, n)
  {
    var s := Remove(r, n);
    var x := s[..e - 1] + [r[n - 1]] + s[e - 1..];
    assert x[..e - 1] == s[..e - 1] && x[e..] == s[e - 1..];
    x
  }

  /** Moving a cell onto itself leaves the row as it was. */
  lemma MoveCellStays(r: seq<seq<char>>, e: int)
    requires 1 <= e <= |r|
    ensures MoveCell(r, e, e) == r
  {
    var s := Remove(r, e);
    assert s[..e - 1] == r[..e - 1] && s[e - 1..] == r[e..];
    assert r == r[..e - 1] + [r[e - 1]] + r[e..];
  }

  /** One adjacent exchange is the first step of moving cell pos to e. */
  lemma SwapTowards(r: seq<seq<char>>, pos: int, e: int)
    requires 1 <= pos <= |r| && 1 <= e <= |r| && pos != e
    ensures var next := if pos < e then pos + 1 else pos - 1;
      MoveCell(Swapped(r, pos, next), next, e) == MoveCell(r, pos, e)
  {
    var next := if pos < e then pos + 1 else pos - 1;
    var x := Swapped(r, pos, next);
    if pos < e {
      assert x[..pos] == r[..pos - 1] + [r[pos]];
      assert x[pos + 1..] == r[pos + 1..];
      assert r[pos - 1..] == [r[pos - 1]] + [r[pos]] + r[pos + 1..];
      assert Remove(x, next) == Remove(r, pos);
    } else {
      assert x[..pos - 2] == r[..pos - 2];
      assert x[pos - 1..] == [r[pos - 2]] + r[pos..];
      assert r[..pos - 1] == r[..pos - 2] + [r[pos - 2]];
      assert Remove(x, next) == Remove(r, pos);
    }
  }

  /** moveColumn's intended effect: cell n of every selected row moved to position e. */
  function MoveRows(g: Grid, sel: seq<bool>, n: int, e: int): (h: Grid)
    requires Rectangular(g) && |sel| == |g| && 1 <= n <= Width(g) && 1 <= e <= Width(g)
    ensures |h| == |g|
    ensures forall i :: 0 <= i < |g| ==> h[i] == if sel[i] then MoveCell(g[i], n, e) else g[i]
  {
    seq(|g|, i requires 0 <= i < |g| => if sel[i] then MoveCell(g[i], n, e) else g[i])
  }

  /** Exchanging two cells between columns a and b keeps the cells there short. */
  lemma ExchangeShort(g: Grid, sel: seq<bool>, c1: int, c2: int, a: int, b: int)
    requires |sel| == |g| && HasColumn(g, c1) && HasColumn(g, c2)
    requires Between(c1, a, b) && Between(c2, a, b) && ShortBetween(g, sel, a, b)
    ensures ShortBetween(Exchange(g, sel, c1, c2, |g|), sel, a, b)
  {
    var h := Exchange(g, sel, c1, c2, |g|);
    forall i | 0 <= i < |g| && sel[i] ensures ShortCells(h[i], a, b) {
      SwappedShort(g[i], c1, c2, a, b);
    }
  }

  /** One row of ExchangeShort. */
  lemma SwappedShort(r: seq<seq<char>>, c1: int, c2: int, a: int, b: int)
    requires 1 <= c1 <= |r| && 1 <= c2 <= |r| && Between(c1, a, b) && Between(c2, a, b) && ShortCells(r, a, b)
    ensures ShortCells(Swapped(r, c1, c2), a, b)
  {
    assert |r[c1 - 1]| < MAX_CELL_LENGTH && |r[c2 - 1]| < MAX_CELL_LENGTH;
  }

  /**
   * When the table has room for one more cell, every swap of moveColumn
   * fits, and moveColumn(pos to e) moves cell pos of every selected row to
   * position e, keeping the order of the other cells.
   */
  lemma {:induction false} MoveRotates(g: Grid, d: char, sel: seq<bool>, pos: int, e: int)
    requires Rectangular(g) && |sel| == |g| && 1 <= pos <= Width(g) && 1 <= e <= Width(g)
    requires ShortBetween(g, sel, pos, e) && |Serialize(g, d)| + MAX_CELL_LENGTH <= MAX_LINE_LENGTH
    ensures MoveFrom(g, d, sel, pos, e) == Moved(Success, MoveRows(g, sel, pos, e))
    decreases Distance(pos, e)
  {
    if pos == e {
      MoveRowsStays(g, sel, e);
    } else {
      var next := if pos < e then pos + 1 else pos - 1;
      var h := SwapFits(g, d, sel, pos, next, pos, e);
      assert ShortBetween(h, sel, next, e);
      MoveRotates(h, d, sel, next, e);
      MoveRowsStep(g, sel, pos, e, next, h);
    }
  }

  /** Moving cell e to e changes no row. */
  lemma MoveRowsStays(g: Grid, sel: seq<bool>, e: int)
    requires Rectangular(g) && |sel| == |g| && 1 <= e <= Width(g)
    ensures MoveRows(g, sel, e, e) == g
  {
    forall i | 0 <= i < |g| && sel[i] ensures MoveCell(g[i], e, e) == g[i] {
      MoveCellStays(g[i], e);
    }
  }

  /**
   * On a table with room for one more cell, one swapColumn of moveColumn
   * succeeds and exchanges the two cells of every selected row, keeping the
   * text's length and every cell short.
   */
  lemma SwapFits(g: Grid, d: char, sel: seq<bool>, c1: int, c2: int, a: int, b: int) returns (h: Grid)
    requires Rectangular(g) && |sel| == |g| && 1 <= c1 <= Width(g) && 1 <= c2 <= Width(g)
    requires Between(c1, a, b) && Between(c2, a, b)
    requires ShortBetween(g, sel, a, b) && |Serialize(g, d)| + MAX_CELL_LENGTH <= MAX_LINE_LENGTH
    ensures h == Exchange(g, sel, c1, c2, |g|) && Rectangular(h) && Width(h) == Width(g)
    ensures SwapOutcome(g, sel, c1, c2) == Success && SwapGrid(g, d, sel, c1, c2) == h
    ensures ShortBetween(h, sel, a, b) && |Serialize(h, d)| + MAX_CELL_LENGTH <= MAX_LINE_LENGTH
  {
    SwapExchanges(g, d, sel, c1, c2, |g|);
    h := Exchange(g, sel, c1, c2, |g|);
    ExchangeShort(g, sel, c1, c2, a, b);
  }

  /** After the first exchange, the rest of the move is the whole move. */
  lemma MoveRowsStep(g: Grid, sel: seq<bool>, pos: int, e: int, next: int, h: Grid)
    requires Rectangular(g) && |sel| == |g| && 1 <= pos <= Width(g) && 1 <= e <= Width(g) && pos != e
    requires next == if pos < e then pos + 1 else pos - 1
    requires h == Exchange(g, sel, pos, next, |g|) && Rectangular(h) && Width(h) == Width(g)
    ensures MoveRows(h, sel, next, e) == MoveRows(g, sel, pos, e)
  {
    forall i | 0 <= i < |g| ensures MoveRows(h, sel, next, e)[i] == MoveRows(g, sel, pos, e)[i] {
      if sel[i] {
        SwapTowards(g[i], pos, e);
      }
    }
  }

  /**
   * moveColumn(n, m) with both columns in range, on a table with room for
   * one more cell: column n ends up just before the old column m (at the
   * end when m is one past the last column), and it answers Success.
   */
  lemma MoveColumnPlaces(g: Grid, d: char, sel: seq<bool>, n: int, m: int)
    requires Rectangular(g) && |sel| == |g| && 1 <= n <= Width(g) && 1 <= m <= Width(g) + 1
    requires MoveReads(g, sel, n, MoveEnd(n, m)) && |Serialize(g, d)| + MAX_CELL_LENGTH <= MAX_LINE_LENGTH
    ensures 1 <= MoveEnd(n, m) <= Width(g)
    ensures MoveFrom(g, d, sel, n, MoveEnd(n, m)) == Moved(Success, MoveRows(g, sel, n, MoveEnd(n, m)))
  {
    MoveRotates(g, d, sel, n, MoveEnd(n, m));
  }

  // ---------------------------------------------------------------------
  // Selections

  /** needle occurs in hay at offset j. */
  predicate Occurs(hay: seq<char>, needle: seq<char>, j: int)
  {
    0 <= j && j + |needle| <= |hay| && hay[j..j + |needle|] == needle
  }

  /** An occurrence past the first byte is an occurrence in the rest. */
  lemma OccursTail(hay: seq<char>, needle: seq<char>)
    requires hay != []
    ensures forall j :: 1 <= j <= |hay| ==> (Occurs(hay, needle, j) <==> Occurs(hay[1..], needle, j - 1))
  {
    forall j | 1 <= j <= |hay| ensures Occurs(hay, needle, j) <==> Occurs(hay[1..], needle, j - 1) {
      if j + |needle| <= |hay| {
        var t := hay[1..];
        assert t[j - 1..] == hay[j..];
        assert t[j - 1..j - 1 + |needle|] == t[j - 1..][..|needle|];
        assert hay[j..j + |needle|] == hay[j..][..|needle|];
        assert hay[j..j + |needle|] == t[j - 1..j - 1 + |needle|];
      }
    }
  }

  /** strstr: the first offset at which needle occurs in hay. */
  function StrStr(hay: seq<char>, needle: seq<char>): (r: Option<nat>)
    ensures r.Some? ==> Occurs(hay, needle, r.value)
    ensures forall j :: 0 <= j <= |hay| && (r.None? || j < r.value) ==> !Occurs(hay, needle, j)
    decreases |hay|
  {
    if |needle| <= |hay| && hay[..|needle|] == needle then Some(0)
    else if hay == [] then None
    else
      OccursTail(hay, needle);
      match StrStr(hay[1..], needle)
      case None => None
      case Some(k) => Some(k + 1)
  }

  /** beginswith: strstr finds the text at the very start exactly when it is a prefix. */
  lemma BeginsWithIsPrefix(hay: seq<char>, needle: seq<char>)
    ensures StrStr(hay, needle) == Some(0) <==> needle <= hay
  {
  }

  /** needle occurs somewhere in hay. */
  predicate Contains(hay: seq<char>, needle: seq<char>)
  {
    exists j :: 0 <= j <= |hay| && Occurs(hay, needle, j)
  }

  /** contains: strstr finds the text exactly when it occurs somewhere. */
  lemma ContainsIsSubstring(hay: seq<char>, needle: seq<char>)
    ensures StrStr(hay, needle).Some? <==> Contains(hay, needle)
  {
  }

  /** The flags AND-ed with a mask. */
  function And(sel: seq<bool>, mask: seq<bool>): (r: seq<bool>)
    requires |mask| == |sel|
    ensures |r| == |sel|
    ensures forall i :: 0 <= i < |sel| ==> (r[i] <==> sel[i] && mask[i])
  {
    seq(|sel|, i requires 0 <= i < |sel| => sel[i] && mask[i])
  }

  /** A selection never selects a row again, and selections can be done in any order. */
  lemma AndCommutes(sel: seq<bool>, a: seq<bool>, b: seq<bool>)
    requires |a| == |sel| && |b| == |sel|
    ensures And(And(sel, a), b) == And(And(sel, b), a)
    ensures forall i :: 0 <= i < |sel| && And(sel, a)[i] ==> sel[i]
  {
  }

  /** selectAll's flags: every one of n rows. */
  function AllRows(n: nat): (s: seq<bool>)
    ensures |s| == n && forall i :: 0 <= i < n ==> s[i]
  {
    seq(n, _ => true)
  }

  /**
   * The flags cur after a selection loop has done rows 1..k - 1: theirs
   * AND-ed with mask, every other flag as in before (index 0 is unused).
   */
  predicate AndedUpTo(cur: seq<bool>, before: seq<bool>, mask: seq<bool>, k: int)
    requires |cur| == |before| && |mask| < |before| && 1 <= k <= |mask| + 1
  {
    forall i :: 0 <= i < |cur| ==> cur[i] == (if 1 <= i < k then before[i] && mask[i - 1] else before[i])
  }

  /** One more row AND-ed with its mask bit. */
  lemma AndedStep(cur: seq<bool>, before: seq<bool>, mask: seq<bool>, k: int, n: int, b: bool)
    requires |cur| == |before| && |mask| < |before| && 1 <= k <= |mask| && n == k + 1
    requires AndedUpTo(cur, before, mask, k) && b == mask[k - 1]
    ensures AndedUpTo(cur[k := cur[k] && b], before, mask, n)
  {
  }

  /**
   * The row flags after a selection with mask: rows 1..|mask| AND-ed with
   * it, the unused flag 0 and the flags past the last row left alone.
   */
  function Narrowed(flags: seq<bool>, mask: seq<bool>): (r: seq<bool>)
    requires |mask| < |flags|
    ensures |r| == |flags|
    ensures forall i :: 0 <= i < |flags| ==> r[i] == (if 1 <= i <= |mask| then flags[i] && mask[i - 1] else flags[i])
  {
    flags[..1] + And(flags[1..|mask| + 1], mask) + flags[|mask| + 1..]
  }

  /** Once every row is done, the flags are the old ones narrowed by mask. */
  lemma AndedAll(cur: seq<bool>, before: seq<bool>, mask: seq<bool>)
    requires |cur| == |before| && |mask| < |before| && AndedUpTo(cur, before, mask, |mask| + 1)
    ensures cur == Narrowed(before, mask)
  {
  }

  /** selectAll's loop sets the flag of row k; rows before it are already set. */
  lemma SelectAllStep(cur: seq<bool>, before: seq<bool>, k: nat, n: nat)
    requires 1 <= k < |before| && n == k + 1 && cur == before[..1] + AllRows(k - 1) + before[k..]
    ensures cur[k := true] == before[..1] + AllRows(k) + before[n..]
  {
    assert before[k..] == [before[k]] + before[n..];
  }

  /** selectRows' mask: rows lo..hi of n rows. */
  function RowRange(n: nat, lo: int, hi: int): (mask: seq<bool>)
    ensures |mask| == n
    ensures forall i :: 0 <= i < n ==> (mask[i] <==> lo <= i + 1 <= hi)
  {
    seq(n, i => lo <= i + 1 <= hi)
  }

  /** selectBeginsWith's mask: the rows whose cell in column col starts with str. */
  function BeginsMask(g: Grid, col: int, str: seq<char>): (mask: seq<bool>)
    requires HasColumn(g, col)
    ensures |mask| == |g|
    ensures forall i :: 0 <= i < |g| ==> (mask[i] <==> str <= g[i][col - 1])
  {
    seq(|g|, i requires 0 <= i < |g| => StrStr(g[i][col - 1], str) == Some(0))
  }

  /** selectContains' mask: the rows whose cell in column col contains str. */
  function ContainsMask(g: Grid, col: int, str: seq<char>): (mask: seq<bool>)
    requires HasColumn(g, col)
    ensures |mask| == |g|
    ensures forall i :: 0 <= i < |g| ==> (mask[i] <==> Contains(g[i][col - 1], str))
  {
    seq(|g|, i requires 0 <= i < |g| => StrStr(g[i][col - 1], str).Some?)
  }

  /** The rows selectRows(start, end) keeps, once "-" is resolved. */
  datatype Span = Span(lo: int, hi: int)

  /**
   * selectRows resolves an end of "-" to the last row, and "- -" to the
   * last row alone, but takes "last" to be countColumns; `cols` is that
   * count.
   */
  function ResolveSpan(start: int, end: int, cols: int): Span
  {
    if end == DASH_NUMBER then Span(if start == DASH_NUMBER then cols else start, cols)
    else Span(start, end)
  }

  function SelectRowsOutcome(start: int, end: int, cols: int): State
  {
    var s := ResolveSpan(start, end, cols);
    if s.lo > s.hi then ErrBadSyntax
    else if s.hi > cols || s.lo < 1 then ErrOutOfRange
    else Success
  }

  /**
   * The quirk of selectRows: "rows - -" on a table of 3 rows and 2 columns
   * keeps row 2, not the last row, and "rows 3 3" is refused as out of
   * range although row 3 exists.
   */
  lemma RowsMeasuredByColumns()
    ensures ResolveSpan(DASH_NUMBER, DASH_NUMBER, 2) == Span(2, 2)
    ensures SelectRowsOutcome(3, 3, 2) == ErrOutOfRange
  {
  }
}
