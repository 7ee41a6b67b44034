/**
 * The read-only scans of sheet.c over the table text: the bytes of the
 * buffer before its '\0' terminator. Each is a recursion over the text that
 * follows the source's loop character by character.
 */
module Scan {
  import opened SheetTypes
  import opened Text

  /** endOfCell: a delimiter, a newline or the terminator ends a cell. */
  predicate EndOfCell(c: char, d: char)
  {
    c == d || c == '\n' || c == '\0'
  }

  /** countRows: the number of '\n' bytes before the terminator. */
  function CountRows(s: seq<char>): nat
  {
    Count(s, '\n')
  }

  /**
   * countColumns: one more than the number of delimiters before the first
   * '\n'. The source reads past the terminator when the text holds no
   * '\n'; that case is excluded.
   */
  function CountColumns(s: seq<char>, d: char): (n: nat)
    requires '\n' in s
    ensures n >= 1
  {
    if s[0] == '\n' then 1
    else
      assert '\n' in s[1..] by {
        var k :| 0 <= k < |s| && s[k] == '\n';
        assert s[1..][k - 1] == '\n';
      }
      (if s[0] == d then 1 else 0) + CountColumns(s[1..], d)
  }

  /**
   * The loop of isConsistent, from a point where numCols columns were
   * fixed by the first row (-1: no row finished yet) and the current row
   * has reached column col.
   */
  function ConsistentFrom(s: seq<char>, d: char, numCols: int, col: int): bool
  {
    if s == [] then true
    else
      var col' := if s[0] == d then col + 1 else col;
      if s[0] == '\n' then
        var numCols' := if numCols == -1 then col' else numCols;
        if col' != numCols' then false else ConsistentFrom(s[1..], d, numCols', 1)
      else ConsistentFrom(s[1..], d, numCols, col')
  }

  /** isConsistent: every row has as many columns as the first. */
  function IsConsistent(s: seq<char>, d: char): bool
  {
    ConsistentFrom(s, d, -1, 1)
  }

  /**
   * isEmpty: strcmp(text, "\n") <= 0, i.e. the text is empty, is exactly
   * one '\n', or starts with a byte that compares below '\n'.
   */
  predicate IsEmpty(s: seq<char>)
  {
    s == [] || s[0] < '\n' || s == ['\n']
  }

  function Shift(o: Option<nat>, k: nat): (r: Option<nat>)
    ensures r.Some? <==> o.Some?
    ensures r.Some? ==> r.value == o.value + k
  {
    match o
    case None => None
    case Some(v) => Some(v + k)
  }

  /**
   * The loop of getCellPtr from a point where it is at row cr, column cc
   * and s is the text still to scan. The result is an offset into s.
   */
  function CellScan(s: seq<char>, d: char, row: int, col: int, cr: int, cc: int): (r: Option<nat>)
    ensures r.Some? ==> r.value <= |s|
    decreases |s|
  {
    if !(cr < row || cc < col) then Some(0)
    else if s == [] then None
    else
      var cc' := if s[0] == d then cc + 1 else cc;
      if s[0] == '\n' then
        if cr == row && cc' + 1 == col then Some(0)
        else Shift(CellScan(s[1..], d, row, col, cr + 1, 1), 1)
      else Shift(CellScan(s[1..], d, row, col, cr, cc'), 1)
  }

  /**
   * getCellPtr: the offset of the first byte of cell (row, col), of the
   * row's '\n' when col is one past its last column, and of the terminator
   * for the first column of the row after the last; None (NULL) for
   * coordinates below 1 or when the scan reaches the terminator.
   */
  function CellOffset(s: seq<char>, d: char, row: int, col: int): (r: Option<nat>)
    ensures r.Some? ==> r.value <= |s|
    ensures row < 1 || col < 1 ==> r.None?
  {
    if row < 1 || col < 1 then None else CellScan(s, d, row, col, 1, 1)
  }

  /** Length of the cell that starts at the beginning of t. */
  function CellLength(t: seq<char>, d: char): (n: nat)
    ensures n <= |t|
    ensures forall i :: 0 <= i < n ==> !EndOfCell(t[i], d)
    ensures n < |t| ==> t[n] == d || t[n] == '\n' || t[n] == '\0'
  {
    if t == [] || EndOfCell(t[0], d) then 0 else 1 + CellLength(t[1..], d)
  }
}
