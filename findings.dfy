/**
 * Two defects of sheet.c, each modelled as the code is written, with the
 * input that exposes it. The rest of the model uses the corrected
 * behaviour: Table.ShiftData (through Table.CutOut) and Table.Icol.
 */
module Findings {
  import opened SheetTypes

  // ---------------------------------------------------------------------
  // shiftData with a negative shift

  /** What the byte loop of a negative shift does to the buffer, or where it leaves it. */
  datatype Access = InBounds(buf: seq<char>) | OutOfBounds(at: int)

  /**
   * The negative branch of shiftData as written, k = -shift, from loop
   * index i on: the loop tests the byte at p + i BEFORE it is overwritten,
   * so it copies until it reaches the old terminator and then stores a
   * terminator k bytes beyond it. Every access is checked against the
   * buffer buf.
   */
  function CutAsWritten(buf: seq<char>, p: nat, k: nat, i: nat): (r: Access)
    decreases |buf| - (p + i)
  {
    if p + i >= |buf| then OutOfBounds(p + i)
    else if buf[p + i] == '\0' then
      if p + i + k >= |buf| then OutOfBounds(p + i + k) else InBounds(buf[p + i + k := '\0'])
    else if p + i + k >= |buf| then OutOfBounds(p + i + k)
    else CutAsWritten(buf[p + i := buf[p + i + k]], p, k, i + 1)
  }

  /**
   * Whenever the terminator at len lies within k bytes of the end of the
   * buffer, the loop as written leaves the buffer: it reads or writes past
   * its last byte.
   */
  lemma {:induction false} CutOverruns(buf: seq<char>, p: nat, k: nat, i: nat, len: nat)
    requires p + i <= len < |buf| && buf[len] == '\0' && len + k >= |buf|
    requires forall j :: p + i <= j < len ==> buf[j] != '\0'
    ensures CutAsWritten(buf, p, k, i).OutOfBounds?
    decreases len - (p + i)
  {
    if p + i < len && p + i + k < |buf| {
      var b := buf[p + i := buf[p + i + k]];
      assert forall j :: p + i + 1 <= j < len ==> b[j] == buf[j];
      CutOverruns(b, p, k, i + 1, len);
    }
  }

  /**
   * A full table buffer: an empty row, a row of 10239 'a' bytes, and the
   * terminator in the last byte.
   */
  function FullBuffer(): (buf: seq<char>)
    ensures |buf| == MAX_LINE_LENGTH && buf[MAX_LINE_LENGTH - 1] == '\0'
    ensures forall j :: 0 <= j < MAX_LINE_LENGTH - 1 ==> buf[j] != '\0'
  {
    seq(MAX_LINE_LENGTH, j => if j == MAX_LINE_LENGTH - 1 then '\0'
      else if j == 0 || j == MAX_LINE_LENGTH - 2 then '\n' else 'a')
  }

  /**
   * drow 1 on the full table cuts its one byte, at offset 0: the loop as
   * written stores its terminator at offset MAX_LINE_LENGTH, one past the
   * buffer.
   */
  lemma FullTableCutOverruns()
    ensures CutAsWritten(FullBuffer(), 0, 1, 0) == OutOfBounds(MAX_LINE_LENGTH)
  {
    CutOverruns(FullBuffer(), 0, 1, 0, MAX_LINE_LENGTH - 1);
    CutReachesTerminator(FullBuffer(), 0, 1, 0, MAX_LINE_LENGTH - 1);
  }

  /**
   * When every byte before the terminator can be copied, the loop as written
   * runs to the terminator and its first out-of-bounds access is the
   * terminator store at len + k.
   */
  lemma {:induction false} CutReachesTerminator(buf: seq<char>, p: nat, k: nat, i: nat, len: nat)
    requires p + i <= len < |buf| && buf[len] == '\0' && len + k == |buf|
    requires forall j :: p + i <= j < len ==> buf[j] != '\0'
    ensures CutAsWritten(buf, p, k, i) == OutOfBounds(len + k)
    decreases len - (p + i)
  {
    if p + i < len {
      if p + i + k < |buf| {
        var b := buf[p + i := buf[p + i + k]];
        assert forall j :: p + i + 1 <= j < len ==> b[j] == buf[j];
        CutReachesTerminator(b, p, k, i + 1, len);
      }
    }
  }

  // ---------------------------------------------------------------------
  // icol after a refused shift

  /**
   * One row of icol as written, on table text s with the row's cell at
   * offset p: shiftData refuses to grow a text that would no longer fit,
   * and the delimiter is stored at p all the same, over the cell's first
   * byte.
   */
  function IcolCellAsWritten(s: seq<char>, p: nat, d: char): (r: seq<char>)
    requires p < |s|
    ensures |s| + 1 >= MAX_LINE_LENGTH ==> |r| == |s|
    ensures |s| + 1 < MAX_LINE_LENGTH ==> r == s[..p] + [d] + s[p..]
  {
    if |s| + 1 >= MAX_LINE_LENGTH then s[p := d]
    else s[..p] + [d] + s[p..]
  }

  /**
   * On a full text the byte at p is lost: the result is neither the old
   * text nor the text with an empty cell inserted, which is one byte longer.
   */
  lemma IcolOverwrites(s: seq<char>, p: nat, d: char)
    requires p < |s| && |s| + 1 >= MAX_LINE_LENGTH && s[p] != d
    ensures IcolCellAsWritten(s, p, d) != s
    ensures IcolCellAsWritten(s, p, d) != s[..p] + [d] + s[p..]
  {
    assert IcolCellAsWritten(s, p, d)[p] != s[p];
    assert |s[..p] + [d] + s[p..]| == |s| + 1;
  }

  /**
   * icol 1 with delimiter ' ' on the full table: the '\n' that ends the
   * empty first row becomes a delimiter, so the first two rows run together.
   */
  lemma FullTableIcolDamages()
    ensures var s := FullBuffer()[..MAX_LINE_LENGTH - 1];
      IcolCellAsWritten(s, 0, ' ') == [' '] + s[1..] && IcolCellAsWritten(s, 0, ' ') != s
  {
    var s := FullBuffer()[..MAX_LINE_LENGTH - 1];
    IcolOverwrites(s, 0, ' ');
  }
}
