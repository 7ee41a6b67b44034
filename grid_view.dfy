/**
 * The table text read as a grid: a sequence of rows, each a non-empty
 * sequence of cells. Serialize writes a grid the way the buffer holds it
 * (cells joined by the delimiter, every row closed by '\n'); Parse reads it
 * back. The lemmas here tie the byte scans of sheet.c (countRows,
 * countColumns, isConsistent, getCellPtr) to this view.
 */
module GridView {
  import opened SheetTypes
  import opened Text
  import opened Scan

  type Row = Pieces
  type Grid = seq<Row>

  /** A delimiter the model supports: neither the row separator nor the terminator. */
  predicate GoodDelimiter(d: char)
  {
    d != '\n' && d != '\0'
  }

  /** Every cell is free of the delimiter, of '\n' and of '\0'. */
  predicate Clean(g: Grid, d: char)
  {
    forall i, j :: 0 <= i < |g| && 0 <= j < |g[i]| ==>
      d !in g[i][j] && '\n' !in g[i][j] && '\0' !in g[i][j]
  }

  /** Every row has as many cells as the first. */
  predicate Rectangular(g: Grid)
  {
    forall i :: 0 <= i < |g| ==> |g[i]| == |g[0]|
  }

  /** Text that is empty or ends with '\n'. */
  predicate Terminated(s: seq<char>)
  {
    s == [] || s[|s| - 1] == '\n'
  }

  function Line(r: Row, d: char): seq<char>
  {
    Join(r, d) + ['\n']
  }

  function Serialize(g: Grid, d: char): (s: seq<char>)
    ensures Terminated(s)
    ensures g != [] ==> |s| > 0
  {
    if g == [] then [] else Line(g[0], d) + Serialize(g[1..], d)
  }

  /**
   * isEmpty on the text of a grid: besides the text with no row and the
   * text of one empty row, every table whose first byte sorts below '\n'
   * counts as empty (strcmp compares bytes): a first cell starting with
   * such a byte, or an empty first cell followed by a delimiter below '\n',
   * such as a tab.
   */
  lemma EmptyTable(g: Grid, d: char)
    ensures IsEmpty(Serialize(g, d)) <==>
      g == [] || g == [[[]]] ||
      (g[0][0] != [] && g[0][0][0] < '\n') ||
      (g[0][0] == [] && |g[0]| > 1 && d < '\n')
  {
    if g != [] {
      var s := Serialize(g, d);
      var j := Join(g[0], d);
      assert s == j + ['\n'] + Serialize(g[1..], d);
      if g[0][0] != [] {
        assert j[0] == g[0][0][0];
        assert s != ['\n'];
      } else if |g[0]| > 1 {
        assert j[0] == d;
        assert s != ['\n'];
      } else {
        assert j == [];
        assert s[0] == '\n';
        if g[1..] != [] {
          assert |s| > 1;
        } else {
          assert g[0] == [[]];
          assert g == [g[0]];
        }
      }
    }
  }

  function Parse(s: seq<char>, d: char): (g: Grid)
    requires Terminated(s)
    decreases |s|
  {
    if s == [] then []
    else
      assert s[|s| - 1] in s;
      var k := IndexOf(s, '\n');
      [Split(s[..k], d)] + Parse(s[k + 1..], d)
  }

  /** Offset of the first byte of row k (0-based); |text| for k == |g|. */
  function RowStart(g: Grid, d: char, k: nat): nat
    requires k <= |g|
  {
    |Serialize(g[..k], d)|
  }

  /**
   * Offset, inside Join(r), of the first byte of cell k (0-based); for
   * k == |r| the offset just past the last cell, where the row's '\n' is.
   */
  function CellPos(r: Row, k: nat): nat
    requires k <= |r|
  {
    if k == 0 then 0
    else if |r| == 1 then |r[0]|
    else |r[0]| + 1 + CellPos(r[1..], k - 1)
  }

  // ---------------------------------------------------------------------
  // Serialize and Parse

  lemma {:induction false} SerializeAppend(a: Grid, b: Grid, d: char)
    ensures Serialize(a + b, d) == Serialize(a, d) + Serialize(b, d)
  {
    if a == [] {
      assert a + b == b;
    } else {
      assert (a + b)[0] == a[0];
      assert (a + b)[1..] == a[1..] + b;
      SerializeAppend(a[1..], b, d);
    }
  }

  lemma SerializeAt(g: Grid, d: char, k: nat)
    requires k < |g|
    ensures Serialize(g, d) == Serialize(g[..k], d) + Line(g[k], d) + Serialize(g[k + 1..], d)
  {
    assert g == g[..k] + g[k..];
    SerializeAppend(g[..k], g[k..], d);
    assert g[k..][0] == g[k] && g[k..][1..] == g[k + 1..];
  }

  lemma {:induction false} ParseSerialize(g: Grid, d: char)
    requires GoodDelimiter(d) && Clean(g, d)
    ensures Parse(Serialize(g, d), d) == g
  {
    if g != [] {
      CleanRow(g, d, 0);
      CleanTail(g, d);
      SerializeCons(g[0], g[1..], d);
      assert [g[0]] + g[1..] == g;
      ParseLine(Join(g[0], d), Serialize(g[1..], d), d);
      SplitJoin(g[0], d);
      ParseSerialize(g[1..], d);
    }
  }

  lemma ParseLine(a: seq<char>, rest: seq<char>, d: char)
    requires '\n' !in a && Terminated(rest)
    ensures Terminated(a + ['\n'] + rest)
    ensures Parse(a + ['\n'] + rest, d) == [Split(a, d)] + Parse(rest, d)
  {
    var s := a + ['\n'] + rest;
    assert s == a + (['\n'] + rest);
    IndexOfAfter(a, ['\n'] + rest, '\n');
    assert s[..|a|] == a;
    assert s[|a| + 1..] == rest;
  }

  /** Parse takes off the first line: the text up to the first '\n', split at the delimiter. */
  lemma ParseUnfold(s: seq<char>, d: char) returns (k: nat)
    requires Terminated(s) && s != []
    ensures '\n' in s && k == IndexOf(s, '\n')
    ensures Terminated(s[k + 1..]) && Parse(s, d) == [Split(s[..k], d)] + Parse(s[k + 1..], d)
  {
    assert s[|s| - 1] in s;
    k := IndexOf(s, '\n');
    var t := s[k + 1..];
    assert t == [] || t[|t| - 1] == s[|s| - 1];
  }

  lemma {:induction false} SerializeParse(s: seq<char>, d: char)
    requires Terminated(s)
    ensures Serialize(Parse(s, d), d) == s
    decreases |s|
  {
    if s != [] {
      var k := ParseUnfold(s, d);
      var a, b := s[..k], s[k + 1..];
      SerializeParse(b, d);
      JoinSplit(a, d);
      Glue(s, k, Split(a, d), Parse(b, d), d);
    }
  }

  lemma Glue(s: seq<char>, k: nat, r: Row, g: Grid, d: char)
    requires k < |s| && s[k] == '\n'
    requires Join(r, d) == s[..k]
    requires Serialize(g, d) == s[k + 1..]
    ensures Serialize([r] + g, d) == s
  {
    SerializeCons(r, g, d);
    assert s == s[..k] + ['\n'] + s[k + 1..];
  }

  lemma SerializeCons(r: Row, g: Grid, d: char)
    ensures Serialize([r] + g, d) == Join(r, d) + ['\n'] + Serialize(g, d)
  {
    assert ([r] + g)[1..] == g;
  }

  lemma {:induction false} ParseClean(s: seq<char>, d: char)
    requires Terminated(s) && GoodDelimiter(d) && '\0' !in s
    ensures Clean(Parse(s, d), d)
    decreases |s|
  {
    if s != [] {
      var k := ParseUnfold(s, d);
      var tail := s[k + 1..];
      var head := s[..k];
      assert '\0' !in tail && '\0' !in head;
      ParseClean(tail, d);
      var g := Parse(s, d);
      var first := Split(head, d);
      SplitPieces(head, d);
      assert g == [first] + Parse(tail, d);
      forall i, j | 0 <= i < |g| && 0 <= j < |g[i]|
        ensures d !in g[i][j] && '\n' !in g[i][j] && '\0' !in g[i][j]
      {
        if i > 0 {
          assert g[i] == Parse(tail, d)[i - 1];
        } else {
          assert g[i] == first;
          assert d !in first[j];
          assert '\n' !in first[j] && '\0' !in first[j] by {
            forall x | x in first[j] ensures x in head { }
          }
        }
      }
    }
  }

  /** Any terminated text without '\0' is the serialization of a clean grid. */
  lemma TextIsGrid(s: seq<char>, d: char)
    requires Terminated(s) && GoodDelimiter(d) && '\0' !in s
    ensures Clean(Parse(s, d), d) && Serialize(Parse(s, d), d) == s
  {
    ParseClean(s, d);
    SerializeParse(s, d);
  }

  lemma CleanTail(g: Grid, d: char)
    requires Clean(g, d) && g != []
    ensures Clean(g[1..], d)
  {
    forall i, k | 0 <= i < |g[1..]| && 0 <= k < |g[1..][i]|
      ensures d !in g[1..][i][k] && '\n' !in g[1..][i][k] && '\0' !in g[1..][i][k]
    {
      assert g[1..][i] == g[i + 1];
    }
  }

  lemma CleanRow(g: Grid, d: char, i: nat)
    requires Clean(g, d) && i < |g| && GoodDelimiter(d)
    ensures Separated(g[i], d)
    ensures '\n' !in Join(g[i], d) && '\0' !in Join(g[i], d)
  {
    forall k | 0 <= k < |g[i]| ensures d !in g[i][k] {
      assert d !in g[i][k];
    }
    JoinLacks(g[i], d, '\n');
    JoinLacks(g[i], d, '\0');
  }

  // ---------------------------------------------------------------------
  // Counting rows and columns, consistency

  lemma {:induction false} CountRowsSerialize(g: Grid, d: char)
    requires GoodDelimiter(d) && Clean(g, d)
    ensures CountRows(Serialize(g, d)) == |g|
  {
    if g != [] {
      CleanRow(g, d, 0);
      CleanTail(g, d);
      CountRowsSerialize(g[1..], d);
      var j := Join(g[0], d);
      CountAppend(j + ['\n'], Serialize(g[1..], d), '\n');
      CountAppend(j, ['\n'], '\n');
    }
  }

  lemma {:induction false} CountColumnsLine(a: seq<char>, rest: seq<char>, d: char)
    requires '\n' !in a && d != '\n'
    ensures CountColumns(a + ['\n'] + rest, d) == Count(a, d) + 1
  {
    if a != [] {
      assert (a + ['\n'] + rest)[1..] == a[1..] + ['\n'] + rest;
      CountColumnsLine(a[1..], rest, d);
    } else {
      assert (a + ['\n'] + rest)[0] == '\n';
    }
  }

  lemma CountColumnsSerialize(g: Grid, d: char)
    requires GoodDelimiter(d) && Clean(g, d) && g != []
    ensures '\n' in Serialize(g, d)
    ensures CountColumns(Serialize(g, d), d) == |g[0]|
  {
    CleanRow(g, d, 0);
    var j := Join(g[0], d);
    assert Serialize(g, d) == j + ['\n'] + Serialize(g[1..], d);
    assert Serialize(g, d)[|j|] == '\n';
    CountColumnsLine(j, Serialize(g[1..], d), d);
    CountJoin(g[0], d);
  }

  lemma {:induction false} ConsistentLine(a: seq<char>, rest: seq<char>, d: char, numCols: int, col: int)
    requires '\n' !in a && d != '\n'
    ensures ConsistentFrom(a + ['\n'] + rest, d, numCols, col) ==
      (var col' := col + Count(a, d);
       var numCols' := if numCols == -1 then col' else numCols;
       col' == numCols' && ConsistentFrom(rest, d, numCols', 1))
  {
    if a != [] {
      assert (a + ['\n'] + rest)[1..] == a[1..] + ['\n'] + rest;
      ConsistentLine(a[1..], rest, d, numCols, if a[0] == d then col + 1 else col);
    } else {
      assert (a + ['\n'] + rest)[1..] == rest;
    }
  }

  lemma {:induction false} ConsistentUniform(g: Grid, d: char, n: int)
    requires GoodDelimiter(d) && Clean(g, d) && n >= 1
    ensures ConsistentFrom(Serialize(g, d), d, n, 1) <==> forall i :: 0 <= i < |g| ==> |g[i]| == n
  {
    if g != [] {
      CleanRow(g, d, 0);
      CleanTail(g, d);
      CountJoin(g[0], d);
      ConsistentLine(Join(g[0], d), Serialize(g[1..], d), d, n, 1);
      ConsistentUniform(g[1..], d, n);
      if forall i :: 0 <= i < |g[1..]| ==> |g[1..][i]| == n {
        assert forall i :: 1 <= i < |g| ==> |g[i]| == n by {
          forall i | 1 <= i < |g| ensures |g[i]| == n {
            assert g[i] == g[1..][i - 1];
          }
        }
      }
    }
  }

  /** isConsistent accepts exactly the serializations of rectangular grids. */
  lemma ConsistentIffRectangular(g: Grid, d: char)
    requires GoodDelimiter(d) && Clean(g, d)
    ensures IsConsistent(Serialize(g, d), d) <==> Rectangular(g)
  {
    if g != [] {
      CleanRow(g, d, 0);
      CleanTail(g, d);
      CountJoin(g[0], d);
      ConsistentLine(Join(g[0], d), Serialize(g[1..], d), d, -1, 1);
      ConsistentUniform(g[1..], d, |g[0]|);
      if Rectangular(g) {
        forall i | 0 <= i < |g[1..]| ensures |g[1..][i]| == |g[0]| {
          assert g[1..][i] == g[i + 1];
        }
      }
      if forall i :: 0 <= i < |g[1..]| ==> |g[1..][i]| == |g[0]| {
        forall i | 0 <= i < |g| ensures |g[i]| == |g[0]| {
          if i > 0 { assert g[i] == g[1..][i - 1]; }
        }
      }
    }
  }

  // ---------------------------------------------------------------------
  // Cell addressing (getCellPtr) on a serialized grid

  lemma {:induction false} ScanSkip(a: seq<char>, b: seq<char>, d: char, row: int, col: int, cr: int, cc: int)
    requires '\n' !in a
    requires cr < row || cc + Count(a, d) < col
    ensures CellScan(a + b, d, row, col, cr, cc) == Shift(CellScan(b, d, row, col, cr, cc + Count(a, d)), |a|)
    decreases |a|
  {
    if a == [] {
      assert a + b == b;
    } else {
      var cc' := if a[0] == d then cc + 1 else cc;
      assert cc' + Count(a[1..], d) == cc + Count(a, d);
      assert a + b == [a[0]] + (a[1..] + b);
      ScanChar(a[0], a[1..] + b, d, row, col, cr, cc);
      ScanSkip(a[1..], b, d, row, col, cr, cc');
    }
  }

  /** One step of getCellPtr's loop over a byte that is not '\n'. */
  lemma ScanChar(x: char, b: seq<char>, d: char, row: int, col: int, cr: int, cc: int)
    requires x != '\n' && (cr < row || cc < col)
    ensures CellScan([x] + b, d, row, col, cr, cc) == Shift(CellScan(b, d, row, col, cr, if x == d then cc + 1 else cc), 1)
  {
    assert ([x] + b)[0] == x && ([x] + b)[1..] == b;
  }

  /** Scanning past a whole line of a row that is not the target row. */
  lemma ScanPastLine(a: seq<char>, rest: seq<char>, d: char, row: int, col: int, cr: int, cc: int)
    requires '\n' !in a && d != '\n' && cr < row
    ensures CellScan(a + ['\n'] + rest, d, row, col, cr, cc) == Shift(CellScan(rest, d, row, col, cr + 1, 1), |a| + 1)
  {
    assert a + ['\n'] + rest == a + (['\n'] + rest);
    ScanSkip(a, ['\n'] + rest, d, row, col, cr, cc);
    assert (['\n'] + rest)[1..] == rest;
  }

  lemma RowStartCons(g: Grid, d: char, k: nat)
    requires 1 <= k <= |g|
    ensures RowStart(g, d, k) == |Line(g[0], d)| + RowStart(g[1..], d, k - 1)
  {
    assert g[..k] == [g[0]] + g[1..][..k - 1];
    SerializeCons(g[0], g[1..][..k - 1], d);
  }

  lemma {:induction false} ScanToRow(g: Grid, d: char, row: int, col: int, cr: int)
    requires GoodDelimiter(d) && Clean(g, d)
    requires 1 <= cr <= row && row - cr <= |g|
    ensures CellScan(Serialize(g, d), d, row, col, cr, 1) ==
      Shift(CellScan(Serialize(g[row - cr..], d), d, row, col, row, 1), RowStart(g, d, row - cr))
    decreases row - cr
  {
    if cr < row {
      var x := CellScan(Serialize(g[row - cr..], d), d, row, col, row, 1);
      var l, r := |Line(g[0], d)|, RowStart(g[1..], d, row - cr - 1);
      assert CellScan(Serialize(g[1..], d), d, row, col, cr + 1, 1) == Shift(x, r) by {
        CleanTail(g, d);
        ScanToRow(g[1..], d, row, col, cr + 1);
        assert g[1..][row - cr - 1..] == g[row - cr..];
      }
      assert RowStart(g, d, row - cr) == l + r by {
        RowStartCons(g, d, row - cr);
      }
      ScanFirstLine(g, d, row, col, cr);
      ShiftAdd(x, r, l);
    } else {
      assert g[0..] == g;
      assert g[..0] == [];
    }
  }

  /** getCellPtr's loop past the first line of the text, before the target row. */
  lemma ScanFirstLine(g: Grid, d: char, row: int, col: int, cr: int)
    requires GoodDelimiter(d) && Clean(g, d) && g != [] && cr < row
    ensures CellScan(Serialize(g, d), d, row, col, cr, 1) ==
      Shift(CellScan(Serialize(g[1..], d), d, row, col, cr + 1, 1), |Line(g[0], d)|)
  {
    CleanRow(g, d, 0);
    SerializeCons(g[0], g[1..], d);
    assert [g[0]] + g[1..] == g;
    ScanPastLine(Join(g[0], d), Serialize(g[1..], d), d, row, col, cr, 1);
  }

  lemma ShiftAdd(o: Option<nat>, j: nat, k: nat)
    ensures Shift(Shift(o, j), k) == Shift(o, k + j)
  {
  }

  lemma {:induction false} ScanInRow(r: Row, rest: seq<char>, d: char, row: int, col: int, cc: int)
    requires GoodDelimiter(d) && Separated(r, d)
    requires forall i :: 0 <= i < |r| ==> '\n' !in r[i]
    requires cc <= col <= cc + |r|
    ensures CellScan(Join(r, d) + ['\n'] + rest, d, row, col, row, cc) == Some(CellPos(r, col - cc))
    decreases |r|
  {
    if col > cc {
      assert d !in r[0] && '\n' !in r[0];
      if |r| == 1 {
        assert Join(r, d) + ['\n'] + rest == r[0] + (['\n'] + rest);
        ScanSkip(r[0], ['\n'] + rest, d, row, col, row, cc);
        assert (['\n'] + rest)[0] == '\n';
      } else {
        var tail := Join(r[1..], d) + ['\n'] + rest;
        assert Join(r, d) + ['\n'] + rest == r[0] + ([d] + tail);
        ScanSkip(r[0], [d] + tail, d, row, col, row, cc);
        assert ([d] + tail)[0] == d && ([d] + tail)[1..] == tail;
        ScanInRow(r[1..], rest, d, row, col, cc + 1);
      }
    }
  }

  /**
   * getCellPtr on a serialized clean grid: for a row of the grid and a
   * column from 1 to one past its last cell, the offset is the row's start
   * plus the cell's position inside the row.
   */
  lemma CellOffsetInGrid(g: Grid, d: char, row: int, col: int)
    requires GoodDelimiter(d) && Clean(g, d)
    requires 1 <= row <= |g| && 1 <= col <= |g[row - 1]| + 1
    ensures CellOffset(Serialize(g, d), d, row, col) == Some(RowStart(g, d, row - 1) + CellPos(g[row - 1], col - 1))
  {
    ScanToRow(g, d, row, col, 1);
    var t := g[row - 1..];
    CleanRow(g, d, row - 1);
    assert t[0] == g[row - 1];
    SerializeCons(t[0], t[1..], d);
    assert [t[0]] + t[1..] == t;
    var r := g[row - 1];
    assert forall i :: 0 <= i < |r| ==> '\n' !in r[i];
    ScanInRow(g[row - 1], Serialize(t[1..], d), d, row, col, 1);
  }

  /** getCellPtr(rows + 1, 1) is the offset of the terminator. */
  lemma CellOffsetPastLastRow(g: Grid, d: char)
    requires GoodDelimiter(d) && Clean(g, d)
    ensures CellOffset(Serialize(g, d), d, |g| + 1, 1) == Some(|Serialize(g, d)|)
  {
    ScanToRow(g, d, |g| + 1, 1, 1);
    assert g[|g|..] == [];
    assert g[..|g|] == g;
  }

  lemma {:induction false} ScanPastEnd(g: Grid, d: char, row: int, col: int, cr: int)
    requires GoodDelimiter(d) && Clean(g, d)
    requires cr + |g| < row || (cr + |g| == row && col > 1)
    ensures CellScan(Serialize(g, d), d, row, col, cr, 1) == None
    decreases |g|
  {
    if g != [] {
      CleanRow(g, d, 0);
      CleanTail(g, d);
      SerializeCons(g[0], g[1..], d);
      assert [g[0]] + g[1..] == g;
      ScanPastLine(Join(g[0], d), Serialize(g[1..], d), d, row, col, cr, 1);
      ScanPastEnd(g[1..], d, row, col, cr + 1);
    }
  }

  /**
   * getCellPtr's loop from the target row on, when col lies more than one
   * past the end of every row left: no row's '\n' stops it and no later
   * row has that many cells, so it runs into the terminator.
   */
  lemma {:induction false} ScanPastWide(g: Grid, d: char, row: int, col: int, cr: int)
    requires GoodDelimiter(d) && Clean(g, d) && row <= cr && col > 2
    requires forall i :: 0 <= i < |g| ==> |g[i]| + 1 < col
    ensures CellScan(Serialize(g, d), d, row, col, cr, 1) == None
    decreases |g|
  {
    if g != [] {
      CleanRow(g, d, 0);
      CleanTail(g, d);
      CountJoin(g[0], d);
      var a, rest := Join(g[0], d), Serialize(g[1..], d);
      SerializeCons(g[0], g[1..], d);
      assert [g[0]] + g[1..] == g;
      assert a + ['\n'] + rest == a + (['\n'] + rest);
      ScanSkip(a, ['\n'] + rest, d, row, col, cr, 1);
      assert (['\n'] + rest)[0] == '\n' && (['\n'] + rest)[1..] == rest;
      ScanPastWide(g[1..], d, row, col, cr + 1);
    }
  }

  /** The rows of a clean grid from row k on are clean. */
  lemma CleanFrom(g: Grid, d: char, k: nat)
    requires Clean(g, d) && k <= |g|
    ensures Clean(g[k..], d)
  {
    forall i, j | 0 <= i < |g[k..]| && 0 <= j < |g[k..][i]|
      ensures d !in g[k..][i][j] && '\n' !in g[k..][i][j] && '\0' !in g[k..][i][j]
    {
      assert g[k..][i] == g[k + i];
    }
  }

  /**
   * getCellPtr returns NULL past the table: below row or column 1, beyond
   * the row after the last, in that row beyond its first column, and, on a
   * rectangular table, in any row more than one column past its last cell.
   */
  lemma CellOffsetOutside(g: Grid, d: char, row: int, col: int)
    requires GoodDelimiter(d) && Clean(g, d)
    requires row < 1 || col < 1 || row > |g| + 1 || (row == |g| + 1 && col > 1) ||
      (Rectangular(g) && 1 <= row <= |g| && col > |g[row - 1]| + 1)
    ensures CellOffset(Serialize(g, d), d, row, col) == None
  {
    if row < 1 || col < 1 {
    } else if row > |g| {
      ScanPastEnd(g, d, row, col, 1);
    } else {
      ScanToRow(g, d, row, col, 1);
      var t := g[row - 1..];
      CleanFrom(g, d, row - 1);
      assert forall i :: 0 <= i < |t| ==> |t[i]| == |g[row - 1 + i]| == |g[row - 1]|;
      ScanPastWide(t, d, row, col, row);
    }
  }
}
