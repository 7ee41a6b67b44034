/**
 * The structural and cell edits of sheet.c read on the grid view. Each
 * command changes the buffer by cutting bytes out of the text or splicing
 * bytes into it at an offset found by getCellPtr; the lemmas here show
 * which grid such a splice produces.
 */
module Edits {
  import opened SheetTypes
  import opened Text
  import opened Scan
  import opened GridView

  /** The row irow inserts: n empty cells. */
  function Blank(n: nat): (r: Row)
    requires n >= 1
    ensures |r| == n && forall i :: 0 <= i < n ==> r[i] == []
  {
    seq(n, _ => [])
  }

  /** The row with an empty cell inserted before cell c (0-based). */
  function InsertCell(r: Row, c: nat): (r': Row)
    requires c <= |r|
    ensures |r'| == |r| + 1 && r'[c] == []
  {
    r[..c] + [[]] + r[c..]
  }

  /** The row without cell c (0-based); a row keeps at least one cell. */
  function DeleteCell(r: Row, c: nat): (r': Row)
    requires c < |r| && |r| >= 2
    ensures |r'| == |r| - 1
    ensures forall i {:trigger r'[i]} :: 0 <= i < c ==> r'[i] == r[i]
    ensures forall i {:trigger r'[i]} :: c <= i < |r'| ==> r'[i] == r[i + 1]
  {
    r[..c] + r[c + 1..]
  }

  /** irow's grid edit: row r inserted before row k (0-based); k == |g| appends it. */
  function InsertRow(g: Grid, k: nat, r: Row): (g': Grid)
    requires k <= |g|
    ensures |g'| == |g| + 1 && g'[k] == r
    ensures forall i {:trigger g'[i]} :: 0 <= i < k ==> g'[i] == g[i]
    ensures forall i {:trigger g'[i]} :: k < i < |g'| ==> g'[i] == g[i - 1]
  {
    g[..k] + [r] + g[k..]
  }

  /** drow's grid edit: row k (0-based) removed. */
  function DeleteRow(g: Grid, k: nat): (g': Grid)
    requires k < |g|
    ensures |g'| == |g| - 1
    ensures forall i {:trigger g'[i]} :: 0 <= i < k ==> g'[i] == g[i]
    ensures forall i {:trigger g'[i]} :: k <= i < |g'| ==> g'[i] == g[i + 1]
  {
    g[..k] + g[k + 1..]
  }

  /** Bytes x..y of s replaced by t. */
  function Splice(s: seq<char>, x: nat, y: nat, t: seq<char>): (s': seq<char>)
    requires x <= y <= |s|
    ensures |s'| == |s| - (y - x) + |t|
  {
    s[..x] + t + s[y..]
  }

  /** A splice over the middle part of a text made of three parts. */
  lemma SpliceParts(s: seq<char>, a: seq<char>, m: seq<char>, b: seq<char>, t: seq<char>)
    requires s == a + m + b
    ensures Splice(s, |a|, |a| + |m|, t) == a + t + b
  {
    assert s[..|a|] == a;
    assert s[|a| + |m|..] == b;
  }

  /** A splice that inserts nothing only cuts. */
  lemma SpliceCut(s: seq<char>, x: nat, y: nat)
    requires x <= y <= |s|
    ensures Splice(s, x, y, []) == s[..x] + s[y..]
  {
    assert s[..x] + [] == s[..x];
  }

  /** A splice that only inserts t at the boundary between two parts. */
  lemma SpliceAt(s: seq<char>, a: seq<char>, b: seq<char>, t: seq<char>)
    requires s == a + b
    ensures Splice(s, |a|, |a|, t) == a + t + b
  {
    assert s[..|a|] == a;
    assert s[|a|..] == b;
  }

  // ---------------------------------------------------------------------
  // Joining cells

  lemma {:induction false} JoinAppend(a: Pieces, b: Pieces, d: char)
    ensures Join(a + b, d) == Join(a, d) + [d] + Join(b, d)
    decreases |a|
  {
    if |a| == 1 {
      assert (a + b)[1..] == b;
    } else {
      assert (a + b)[1..] == a[1..] + b;
      JoinAppend(a[1..], b, d);
    }
  }

  /** The text of a blank row n cells wide, as irow writes it: n - 1 delimiters, then '\n'. */
  function BlankLine(n: nat, d: char): (s: seq<char>)
    requires n >= 1
    ensures |s| == n && s[n - 1] == '\n'
    ensures forall i :: 0 <= i < n - 1 ==> s[i] == d
  {
    seq(n - 1, _ => d) + ['\n']
  }

  /** A blank row is written as irow writes it. */
  lemma {:induction false} JoinBlank(n: nat, d: char)
    requires n >= 1
    ensures Line(Blank(n), d) == BlankLine(n, d)
    decreases n
  {
    if n > 1 {
      assert Blank(n)[1..] == Blank(n - 1);
      JoinBlank(n - 1, d);
      assert Line(Blank(n), d) == [d] + Line(Blank(n - 1), d);
    }
  }

  /** Cell c starts just after the delimiter that ends the cells before it. */
  lemma {:induction false} CellPosPrefix(r: Row, d: char, c: nat)
    requires 1 <= c <= |r|
    ensures CellPos(r, c) == |Join(r[..c], d)| + (if c < |r| then 1 else 0)
    decreases c
  {
    if c > 1 {
      assert r[..c][1..] == r[1..][..c - 1];
      CellPosPrefix(r[1..], d, c - 1);
    } else {
      assert r[..1] == [r[0]];
    }
  }

  /** The joined text before cell c: the cells before it and the delimiter that ends them. */
  function Before(r: Row, d: char, c: nat): seq<char>
    requires c < |r|
  {
    if c == 0 then [] else Join(r[..c], d) + [d]
  }

  /** The joined text after cell c: a delimiter and the cells after it. */
  function After(r: Row, d: char, c: nat): seq<char>
    requires c < |r|
  {
    if c + 1 == |r| then [] else [d] + Join(r[c + 1..], d)
  }

  lemma JoinFrom(r: Row, d: char, c: nat)
    requires c < |r|
    ensures Join(r[c..], d) == r[c] + After(r, d, c)
  {
    var tail := r[c..];
    assert tail[0] == r[c] && tail[1..] == r[c + 1..];
  }

  /** Join(r) around cell c. */
  lemma JoinAround(r: Row, d: char, c: nat)
    requires c < |r|
    ensures Join(r, d) == Before(r, d, c) + r[c] + After(r, d, c)
  {
    if c == 0 {
      assert r[c..] == r;
      JoinFrom(r, d, c);
    } else {
      JoinSplitAt(r, d, c);
      JoinFrom(r, d, c);
    }
  }

  lemma JoinSplitAt(r: Row, d: char, c: nat)
    requires 0 < c < |r|
    ensures Join(r, d) == Join(r[..c], d) + [d] + Join(r[c..], d)
  {
    var x: Pieces, y: Pieces := r[..c], r[c..];
    assert r == x + y;
    JoinAppend(x, y, d);
  }

  /** Cell c's text starts CellPos(r, c) bytes into the joined row. */
  lemma BeforeLength(r: Row, d: char, c: nat)
    requires c < |r|
    ensures |Before(r, d, c)| == CellPos(r, c)
  {
    if c > 0 {
      CellPosPrefix(r, d, c);
    }
  }

  /** writeCell inside a row: splicing t over cell c's text sets that cell. */
  lemma JoinReplaceCell(r: Row, d: char, c: nat, t: seq<char>)
    requires c < |r|
    ensures CellPos(r, c) + |r[c]| <= |Join(r, d)|
    ensures Splice(Join(r, d), CellPos(r, c), CellPos(r, c) + |r[c]|, t) == Join(r[c := t], d)
  {
    JoinAround(r, d, c);
    BeforeLength(r, d, c);
    ReplaceAround(r, d, c, t);
    SpliceParts(Join(r, d), Before(r, d, c), r[c], After(r, d, c), t);
  }

  lemma ReplaceAround(r: Row, d: char, c: nat, t: seq<char>)
    requires c < |r|
    ensures Join(r[c := t], d) == Before(r, d, c) + t + After(r, d, c)
  {
    var r' := r[c := t];
    JoinAround(r', d, c);
    assert r'[..c] == r[..c];
    assert r'[c + 1..] == r[c + 1..];
  }

  /** icol inside a row: a delimiter spliced in at cell c's offset inserts an empty cell. */
  lemma JoinInsertEmpty(r: Row, d: char, c: nat)
    requires c <= |r|
    ensures CellPos(r, c) <= |Join(r, d)|
    ensures Splice(Join(r, d), CellPos(r, c), CellPos(r, c), [d]) == Join(InsertCell(r, c), d)
  {
    if c == |r| {
      InsertLast(r, d);
    } else {
      InsertInner(r, d, c);
    }
  }

  lemma InsertInner(r: Row, d: char, c: nat)
    requires c < |r|
    ensures CellPos(r, c) <= |Join(r, d)|
    ensures Splice(Join(r, d), CellPos(r, c), CellPos(r, c), [d]) == Join(InsertCell(r, c), d)
  {
    JoinAround(r, d, c);
    BeforeLength(r, d, c);
    JoinFrom(r, d, c);
    Regroup(Before(r, d, c), r[c], After(r, d, c), Join(r[c..], d));
    InsertAround(r, d, c);
    SpliceAt(Join(r, d), Before(r, d, c), Join(r[c..], d), [d]);
  }

  /** (x + y) + z is x + w when w is y + z. */
  lemma Regroup(x: seq<char>, y: seq<char>, z: seq<char>, w: seq<char>)
    requires w == y + z
    ensures x + y + z == x + w
  {
  }

  lemma InsertLast(r: Row, d: char)
    ensures CellPos(r, |r|) == |Join(r, d)|
    ensures Splice(Join(r, d), |Join(r, d)|, |Join(r, d)|, [d]) == Join(InsertCell(r, |r|), d)
  {
    CellPosPrefix(r, d, |r|);
    assert r[..|r|] == r;
    assert InsertCell(r, |r|) == r + [[]];
    JoinAppend(r, [[]], d);
    SpliceParts(Join(r, d), Join(r, d), [], [], [d]);
  }

  lemma InsertAround(r: Row, d: char, c: nat)
    requires c < |r|
    ensures Join(InsertCell(r, c), d) == Before(r, d, c) + [d] + Join(r[c..], d)
  {
    InsertedParts(r, d, c);
    EmptyCellAround(InsertCell(r, c), d, c, Before(r, d, c), Join(r[c..], d));
  }

  lemma InsertedParts(r: Row, d: char, c: nat)
    requires c < |r|
    ensures c > 0 ==> Join(InsertCell(r, c)[..c], d) == Join(r[..c], d)
    ensures Join(InsertCell(r, c)[c + 1..], d) == Join(r[c..], d)
  {
    var r' := InsertCell(r, c);
    assert r'[..c] == r[..c];
    assert r'[c + 1..] == r[c..];
  }

  /** Join around an empty cell c that is not the last. */
  lemma EmptyCellAround(r: Row, d: char, c: nat, b: seq<char>, a: seq<char>)
    requires c + 1 < |r| && r[c] == []
    requires c > 0 ==> Join(r[..c], d) + [d] == b
    requires c == 0 ==> b == []
    requires Join(r[c + 1..], d) == a
    ensures Join(r, d) == b + [d] + a
  {
    JoinAround(r, d, c);
  }

  /**
   * dcol inside a row, for a cell that is not the last: the cell's text
   * and the delimiter after it are cut out.
   */
  lemma JoinDeleteInner(r: Row, d: char, c: nat)
    requires c + 1 < |r|
    ensures CellPos(r, c) + |r[c]| < |Join(r, d)|
    ensures Join(r, d)[CellPos(r, c) + |r[c]|] == d
    ensures Splice(Join(r, d), CellPos(r, c), CellPos(r, c) + |r[c]| + 1, []) == Join(DeleteCell(r, c), d)
  {
    JoinAround(r, d, c);
    BeforeLength(r, d, c);
    var j, b, rest := Join(r, d), Before(r, d, c), Join(r[c + 1..], d);
    assert After(r, d, c) == [d] + rest;
    assert j == b + (r[c] + [d]) + rest;
    assert j[|b| + |r[c]|] == d;
    SpliceParts(j, b, r[c] + [d], rest, []);
    JoinDropCell(r, d, c);
  }

  lemma JoinDropCell(r: Row, d: char, c: nat)
    requires c + 1 < |r|
    ensures Join(DeleteCell(r, c), d) == Before(r, d, c) + [] + Join(r[c + 1..], d)
  {
    if c == 0 {
      assert DeleteCell(r, c) == r[1..];
    } else {
      JoinAppend(r[..c], r[c + 1..], d);
    }
  }

  /**
   * dcol inside a row, for its last cell: the delimiter before the cell
   * and the cell's text are cut out.
   */
  lemma JoinDeleteLast(r: Row, d: char, c: nat)
    requires c + 1 == |r| && c >= 1
    ensures CellPos(r, c) >= 1 && CellPos(r, c) + |r[c]| == |Join(r, d)|
    ensures Join(r, d)[CellPos(r, c) - 1] == d
    ensures Splice(Join(r, d), CellPos(r, c) - 1, CellPos(r, c) + |r[c]|, []) == Join(DeleteCell(r, c), d)
  {
    JoinAround(r, d, c);
    BeforeLength(r, d, c);
    var j, b := Join(r, d), Before(r, d, c);
    assert j[..|b|] == b;
    assert j[|b| - 1] == d;
    assert j[..|b| - 1] == Join(r[..c], d);
    assert DeleteCell(r, c) == r[..c];
  }

  /** The cell that starts at offset CellPos(r, c) is exactly r[c] long. */
  lemma CellLengthInRow(r: Row, d: char, c: nat, rest: seq<char>)
    requires c < |r| && Separated(r, d) && '\n' !in r[c] && '\0' !in r[c]
    ensures CellPos(r, c) + |r[c]| <= |Join(r, d)|
    ensures CellLength((Join(r, d) + ['\n'] + rest)[CellPos(r, c)..], d) == |r[c]|
    ensures (Join(r, d) + ['\n'] + rest)[CellPos(r, c)..CellPos(r, c) + |r[c]|] == r[c]
  {
    JoinAround(r, d, c);
    BeforeLength(r, d, c);
    var a := After(r, d, c);
    CellInLine(Before(r, d, c), r[c], a, rest);
    var t := (Join(r, d) + ['\n'] + rest)[CellPos(r, c)..];
    var n := |r[c]|;
    assert t[n] == (a + ['\n'] + rest)[0];
    assert t[n] == d || t[n] == '\n';
    forall i | 0 <= i < n ensures !EndOfCell(t[i], d) {
      assert t[i] == r[c][i];
    }
    CellLengthPrefix(t, d, n);
  }

  lemma CellInLine(b: seq<char>, v: seq<char>, a: seq<char>, rest: seq<char>)
    ensures (b + v + a + ['\n'] + rest)[|b|..] == v + (a + ['\n'] + rest)
    ensures (b + v + a + ['\n'] + rest)[|b|..|b| + |v|] == v
  {
    var u := b + v + a + ['\n'] + rest;
    assert u == b + (v + (a + ['\n'] + rest));
  }

  lemma {:induction false} CellLengthPrefix(t: seq<char>, d: char, n: nat)
    requires n <= |t| && (n < |t| ==> EndOfCell(t[n], d))
    requires forall i :: 0 <= i < n ==> !EndOfCell(t[i], d)
    ensures CellLength(t, d) == n
    decreases n
  {
    if n > 0 {
      CellLengthPrefix(t[1..], d, n - 1);
    }
  }

  // ---------------------------------------------------------------------
  // Edits of one row, on the whole text

  /** A splice inside row k's joined text is a splice of the whole text. */
  /** A splice inside row k+1's joined cells, at offsets u = RowStart + x and v = RowStart + y of the text. */
  lemma SpliceInRow(g: Grid, d: char, k: nat, x: nat, y: nat, t: seq<char>, r': Row, s: seq<char>, u: nat, v: nat)
    requires k < |g| && x <= y <= |Join(g[k], d)| && s == Serialize(g, d)
    requires Splice(Join(g[k], d), x, y, t) == Join(r', d)
    requires u == RowStart(g, d, k) + x && v == RowStart(g, d, k) + y
    ensures u <= v <= |s| && Splice(s, u, v, t) == Serialize(g[k := r'], d)
  {
    var a, b := Serialize(g[..k], d), Serialize(g[k + 1..], d);
    assert s == a + (Join(g[k], d) + ['\n']) + b by { SerializeAt(g, d, k); }
    assert Serialize(g[k := r'], d) == a + (Join(r', d) + ['\n']) + b by { ReplaceRowParts(g, d, k, r'); }
    SpliceNested(a, Join(g[k], d), b, x, y, t, s);
  }

  lemma ReplaceRowParts(g: Grid, d: char, k: nat, r': Row)
    requires k < |g|
    ensures Serialize(g[k := r'], d) == Serialize(g[..k], d) + Line(r', d) + Serialize(g[k + 1..], d)
  {
    var g' := g[k := r'];
    SerializeAt(g', d, k);
    assert g'[..k] == g[..k] && g'[k + 1..] == g[k + 1..];
  }

  lemma SpliceNested(a: seq<char>, j: seq<char>, b: seq<char>, x: nat, y: nat, t: seq<char>, s: seq<char>)
    requires x <= y <= |j| && s == a + (j + ['\n']) + b
    ensures |a| + y <= |s|
    ensures Splice(s, |a| + x, |a| + y, t) == a + (Splice(j, x, y, t) + ['\n']) + b
  {
    assert s[..|a| + x] == a + j[..x];
    assert s[|a| + y..] == j[y..] + ['\n'] + b;
  }

  lemma ThreeParts(a: seq<char>, j: seq<char>, b: seq<char>, x: nat, y: nat)
    requires x <= y <= |j|
    ensures a + j + b == (a + j[..x]) + j[x..y] + (j[y..] + b)
    ensures j == j[..x] + j[x..y] + j[y..]
  {
    assert j == j[..x] + j[x..y] + j[y..];
  }

  /** Row k of a clean grid, read at cell c, through getCellPtr. */
  lemma CellInText(g: Grid, d: char, k: nat, c: nat, s: seq<char>) returns (p: nat, n: nat)
    requires GoodDelimiter(d) && Clean(g, d) && k < |g| && c < |g[k]| && s == Serialize(g, d)
    ensures p == RowStart(g, d, k) + CellPos(g[k], c) && n == |g[k][c]|
    ensures CellOffset(s, d, k + 1, c + 1) == Some(p)
    ensures p + n <= |s| && CellLength(s[p..], d) == n && s[p..p + n] == g[k][c]
  {
    p, n := CellBytes(g, d, k, c, s);
    CellOffsetInGrid(g, d, k + 1, c + 1);
  }

  lemma CellBytes(g: Grid, d: char, k: nat, c: nat, s: seq<char>) returns (p: nat, n: nat)
    requires GoodDelimiter(d) && Clean(g, d) && k < |g| && c < |g[k]| && s == Serialize(g, d)
    ensures p == RowStart(g, d, k) + CellPos(g[k], c) && n == |g[k][c]|
    ensures p + n <= |s| && CellLength(s[p..], d) == n && s[p..p + n] == g[k][c]
  {
    var a, b := Serialize(g[..k], d), Serialize(g[k + 1..], d);
    SerializeAt(g, d, k);
    CleanRow(g, d, k);
    p, n := CellInLineText(a, g[k], b, d, c, s);
  }

  lemma CellInLineText(a: seq<char>, r: Row, b: seq<char>, d: char, c: nat, s: seq<char>) returns (p: nat, n: nat)
    requires c < |r| && Separated(r, d) && '\n' !in r[c] && '\0' !in r[c] && s == a + Line(r, d) + b
    ensures p == |a| + CellPos(r, c) && n == |r[c]|
    ensures p + n <= |s| && CellLength(s[p..], d) == n && s[p..p + n] == r[c]
  {
    var x := CellPos(r, c);
    p, n := |a| + x, |r[c]|;
    CellLengthInRow(r, d, c, b);
    CellTextAt(a, Line(r, d), b, x, n);
    CellLengthShift(s, a, Line(r, d), b, x, n, d);
  }

  lemma CellLengthShift(s: seq<char>, a: seq<char>, l: seq<char>, b: seq<char>, x: nat, n: nat, d: char)
    requires s == a + l + b && x <= |l + b| && CellLength((l + b)[x..], d) == n
    ensures CellLength(s[|a| + x..], d) == n
  {
    CellTextAt(a, l, b, x, 0);
  }

  lemma CellTextAt(a: seq<char>, l: seq<char>, b: seq<char>, x: nat, n: nat)
    requires x + n <= |l + b|
    ensures (a + l + b)[|a| + x..] == (l + b)[x..]
    ensures (a + l + b)[|a| + x..|a| + x + n] == (l + b)[x..x + n]
  {
    assert a + l + b == a + (l + b);
  }

  /** writeCell's splice at cell (k+1, c+1) of a clean grid sets that cell. */
  lemma WriteInGrid(g: Grid, d: char, k: nat, c: nat, t: seq<char>, s: seq<char>, p: nat, n: nat)
    requires k < |g| && c < |g[k]| && s == Serialize(g, d)
    requires p == RowStart(g, d, k) + CellPos(g[k], c) && n == |g[k][c]|
    ensures p + n <= |s| && Splice(s, p, p + n, t) == Serialize(g[k := g[k][c := t]], d)
  {
    JoinReplaceCell(g[k], d, c, t);
    SpliceInRow(g, d, k, CellPos(g[k], c), CellPos(g[k], c) + |g[k][c]|, t, g[k][c := t], s, p, p + n);
  }

  /** icol's splice in row k+1 at column c+1 inserts an empty cell there. */
  lemma InsertInGrid(g: Grid, d: char, k: nat, c: nat, s: seq<char>, p: nat)
    requires GoodDelimiter(d) && Clean(g, d) && k < |g| && c <= |g[k]| && s == Serialize(g, d)
    requires p == RowStart(g, d, k) + CellPos(g[k], c)
    ensures CellOffset(s, d, k + 1, c + 1) == Some(p)
    ensures p <= |s| && Splice(s, p, p, [d]) == Serialize(g[k := InsertCell(g[k], c)], d)
  {
    var a := CellPos(g[k], c);
    assert CellOffset(s, d, k + 1, c + 1) == Some(p) by {
      CellOffsetInGrid(g, d, k + 1, c + 1);
    }
    assert a <= |Join(g[k], d)| && Splice(Join(g[k], d), a, a, [d]) == Join(InsertCell(g[k], c), d) by {
      JoinInsertEmpty(g[k], d, c);
    }
    SpliceInRow(g, d, k, a, a, [d], InsertCell(g[k], c), s, p, p);
  }

  /** The byte at offset x of row k+1's line, read in the whole text. */
  lemma ByteInRow(g: Grid, d: char, k: nat, x: nat, s: seq<char>)
    requires k < |g| && x < |Line(g[k], d)| && s == Serialize(g, d)
    ensures RowStart(g, d, k) + x < |s| && s[RowStart(g, d, k) + x] == Line(g[k], d)[x]
  {
    SerializeAt(g, d, k);
  }

  /** dcol in row k+1 at a column c+1 before the last: a delimiter follows the cell. */
  lemma DelimiterAfterCell(g: Grid, d: char, k: nat, c: nat, s: seq<char>, p: nat, n: nat)
    requires k < |g| && c + 1 < |g[k]| && s == Serialize(g, d)
    requires p == RowStart(g, d, k) + CellPos(g[k], c) && n == |g[k][c]|
    ensures p + n < |s| && s[p + n] == d
  {
    var x := CellPos(g[k], c) + n;
    assert x < |Join(g[k], d)| && Line(g[k], d)[x] == d by {
      JoinDeleteInner(g[k], d, c);
    }
    ByteInRow(g, d, k, x, s);
  }

  /** dcol in row k+1 at a column c+1 before the last: the cell and the delimiter after it go. */
  lemma DeleteInnerInGrid(g: Grid, d: char, k: nat, c: nat, s: seq<char>, p: nat, n: nat)
    requires k < |g| && c + 1 < |g[k]| && s == Serialize(g, d)
    requires p == RowStart(g, d, k) + CellPos(g[k], c) && n == |g[k][c]|
    ensures p + n + 1 <= |s| && Splice(s, p, p + n + 1, []) == Serialize(g[k := DeleteCell(g[k], c)], d)
  {
    JoinDeleteInner(g[k], d, c);
    SpliceInRow(g, d, k, CellPos(g[k], c), CellPos(g[k], c) + |g[k][c]| + 1, [], DeleteCell(g[k], c), s, p, p + n + 1);
  }

  /** dcol in row k+1 at its last column c+1: the row's '\n' follows the cell. */
  lemma NewlineAfterLastCell(g: Grid, d: char, k: nat, c: nat, s: seq<char>, p: nat, n: nat)
    requires k < |g| && c + 1 == |g[k]| && c >= 1 && s == Serialize(g, d)
    requires p == RowStart(g, d, k) + CellPos(g[k], c) && n == |g[k][c]|
    ensures p >= 1 && p + n < |s| && s[p + n] == '\n'
  {
    var x := CellPos(g[k], c) + n;
    assert CellPos(g[k], c) >= 1 && x == |Join(g[k], d)| by {
      JoinDeleteLast(g[k], d, c);
    }
    ByteInRow(g, d, k, x, s);
  }

  /** dcol in row k+1 at its last column c+1: the delimiter before the cell and the cell go. */
  lemma DeleteLastInGrid(g: Grid, d: char, k: nat, c: nat, s: seq<char>, p: nat, n: nat)
    requires k < |g| && c + 1 == |g[k]| && c >= 1 && s == Serialize(g, d)
    requires p == RowStart(g, d, k) + CellPos(g[k], c) && n == |g[k][c]|
    ensures p >= 1 && p + n <= |s| && Splice(s, p - 1, p + n, []) == Serialize(g[k := DeleteCell(g[k], c)], d)
  {
    JoinDeleteLast(g[k], d, c);
    SpliceInRow(g, d, k, CellPos(g[k], c) - 1, CellPos(g[k], c) + |g[k][c]|, [], DeleteCell(g[k], c), s, p - 1, p + n);
  }

  // ---------------------------------------------------------------------
  // Whole rows

  /** getCellPtr(row, 1) is where row `row` starts, also for the row after the last. */
  lemma RowOffset(g: Grid, d: char, k: nat)
    requires GoodDelimiter(d) && Clean(g, d) && k <= |g|
    ensures CellOffset(Serialize(g, d), d, k + 1, 1) == Some(RowStart(g, d, k))
  {
    if k < |g| {
      CellOffsetInGrid(g, d, k + 1, 1);
    } else {
      CellOffsetPastLastRow(g, d);
      assert g[..k] == g;
    }
  }

  /** irow's splice: n - 1 delimiters and a '\n' at the start of row k+1 insert a blank row. */
  lemma InsertRowText(g: Grid, d: char, k: nat, n: nat, s: seq<char>) returns (p: nat)
    requires k <= |g| && n >= 1 && s == Serialize(g, d)
    ensures p == RowStart(g, d, k) && p <= |s|
    ensures Splice(s, p, p, BlankLine(n, d)) == Serialize(InsertRow(g, k, Blank(n)), d)
  {
    p := RowStart(g, d, k);
    assert g == g[..k] + g[k..];
    SerializeAppend(g[..k], g[k..], d);
    SerializeAppend(g[..k] + [Blank(n)], g[k..], d);
    SerializeAppend(g[..k], [Blank(n)], d);
    JoinBlank(n, d);
    assert Serialize([Blank(n)], d) == Line(Blank(n), d) by {
      assert [Blank(n)][1..] == [];
    }
    assert s[..p] == Serialize(g[..k], d);
    assert s[p..] == Serialize(g[k..], d);
  }

  /** drow's cut: the bytes of row k+1 and its '\n' removed delete that row. */
  lemma DeleteRowText(g: Grid, d: char, k: nat, s: seq<char>) returns (p: nat, n: nat)
    requires k < |g| && s == Serialize(g, d)
    ensures p == RowStart(g, d, k) && n == |Line(g[k], d)| && p + n <= |s|
    ensures Splice(s, p, p + n, []) == Serialize(DeleteRow(g, k), d)
  {
    p, n := RowStart(g, d, k), |Line(g[k], d)|;
    SerializeAt(g, d, k);
    SerializeAppend(g[..k], g[k + 1..], d);
    var a, b := Serialize(g[..k], d), Serialize(g[k + 1..], d);
    SpliceParts(s, a, Line(g[k], d), b, []);
    assert a + [] + b == Serialize(DeleteRow(g, k), d);
  }

  /** drow's length loop: the first '\n' of row k+1 ends its line. */
  lemma RowLineLength(g: Grid, d: char, k: nat, s: seq<char>) returns (p: nat, n: nat)
    requires GoodDelimiter(d) && Clean(g, d) && k < |g| && s == Serialize(g, d)
    ensures p == RowStart(g, d, k) && n == |Line(g[k], d)| && 1 <= n && p + n <= |s|
    ensures s[p + n - 1] == '\n' && forall i :: p <= i < p + n - 1 ==> s[i] != '\n'
  {
    p, n := RowStart(g, d, k), |Line(g[k], d)|;
    SerializeAt(g, d, k);
    CleanRow(g, d, k);
    var a, b := Serialize(g[..k], d), Serialize(g[k + 1..], d);
    var j := Join(g[k], d);
    assert s == a + j + ['\n'] + b;
    forall i | |a| <= i < |a| + |j| ensures s[i] != '\n' {
      assert s[i] == j[i - |a|];
    }
  }

  /** irow then drow at the same row gives back the grid. */
  lemma InsertThenDeleteRow(g: Grid, k: nat, r: Row)
    requires k <= |g|
    ensures DeleteRow(InsertRow(g, k, r), k) == g
  {
    var g' := InsertRow(g, k, r);
    assert g'[..k] == g[..k];
    assert g'[k + 1..] == g[k..];
  }

  /** drow, then putting the row back where it was, gives back the grid. */
  lemma DeleteThenInsertRow(g: Grid, k: nat)
    requires k < |g|
    ensures InsertRow(DeleteRow(g, k), k, g[k]) == g
  {
    var g' := DeleteRow(g, k);
    assert g'[..k] == g[..k];
    assert g'[k..] == g[k + 1..];
    assert g == g[..k] + [g[k]] + g[k + 1..];
  }

  /** arow: inserting after the last row appends. */
  lemma InsertRowLast(g: Grid, r: Row)
    ensures InsertRow(g, |g|, r) == g + [r]
  {
    assert g[|g|..] == [];
  }

  /** drows' step: with rows a..b-1 gone, deleting row a removes row b as well. */
  lemma DeleteRowRange(g: Grid, h: Grid, h': Grid, m: int, i: int)
    requires 1 <= m <= i && i - 1 <= |g| && h == g[..m - 1] + g[i - 1..]
    requires m <= |h| && h' == DeleteRow(h, m - 1)
    ensures i <= |g| && h' == g[..m - 1] + g[i..]
  {
    assert h[..m - 1] == g[..m - 1];
    assert h[m..] == g[i..];
  }

  /** drows has run out of rows once row m is past the end. */
  lemma DeleteRowRangeEnd(g: Grid, h: Grid, m: int, i: int)
    requires 1 <= m <= i && i - 1 <= |g| && m - 1 <= |g| && h == g[..m - 1] + g[i - 1..]
    requires m > |h|
    ensures h == g[..m - 1]
  {
  }

  /** A blank row as wide as the others keeps the grid rectangular. */
  lemma RectangularInsertRow(g: Grid, k: nat, n: nat)
    requires Rectangular(g) && g != [] && k <= |g| && n == |g[0]|
    ensures Rectangular(InsertRow(g, k, Blank(n))) && Width(InsertRow(g, k, Blank(n))) == n
  {
    var g' := InsertRow(g, k, Blank(n));
    assert |g'[0]| == n by {
      if k > 0 { assert g'[0] == g[0]; }
    }
  }

  /** Removing a row keeps the grid rectangular and, if rows remain, as wide. */
  lemma RectangularDeleteRow(g: Grid, k: nat)
    requires Rectangular(g) && k < |g|
    ensures Rectangular(DeleteRow(g, k))
    ensures |g| > 1 ==> Width(DeleteRow(g, k)) == Width(g)
  {
    var g' := DeleteRow(g, k);
    if |g'| > 0 {
      assert |g'[0]| == |g[0]| by {
        if k > 0 { assert g'[0] == g[0]; } else { assert g'[0] == g[1]; }
      }
    }
  }

  /** Rows cut out of a rectangular grid leave it rectangular. */
  lemma RectangularCut(g: Grid, a: nat, b: nat)
    requires Rectangular(g) && a <= b <= |g|
    ensures Rectangular(g[..a] + g[b..])
  {
    var h := g[..a] + g[b..];
    forall i | 0 <= i < |h|
      ensures |h[i]| == |h[0]|
    {
      assert h[i] == g[if i < a then i else i + b - a];
      assert h[0] == g[if 0 < a then 0 else b];
    }
  }

  // ---------------------------------------------------------------------
  // Whole columns

  /** icol after its first j rows: an empty cell at index c of each of them. */
  function InsertColumn(g: Grid, c: nat, j: nat): (g': Grid)
    requires j <= |g| && forall i :: 0 <= i < j ==> c <= |g[i]|
    ensures |g'| == |g|
    ensures forall i {:trigger g'[i]} :: 0 <= i < j ==> g'[i] == InsertCell(g[i], c)
    ensures forall i {:trigger g'[i]} :: j <= i < |g| ==> g'[i] == g[i]
    decreases j
  {
    if j == 0 then g else InsertColumn(g, c, j - 1)[j - 1 := InsertCell(g[j - 1], c)]
  }

  /** dcol after its first j rows: cell c removed from each of them. */
  function DeleteColumn(g: Grid, c: nat, j: nat): (g': Grid)
    requires j <= |g| && forall i :: 0 <= i < j ==> c < |g[i]| && |g[i]| >= 2
    ensures |g'| == |g|
    ensures forall i {:trigger g'[i]} :: 0 <= i < j ==> g'[i] == DeleteCell(g[i], c)
    ensures forall i {:trigger g'[i]} :: j <= i < |g| ==> g'[i] == g[i]
    decreases j
  {
    if j == 0 then g else DeleteColumn(g, c, j - 1)[j - 1 := DeleteCell(g[j - 1], c)]
  }

  /** dcols after k passes from column c: cells c..c+k-1 gone from every row. */
  function CutColumns(g: Grid, c: nat, k: nat): (g': Grid)
    requires forall i :: 0 <= i < |g| ==> c + k <= |g[i]| && k < |g[i]|
    ensures |g'| == |g|
    ensures forall i {:trigger g'[i]} :: 0 <= i < |g| ==> g'[i] == g[i][..c] + g[i][c + k..]
  {
    if g == [] then [] else [g[0][..c] + g[0][c + k..]] + CutColumns(g[1..], c, k)
  }

  /** Width of a rectangular grid: every row as long as the first. */
  function Width(g: Grid): nat
  {
    if g == [] then 0 else |g[0]|
  }

  /** icol on every row of a rectangular grid: one column more, still rectangular. */
  lemma RectangularInsertColumn(g: Grid, c: nat)
    requires Rectangular(g) && g != [] && c <= Width(g)
    ensures Rectangular(InsertColumn(g, c, |g|)) && Width(InsertColumn(g, c, |g|)) == Width(g) + 1
  {
  }

  /** dcol on every row of a rectangular grid: one column less, still rectangular. */
  lemma RectangularDeleteColumn(g: Grid, c: nat)
    requires Rectangular(g) && g != [] && c < Width(g) && Width(g) >= 2
    ensures Rectangular(DeleteColumn(g, c, |g|)) && Width(DeleteColumn(g, c, |g|)) == Width(g) - 1
  {
  }

  /** Cutting no column leaves the grid as it is. */
  lemma CutNoColumn(g: Grid, c: nat)
    requires forall i :: 0 <= i < |g| ==> c <= |g[i]|
    ensures CutColumns(g, c, 0) == g
  {
    forall i | 0 <= i < |g| ensures CutColumns(g, c, 0)[i] == g[i] {
      assert g[i][..c] + g[i][c..] == g[i];
    }
  }

  /** A cut of k columns from a rectangular grid: k columns fewer, still rectangular. */
  lemma RectangularCutColumns(g: Grid, c: nat, k: nat)
    requires Rectangular(g) && g != [] && c + k <= Width(g) && k < Width(g)
    ensures Rectangular(CutColumns(g, c, k)) && Width(CutColumns(g, c, k)) == Width(g) - k
  {
  }

  /** One more dcol at column c after a cut of k columns there cuts k + 1. */
  lemma {:induction false} DeleteCutColumn(g: Grid, c: nat, k: nat)
    requires Rectangular(g) && g != [] && c + k < Width(g) && Width(g) - k >= 2
    ensures DeleteColumn(CutColumns(g, c, k), c, |g|) == CutColumns(g, c, k + 1)
  {
    var h := CutColumns(g, c, k);
    forall i | 0 <= i < |g| ensures DeleteColumn(h, c, |g|)[i] == CutColumns(g, c, k + 1)[i] {
      var r := g[i];
      assert h[i] == r[..c] + r[c + k..];
      assert DeleteCell(h[i], c) == r[..c] + r[c + k + 1..];
    }
  }

  // ---------------------------------------------------------------------
  // Grid edits keep cells clean

  /** A cell text that fits in a table with delimiter d. */
  predicate CleanCell(t: seq<char>, d: char)
  {
    d !in t && '\n' !in t && '\0' !in t
  }

  lemma CleanSetCell(g: Grid, d: char, k: nat, c: nat, t: seq<char>)
    requires Clean(g, d) && k < |g| && c < |g[k]| && CleanCell(t, d)
    ensures Clean(g[k := g[k][c := t]], d)
  {
  }

  lemma CleanInsertRow(g: Grid, d: char, k: nat, n: nat)
    requires Clean(g, d) && k <= |g| && n >= 1
    ensures Clean(InsertRow(g, k, Blank(n)), d)
  {
  }

  lemma CleanDeleteRow(g: Grid, d: char, k: nat)
    requires Clean(g, d) && k < |g|
    ensures Clean(DeleteRow(g, k), d)
  {
  }

  lemma CleanInsertColumn(g: Grid, d: char, c: nat, j: nat)
    requires Clean(g, d) && j <= |g| && forall i :: 0 <= i < j ==> c <= |g[i]|
    ensures Clean(InsertColumn(g, c, j), d)
  {
    var g' := InsertColumn(g, c, j);
    forall i, k | 0 <= i < j && 0 <= k < |g'[i]| ensures CleanCell(g'[i][k], d) {
      var r := g[i];
      if k > c { assert g'[i][k] == r[k - 1]; } else if k < c { assert g'[i][k] == r[k]; }
    }
  }

  lemma CleanDeleteColumn(g: Grid, d: char, c: nat, j: nat)
    requires Clean(g, d) && j <= |g| && forall i :: 0 <= i < j ==> c < |g[i]| && |g[i]| >= 2
    ensures Clean(DeleteColumn(g, c, j), d)
  {
    var g' := DeleteColumn(g, c, j);
    forall i, k | 0 <= i < j && 0 <= k < |g'[i]| ensures CleanCell(g'[i][k], d) {
      if k >= c { assert g'[i][k] == g[i][k + 1]; } else { assert g'[i][k] == g[i][k]; }
    }
  }
}
