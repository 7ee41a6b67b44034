/**
 * The table of sheet.c: a fixed buffer of MAX_LINE_LENGTH bytes holding
 * the table text and its '\0' terminator, the delimiter, and the row
 * selection flags (index 0 unused). `len` is the index of the terminator,
 * the value the source obtains with strlen.
 */
module Sheet {
  import opened SheetTypes
  import opened Text
  import opened Scan
  import opened GridView
  import opened Edits
  import opened TableText
  import opened Columns

  /** drows after deleting rows m..i-1 of g, when row m exists. */
  ghost predicate DrowsAfter(g: Grid, m: int, i: int, h: Grid)
  {
    1 <= m <= |g| ==> m <= i && i - 1 <= |g| && h == g[..m - 1] + g[i - 1..]
  }

  /** What dcol answers on a table w columns wide: range first, then the only column. */
  function DcolOutcome(w: int, col: int): State
  {
    if col < 1 || col > w then ErrOutOfRange
    else if w == 1 then ErrTableEmpty
    else Success
  }

  /**
   * How many columns dcols can cut from column m (1 <= m <= w) of a table
   * w columns wide before dcol refuses: at column 1 all but one, further
   * right every column from m on.
   */
  function DcolsReach(w: int, m: int): int
  {
    if m == 1 then w - 1 else w - m + 1
  }

  /**
   * What dcols m n answers on a table w columns wide: ErrBadSyntax for
   * n < m; otherwise the answer of the first refusing dcol, if one of the
   * n - m + 1 passes comes to it.
   */
  function DcolsOutcome(w: int, m: int, n: int): State
  {
    if n < m then ErrBadSyntax
    else if m < 1 || m > w then DcolOutcome(w, m)
    else if n - m + 1 <= DcolsReach(w, m) then Success
    else DcolOutcome(w - DcolsReach(w, m), m)
  }

  /** dcols after k passes at column m of g reads h: untouched when m is out of range. */
  ghost predicate DcolsAfter(g: Grid, m: int, k: nat, h: Grid)
  {
    Rectangular(g) && g != [] &&
    if 1 <= m <= Width(g) then k <= DcolsReach(Width(g), m) && h == CutColumns(g, m - 1, k)
    else k == 0 && h == g
  }

  /** One more successful dcol at column m takes dcols from k passes to next. */
  lemma DcolsPass(g: Grid, m: int, k: nat, next: nat, h: Grid, h': Grid)
    requires DcolsAfter(g, m, k, h) && 1 <= m <= Width(g) - k && Width(g) - k >= 2 && next == k + 1
    requires Rectangular(h) && |h| == |g| && h' == DeleteColumn(h, m - 1, |h|)
    ensures DcolsAfter(g, m, next, h')
  {
    DeleteCutColumn(g, m - 1, k);
  }

  /** dcols after its n - m + 1 passes (stated for the solver's sake: k is that count). */
  lemma AllPassesDone(g: Grid, m: int, n: int, k: nat, h: Grid)
    requires DcolsAfter(g, m, k, h) && 1 <= m <= n && m <= Width(g) && k == n - m + 1
    ensures DcolsOutcome(Width(g), m, n) == Success && h == CutColumns(g, m - 1, n - m + 1)
  {
  }

  /** A refusing pass of dcols, pass k of at most n - m + 1, gives dcols' answer. */
  lemma RefusedPass(g: Grid, m: int, n: int, k: nat, h: Grid, st: State)
    requires DcolsAfter(g, m, k, h) && k <= n - m && st == DcolOutcome(Width(g) - k, m) && st != Success
    requires 1 <= m <= Width(g) ==> k == DcolsReach(Width(g), m)
    ensures st == DcolsOutcome(Width(g), m, n)
    ensures 1 <= m <= Width(g) ==> h == CutColumns(g, m - 1, DcolsReach(Width(g), m))
  {
  }

  /** No byte before the first '\0' at n is a '\0'. */
  lemma NoTerminatorBefore(s: seq<char>, n: nat, x: nat)
    requires x <= n <= |s| && '\0' !in s[..n]
    ensures x < n ==> s[x] != '\0'
  {
    if x < n {
      assert s[..n][x] == s[x];
    }
  }

  /** The buffer after shiftData's cutting loop, read as slices. */
  lemma CutSlices(before: seq<char>, after: seq<char>, p: nat, k: nat, n: nat)
    requires p + k <= n <= |after| == |before|
    requires forall j {:trigger after[j]} :: 0 <= j < n - k ==> after[j] == (if p <= j then before[j + k] else before[j])
    ensures after[..n - k] == before[..n][..p] + before[..n][p + k..]
  {
    var x, y := after[..n - k], before[..n][..p] + before[..n][p + k..];
    assert |x| == |y|;
    forall j | 0 <= j < n - k ensures x[j] == y[j] {
      assert x[j] == after[j];
      if j < p {
        assert y[j] == before[..n][..p][j] == before[j];
      } else {
        assert y[j] == before[..n][p + k..][j - p] == before[j + k];
      }
    }
  }

  /** The buffer after writeCell's copy loop, read as slices. */
  lemma PutSlices(before: seq<char>, after: seq<char>, p: nat, t: seq<char>, n: nat)
    requires p + |t| <= n <= |after| == |before|
    requires forall j {:trigger after[j]} :: 0 <= j < |after| ==> after[j] == (if p <= j < p + |t| then t[j - p] else before[j])
    ensures after[..n] == before[..n][..p] + t + before[..n][p + |t|..]
  {
    var x, y := after[..n], before[..n][..p] + t + before[..n][p + |t|..];
    assert |x| == |y|;
    forall j | 0 <= j < n ensures x[j] == y[j] {
      if j < p {
        assert y[j] == before[j];
      } else if j < p + |t| {
        assert y[j] == t[j - p];
      } else {
        assert y[j] == before[j];
      }
    }
  }

  /** The buffer after irow's fill loop, read as slices. */
  lemma BlankSlices(before: seq<char>, after: seq<char>, p: nat, w: nat, n: nat, d: char)
    requires w >= 1 && p + w <= n <= |after| == |before|
    requires forall j {:trigger after[j]} :: 0 <= j < |after| ==>
      after[j] == (if p <= j < p + w - 1 then d else if j == p + w - 1 then '\n' else before[j])
    ensures after[..n] == before[..n][..p] + BlankLine(w, d) + before[..n][p + w..]
  {
    var x, y := after[..n], before[..n][..p] + BlankLine(w, d) + before[..n][p + w..];
    assert |x| == |y|;
    forall j | 0 <= j < n ensures x[j] == y[j] {
      if j < p {
        assert y[j] == before[j];
      } else if j < p + w {
        assert y[j] == BlankLine(w, d)[j - p];
      } else {
        assert y[j] == before[j];
      }
    }
  }

  /** A byte written into the gap a one-byte shift opened at p. */
  lemma InsertedByte(o: seq<char>, before: seq<char>, after: seq<char>, n: nat, p: nat, x: char)
    requires p < n <= |before| && n == |o| + 1 && after == before[p := x]
    requires before[..n][..p] == o[..p] && before[..n][p + 1..] == o[p..]
    ensures after[..n] == Splice(o, p, p, [x])
  {
    var y := Splice(o, p, p, [x]);
    assert |after[..n]| == |y|;
    forall j | 0 <= j < n ensures after[..n][j] == y[j] {
      if j < p {
        assert y[j] == o[..p][j] == before[..n][..p][j];
      } else if j > p {
        assert y[j] == o[p..][j - p - 1] == before[..n][p + 1..][j - p - 1];
      }
    }
  }

  /** Two buffers that agree on their first m bytes agree on any shorter prefix of their texts. */
  lemma PrefixAgree(a: seq<char>, b: seq<char>, m: nat, la: nat, lb: nat, p: nat)
    requires m <= |a| && m <= |b| && a[..m] == b[..m]
    requires p <= m && p <= la <= |a| && p <= lb <= |b|
    ensures a[..la][..p] == b[..lb][..p]
  {
    assert a[..la][..p] == a[..m][..p];
    assert b[..lb][..p] == b[..m][..p];
  }

  /** The buffer after shiftData's gap-opening loop, read as slices. */
  lemma GapSlices(before: seq<char>, after: seq<char>, p: nat, shift: nat, n: nat)
    requires p <= n && n + shift <= |after| == |before|
    requires forall j {:trigger after[j]} :: 0 <= j < p + shift ==> after[j] == before[j]
    requires forall j {:trigger after[j]} :: p + shift <= j < n + shift ==> after[j] == before[j - shift]
    ensures after[..p + shift] == before[..p + shift]
    ensures after[..n + shift][p + shift..] == before[..n][p..]
  {
    var x, y := after[..n + shift][p + shift..], before[..n][p..];
    assert |x| == |y|;
    forall j | 0 <= j < |x| ensures x[j] == y[j] {
      assert x[j] == after[p + shift + j];
    }
  }

  /**
   * upperLine: raises the ASCII lower-case letters of the text in buffer,
   * visiting every byte up to and including its terminator at n.
   */
  method UpperLine(buffer: array<char>, ghost n: nat)
    requires n < buffer.Length && buffer[n] == '\0' && '\0' !in buffer[..n]
    modifies buffer
    ensures buffer[..n] == Upper(old(buffer[..n]))
    ensures buffer[n..] == old(buffer[n..])
  {
    var i := 0;
    while true
      invariant 0 <= i <= n
      invariant forall j :: 0 <= j < i ==> buffer[j] == UpperChar(old(buffer[j]))
      invariant forall j :: i <= j < buffer.Length ==> buffer[j] == old(buffer[j])
      decreases n - i
    {
      if 'a' <= buffer[i] <= 'z' {
        buffer[i] := (buffer[i] as int - ('a' as int - 'A' as int)) as char;
      }
      if buffer[i] == '\0' {
        break;
      }
      assert old(buffer[i]) in old(buffer[..n]) || i == n;
      i := i + 1;
    }
    assert buffer[..n] == Upper(old(buffer[..n]));
  }

  /**
   * lowerLine: lowers the ASCII upper-case letters of the text in buffer,
   * visiting every byte up to and including its terminator at n.
   */
  method LowerLine(buffer: array<char>, ghost n: nat)
    requires n < buffer.Length && buffer[n] == '\0' && '\0' !in buffer[..n]
    modifies buffer
    ensures buffer[..n] == Lower(old(buffer[..n]))
    ensures buffer[n..] == old(buffer[n..])
  {
    var i := 0;
    while true
      invariant 0 <= i <= n
      invariant forall j :: 0 <= j < i ==> buffer[j] == LowerChar(old(buffer[j]))
      invariant forall j :: i <= j < buffer.Length ==> buffer[j] == old(buffer[j])
      decreases n - i
    {
      if 'A' <= buffer[i] <= 'Z' {
        buffer[i] := (buffer[i] as int + ('a' as int - 'A' as int)) as char;
      }
      if buffer[i] == '\0' {
        break;
      }
      assert old(buffer[i]) in old(buffer[..n]) || i == n;
      i := i + 1;
    }
    assert buffer[..n] == Lower(old(buffer[..n]));
  }

  /**
   * The cell text after modFunction: the case changes run on a copy in a
   * MAX_CELL_LENGTH scratch buffer; roundLine and intLine are the given
   * rewriting.
   */
  method Transform(op: LineOp, content: seq<char>) returns (t: seq<char>)
    requires |content| < MAX_CELL_LENGTH && '\0' !in content
    ensures t == Apply(op, content)
  {
    if op.Rewrite? {
      return op.f(content);
    }
    var buffer := new char[MAX_CELL_LENGTH](i => if 0 <= i < |content| then content[i] else '\0');
    assert buffer[..|content|] == content;
    if op.ToUpper? {
      UpperLine(buffer, |content|);
    } else {
      LowerLine(buffer, |content|);
    }
    t := buffer[..|content|];
  }

  class Table {
    var data: array<char>
    var len: nat
    var delimiter: char
    var rowSelected: array<bool>

    /** The buffer holds len bytes without '\0', then the terminator. */
    ghost predicate Buffered()
      reads this, data
    {
      data.Length == MAX_LINE_LENGTH && len < data.Length &&
      data[len] == '\0' && '\0' !in data[..len]
    }

    ghost predicate Valid()
      reads this, data
    {
      Buffered() && rowSelected.Length == MAX_ROWS + 1 &&
      GoodDelimiter(delimiter) && Terminated(data[..len])
    }

    /** The table text: the bytes before the terminator. */
    function Content(): seq<char>
      reads this, data
      requires len <= data.Length
    {
      data[..len]
    }

    /** The table as rows of cells. */
    ghost function Grid(): Grid
      reads this, data
      requires Valid()
    {
      Parse(Content(), delimiter)
    }

    /** The selection flags of rows 1..n. */
    ghost function Selected(n: nat): seq<bool>
      reads this, rowSelected
      requires n < rowSelected.Length
    {
      rowSelected[1..n + 1]
    }

    /** Entry i of the selection flags is row i + 1's flag. */
    lemma SelectedAt(n: nat, i: nat, row: int)
      requires n < rowSelected.Length && i < n && row == i + 1
      ensures Selected(n)[i] == rowSelected[row]
    {
    }

    lemma GridFacts()
      requires Valid()
      ensures Clean(Grid(), delimiter) && Serialize(Grid(), delimiter) == Content()
    {
      TextIsGrid(Content(), delimiter);
    }

    /** A table holding `text`, no row selected yet. */
    constructor (text: seq<char>, d: char)
      requires |text| < MAX_LINE_LENGTH && '\0' !in text && Terminated(text) && GoodDelimiter(d)
      ensures Valid() && Content() == text && delimiter == d
      ensures forall i :: 0 <= i < rowSelected.Length ==> !rowSelected[i]
    {
      data := new char[MAX_LINE_LENGTH](i => if 0 <= i < |text| then text[i] else '\0');
      len := |text|;
      delimiter := d;
      rowSelected := new bool[MAX_ROWS + 1](_ => false);
      new;
      assert data[..len] == text;
    }

    /**
     * shiftData: moves the text from offset p on by `shift` bytes. A
     * negative shift cuts the -shift bytes at p out of the text; a positive
     * one opens a gap of `shift` bytes at p (its bytes keep their old
     * values) unless the terminator would leave the buffer, in which case
     * nothing moves and ErrTooLong is returned.
     */
    method ShiftData(p: nat, shift: int) returns (st: State)
      requires Buffered() && p <= len && (shift < 0 ==> p - shift <= len)
      modifies this, data
      ensures data == old(data) && delimiter == old(delimiter) && rowSelected == old(rowSelected)
      ensures st == Success || st == ErrTooLong
      ensures shift <= 0 ==> st == Success && Buffered()
      ensures shift <= 0 ==> Content() == old(Content()[..p] + Content()[p - shift..])
      ensures shift > 0 ==> (st == ErrTooLong <==> old(len) + shift >= MAX_LINE_LENGTH)
      ensures shift > 0 && st == ErrTooLong ==>
        Buffered() && len == old(len) && data[..] == old(data[..]) && Content() == old(Content())
      ensures shift > 0 && st == Success ==>
        len == old(len) + shift && data[len] == '\0' &&
        data[..p + shift] == old(data[..p + shift]) &&
        Content()[p + shift..] == old(Content()[p..])
    {
      if shift == 0 {
        assert Content() == old(Content()[..p] + Content()[p..]);
        return Success;
      }
      if shift < 0 {
        CutOut(p, -shift);
        return Success;
      }
      if len + shift >= data.Length {
        return ErrTooLong;
      }
      OpenGap(p, shift);
      return Success;
    }

    /** The negative shift of shiftData: the k bytes at p leave the text. */
    method CutOut(p: nat, k: nat)
      requires Buffered() && p + k <= len
      modifies this, data
      ensures data == old(data) && delimiter == old(delimiter) && rowSelected == old(rowSelected)
      ensures Buffered() && Content() == old(Content()[..p] + Content()[p + k..])
    {
      ghost var before := data[..];
      var i := p;
      while data[i + k] != '\0'
        invariant data == old(data) && len == old(len)
        invariant delimiter == old(delimiter) && rowSelected == old(rowSelected)
        invariant p <= i <= len - k && |before| == data.Length && before[len] == '\0' && '\0' !in before[..len]
        invariant forall j {:trigger data[j]} :: 0 <= j < data.Length ==> data[j] == (if p <= j < i then before[j + k] else before[j])
        decreases len - k - i
      {
        data[i] := data[i + k];
        i := i + 1;
      }
      NoTerminatorBefore(before, len, i + k);
      data[i] := '\0';
      len := i;
      CutSlices(before, data[..], p, k, old(len));
    }

    /** The positive shift of shiftData, once the room is known to be there. */
    method OpenGap(p: nat, shift: nat)
      requires Buffered() && p <= len && len + shift < data.Length
      modifies this, data
      ensures data == old(data) && delimiter == old(delimiter) && rowSelected == old(rowSelected)
      ensures len == old(len) + shift && data[len] == '\0'
      ensures data[..p + shift] == old(data[..p + shift])
      ensures Content()[p + shift..] == old(Content()[p..])
    {
      ghost var before := data[..];
      ghost var oldLen := len;
      var lastIndex := len - p;
      var i: int := lastIndex;
      while i >= 0
        invariant data == old(data) && delimiter == old(delimiter) && rowSelected == old(rowSelected)
        invariant -1 <= i <= lastIndex && |before| == data.Length && len == oldLen
        invariant forall j {:trigger data[j]} :: 0 <= j < p + i + 1 + shift ==> data[j] == before[j]
        invariant forall j {:trigger data[j]} :: p + i + 1 + shift <= j <= len + shift ==> data[j] == before[j - shift]
        decreases i + 1
      {
        data[p + i + shift] := data[p + i];
        i := i - 1;
      }
      len := len + shift;
      GapSlices(before, data[..], p, shift, oldLen);
    }

    /** The loop, shared by readCell, writeCell and dcol, that measures the cell at offset p. */
    method CellEnd(p: nat) returns (n: nat)
      requires Buffered() && p <= len
      ensures p + n <= len && n == CellLength(Content()[p..], delimiter)
    {
      n := 0;
      while !EndOfCell(data[p + n], delimiter)
        invariant p + n <= len
        invariant forall j :: p <= j < p + n ==> !EndOfCell(data[j], delimiter)
        decreases len - p - n
      {
        n := n + 1;
      }
      assert forall j :: 0 <= j < n ==> Content()[p..][j] == data[p + j];
      CellLengthPrefix(Content()[p..], delimiter, n);
    }

    /** The copy loop of writeCell: the bytes of t over the bytes at p. */
    method Put(p: nat, t: seq<char>)
      requires data.Length == MAX_LINE_LENGTH && p + |t| <= len < data.Length
      modifies data
      ensures data[len] == old(data[len])
      ensures Content() == old(Content())[..p] + t + old(Content())[p + |t|..]
    {
      var i := 0;
      while i < |t|
        invariant 0 <= i <= |t|
        invariant forall j :: 0 <= j < data.Length ==> data[j] == (if p <= j < p + i then t[j - p] else old(data[j]))
      {
        data[p + i] := t[i];
        i := i + 1;
      }
      PutSlices(old(data[..]), data[..], p, t, len);
    }

    /**
     * readCell: the text of cell (row, col). Columns are checked against
     * the width of the first row; getCellPtr's NULL gives ErrGeneric.
     * Cell (rows + 1, 1) is the terminator and reads as empty.
     */
    method ReadCell(row: int, col: int) returns (st: State, content: seq<char>)
      requires Valid() && Rectangular(Grid())
      requires col >= 1 ==> Grid() != []
      requires InGrid(Grid(), row, col) ==> |Grid()[row - 1][col - 1]| < MAX_CELL_LENGTH
      ensures st == CellOutcome(Grid(), row, col)
      ensures st == Success && row <= |Grid()| ==> content == Grid()[row - 1][col - 1]
      ensures st == Success && row == |Grid()| + 1 ==> content == []
      ensures st != Success ==> content == []
    {
      TextColumns(Content(), delimiter);
      if col < 1 || col > CountColumns(Content(), delimiter) {
        return ErrOutOfRange, [];
      }
      var q := CellOffset(Content(), delimiter, row, col);
      if q.None? {
        TextAddressing(Content(), delimiter, row, col);
        return ErrGeneric, [];
      }
      content := CopyCell(q.value);
      TextCell(Content(), delimiter, Grid(), row, col, q.value, |content|);
      return Success, content;
    }

    /** The copy loop of readCell: the bytes of the cell at offset p. */
    method CopyCell(p: nat) returns (content: seq<char>)
      requires Buffered() && p <= len
      ensures |content| == CellLength(Content()[p..], delimiter)
      ensures p + |content| <= len && content == Content()[p..p + |content|]
    {
      content := [];
      var i := 0;
      while !EndOfCell(data[p + i], delimiter)
        invariant p + i <= len
        invariant content == data[p..p + i]
        invariant forall j :: p <= j < p + i ==> !EndOfCell(data[j], delimiter)
        decreases len - p - i
      {
        content := content + [data[p + i]];
        i := i + 1;
      }
      assert forall j :: 0 <= j < i ==> Content()[p..][j] == data[p + j];
      CellLengthPrefix(Content()[p..], delimiter, i);
      assert content == Content()[p..p + i];
    }

    /**
     * writeCell: replaces the text of cell (row, col) by t, moving the rest
     * of the table by the difference in length. The errors are those of
     * readCell and, when the table would outgrow the buffer, ErrTooLong.
     */
    method WriteCell(row: int, col: int, t: seq<char>) returns (st: State)
      requires Valid() && Rectangular(Grid())
      requires col >= 1 ==> Grid() != []
      requires '\0' !in t
      requires row == |Grid()| + 1 && col == 1 ==> t == []
      modifies this, data
      ensures Valid() && data == old(data) && delimiter == old(delimiter) && rowSelected == old(rowSelected)
      ensures st == WriteOutcome(old(Grid()), old(len), row, col, t)
      ensures st != Success ==> Content() == old(Content())
      ensures st == Success && row == old(|Grid()|) + 1 ==> Content() == old(Content())
      ensures st == Success && row <= old(|Grid()|) ==>
        Content() == Serialize(SetCell(old(Grid()), row, col, t), delimiter)
      ensures st == Success && row <= old(|Grid()|) && CleanCell(t, delimiter) ==>
        Grid() == SetCell(old(Grid()), row, col, t) && Rectangular(Grid())
    {
      ghost var o := Content();
      ghost var d := delimiter;
      TextColumns(o, d);
      if col < 1 || col > CountColumns(Content(), delimiter) {
        return ErrOutOfRange;
      }
      var q := CellOffset(Content(), delimiter, row, col);
      if q.None? {
        TextAddressing(o, d, row, col);
        return ErrGeneric;
      }
      TextAddressing(o, d, row, col);
      st := WriteFound(Parse(o, d), row, col, q.value, t);
    }

    /** writeCell once getCellPtr has found (row, col) at offset p. */
    method WriteFound(ghost g: Grid, row: int, col: int, p: nat, t: seq<char>) returns (st: State)
      requires Valid() && g == Grid() && Rectangular(g) && 1 <= col <= Width(g) && Addressable(g, row, col)
      requires CellOffset(Content(), delimiter, row, col) == Some(p)
      requires '\0' !in t && (row == |g| + 1 ==> t == [])
      modifies this, data
      ensures Valid() && data == old(data) && delimiter == old(delimiter) && rowSelected == old(rowSelected)
      ensures st == WriteOutcome(g, old(len), row, col, t)
      ensures st != Success ==> Content() == old(Content())
      ensures st == Success && row == |g| + 1 ==> Content() == old(Content())
      ensures st == Success && row <= |g| ==> Content() == Serialize(SetCell(g, row, col, t), delimiter)
      ensures st == Success && row <= |g| && CleanCell(t, delimiter) ==>
        Grid() == SetCell(g, row, col, t) && Rectangular(Grid())
    {
      ghost var o, d := Content(), delimiter;
      var n := CellEnd(p);
      TextCell(o, d, g, row, col, p, n);
      st := Replace(p, n, t);
      if st != Success {
        return;
      }
      if row <= |g| {
        TextWrite(o, d, g, row, col, t, p, n, Content());
      } else {
        SpliceCut(o, p, p + n);
        assert o[..p] + o[p + n..] == o;
      }
    }

    /** The shift and copy of writeCell: the n bytes at p become t. */
    method Replace(p: nat, n: nat, t: seq<char>) returns (st: State)
      requires Buffered() && p + n <= len && '\0' !in t
      modifies this, data
      ensures Buffered() && data == old(data) && delimiter == old(delimiter) && rowSelected == old(rowSelected)
      ensures st == Success || st == ErrTooLong
      ensures st == ErrTooLong <==> old(len) + |t| - n >= MAX_LINE_LENGTH
      ensures st == ErrTooLong ==> Content() == old(Content())
      ensures st == Success ==> Content() == Splice(old(Content()), p, p + n, t)
    {
      ghost var o, buffer := Content(), data[..];
      var shift := |t| - n;
      st := ShiftData(p, shift);
      if st != Success {
        assert Content() == old(Content());
        return;
      }
      ghost var c1 := Content();
      if shift > 0 {
        PrefixAgree(data[..], buffer, p + shift, len, |o|, p);
      }
      Put(p, t);
      if shift <= 0 {
        ShrinkThenPut(o, c1, Content(), p, n, t);
      } else {
        GrowThenPut(o, c1, Content(), p, n, t);
      }
    }

    // -------------------------------------------------------------------
    // Rows

    /**
     * irow: inserts an empty row before row `row`; row countRows + 1
     * appends one. The new row is written as countColumns - 1 delimiters
     * and a '\n' in a gap opened at the start of the row.
     */
    method Irow(row: int) returns (st: State)
      requires Valid() && Rectangular(Grid()) && Grid() != []
      modifies this, data
      ensures Valid() && data == old(data) && delimiter == old(delimiter) && rowSelected == old(rowSelected)
      ensures st == Success || st == ErrOutOfRange || st == ErrTooLong
      ensures st == ErrOutOfRange <==> row < 1 || row > old(|Grid()|) + 1
      ensures st == ErrTooLong <==> 1 <= row <= old(|Grid()|) + 1 && old(len) + Width(old(Grid())) >= MAX_LINE_LENGTH
      ensures st != Success ==> Content() == old(Content())
      ensures st == Success ==> Grid() == InsertRow(old(Grid()), row - 1, Blank(Width(old(Grid()))))
      ensures Rectangular(Grid())
    {
      ghost var o := Content();
      ghost var d := delimiter;
      TextRows(o, d);
      if row < 1 || row > CountRows(Content()) + 1 {
        return ErrOutOfRange;
      }
      TextColumns(o, d);
      var numColumns := CountColumns(Content(), delimiter);
      TextRowStart(o, d, row);
      var p := CellOffset(Content(), delimiter, row, 1).value;
      st := OpenLine(p, numColumns);
      if st == Success {
        TextInsertRow(o, d, row, p, Content());
      }
    }

    /** The shift and fill of irow: a blank line w cells wide spliced in at p. */
    method OpenLine(p: nat, w: nat) returns (st: State)
      requires Buffered() && GoodDelimiter(delimiter) && p <= len && w >= 1
      modifies this, data
      ensures data == old(data) && delimiter == old(delimiter) && rowSelected == old(rowSelected)
      ensures st == Success || st == ErrTooLong
      ensures st == ErrTooLong <==> old(len) + w >= MAX_LINE_LENGTH
      ensures st == ErrTooLong ==> Buffered() && Content() == old(Content())
      ensures st == Success ==> len < data.Length && data[len] == '\0'
      ensures st == Success ==> Content() == Splice(old(Content()), p, p, BlankLine(w, delimiter))
    {
      ghost var o := Content();
      st := ShiftData(p, w);
      if st != Success {
        assert Content() == o;
        return;
      }
      ghost var c1 := Content();
      assert c1[..p] == o[..p];
      FillRow(p, w);
      GrowThenPut(o, c1, Content(), p, 0, BlankLine(w, delimiter));
    }

    /** irow's fill loop: w - 1 delimiters and a '\n' over the w bytes at p. */
    method FillRow(p: nat, w: nat)
      requires data.Length == MAX_LINE_LENGTH && w >= 1 && p + w <= len < data.Length
      modifies data
      ensures data[len] == old(data[len])
      ensures Content() == old(Content())[..p] + BlankLine(w, delimiter) + old(Content())[p + w..]
    {
      var i := 0;
      while i < w - 1
        invariant 0 <= i <= w - 1
        invariant forall j :: 0 <= j < data.Length ==> data[j] == (if p <= j < p + i then delimiter else old(data[j]))
      {
        data[p + i] := delimiter;
        i := i + 1;
      }
      data[p + w - 1] := '\n';
      BlankSlices(old(data[..]), data[..], p, w, len, delimiter);
    }

    /** arow: irow at the row after the last. */
    method Arow() returns (st: State)
      requires Valid() && Rectangular(Grid()) && Grid() != []
      modifies this, data
      ensures Valid() && data == old(data) && delimiter == old(delimiter) && rowSelected == old(rowSelected)
      ensures st == Success || st == ErrTooLong
      ensures st == ErrTooLong <==> old(len) + Width(old(Grid())) >= MAX_LINE_LENGTH
      ensures st == ErrTooLong ==> Content() == old(Content())
      ensures st == Success ==> Grid() == old(Grid()) + [Blank(Width(old(Grid())))]
      ensures Rectangular(Grid())
    {
      TextRows(Content(), delimiter);
      InsertRowLast(Grid(), Blank(Width(Grid())));
      st := Irow(CountRows(Content()) + 1);
    }

    /** drow: removes row `row` with its '\n'. */
    method Drow(row: int) returns (st: State)
      requires Valid()
      modifies this, data
      ensures Valid() && data == old(data) && delimiter == old(delimiter) && rowSelected == old(rowSelected)
      ensures st == Success || st == ErrOutOfRange
      ensures st == ErrOutOfRange <==> row < 1 || row > old(|Grid()|)
      ensures st == ErrOutOfRange ==> Content() == old(Content())
      ensures st == Success ==> Grid() == DeleteRow(old(Grid()), row - 1)
      ensures old(Rectangular(Grid())) ==> Rectangular(Grid())
    {
      ghost var o := Content();
      ghost var d := delimiter;
      TextRows(o, d);
      if row < 1 || row > CountRows(Content()) {
        return ErrOutOfRange;
      }
      TextRowStart(o, d, row);
      var p := CellOffset(Content(), delimiter, row, 1).value;
      TextRowLine(o, d, Parse(o, d), row, p);
      var i := CutLine(p);
      TextDeleteRow(o, d, row, p, i, Content());
      return Success;
    }

    /** The length loop and shift of drow: the bytes from p through the next '\n' cut out. */
    method CutLine(p: nat) returns (n: nat)
      requires Buffered() && p <= len && '\n' in Content()[p..]
      modifies this, data
      ensures data == old(data) && delimiter == old(delimiter) && rowSelected == old(rowSelected)
      ensures n == IndexOf(old(Content())[p..], '\n') + 1 && p + n <= old(len)
      ensures Buffered() && Content() == old(Content())[..p] + old(Content())[p + n..]
    {
      n := LineLength(p);
      // shiftData cannot fail when it shrinks the text; drow ignores its result
      var ignored := ShiftData(p, -(n as int));
    }

    /** drow's loop: the bytes from p through the next '\n'. */
    method LineLength(p: nat) returns (n: nat)
      requires Buffered() && p <= len && '\n' in Content()[p..]
      ensures n == IndexOf(Content()[p..], '\n') + 1 && p + n <= len
    {
      ghost var k := IndexOf(Content()[p..], '\n');
      n := 0;
      while data[p + n] != '\n'
        invariant n <= k && forall j :: p <= j < p + n ==> data[j] != '\n'
        decreases k - n
      {
        n := n + 1;
      }
      n := n + 1;
    }

    // -------------------------------------------------------------------
    // Columns

    /**
     * icol: inserts an empty column before column `col`; column
     * countColumns + 1 appends one. In each row a gap of one byte is opened
     * at getCellPtr(i, col) and the delimiter written into it. The loop
     * stops at the first row whose gap does not fit (the source writes the
     * delimiter regardless; see Findings.IcolCellAsWritten).
     */
    method Icol(col: int) returns (st: State)
      requires Valid() && Rectangular(Grid()) && Grid() != []
      modifies this, data
      ensures Valid() && data == old(data) && delimiter == old(delimiter) && rowSelected == old(rowSelected)
      ensures st == Success || st == ErrOutOfRange || st == ErrTooLong
      ensures st == ErrOutOfRange <==> col < 1 || col > Width(old(Grid())) + 1
      ensures st == ErrOutOfRange ==> Content() == old(Content())
      ensures st == ErrTooLong <==>
        1 <= col <= Width(old(Grid())) + 1 && old(len) + old(|Grid()|) >= MAX_LINE_LENGTH
      ensures st == Success ==> Grid() == InsertColumn(old(Grid()), col - 1, old(|Grid()|))
      ensures st == ErrTooLong ==> Grid() == InsertColumn(old(Grid()), col - 1, MAX_LINE_LENGTH - 1 - old(len))
    {
      ghost var g, d := Grid(), delimiter;
      GridFacts();
      TextColumns(Content(), delimiter);
      if col < 1 || col > CountColumns(Content(), delimiter) + 1 {
        return ErrOutOfRange;
      }
      st := IcolRows(g, col);
    }

    /** The row loop of icol: each row in turn gains an empty cell before column `col`. */
    method IcolRows(ghost g: Grid, col: int) returns (st: State)
      requires Valid() && Clean(g, delimiter) && Rectangular(g) && g != [] && 1 <= col <= Width(g) + 1
      requires Content() == Serialize(g, delimiter)
      modifies this, data
      ensures Valid() && data == old(data) && delimiter == old(delimiter) && rowSelected == old(rowSelected)
      ensures st == Success || st == ErrTooLong
      ensures st == ErrTooLong <==> old(len) + |g| >= MAX_LINE_LENGTH
      ensures st == Success ==> Grid() == InsertColumn(g, col - 1, |g|)
      ensures st == ErrTooLong ==> Grid() == InsertColumn(g, col - 1, MAX_LINE_LENGTH - 1 - old(len))
    {
      ghost var d := delimiter;
      CountRowsSerialize(g, d);
      var numRows := CountRows(Content());
      st := Success;  // the table has a row, so the loop sets it
      var i := 1;
      while i <= numRows
        invariant 1 <= i <= numRows + 1 && numRows == |g|
        invariant Valid() && data == old(data) && delimiter == d && rowSelected == old(rowSelected)
        invariant len == old(len) + (i - 1) < MAX_LINE_LENGTH
        invariant Content() == Serialize(InsertColumn(g, col - 1, i - 1), d)
        invariant st == Success
      {
        st := IcolStep(g, col, i);
        if st != Success {
          assert i - 1 == MAX_LINE_LENGTH - 1 - old(len) && i <= |g|;
          return;
        }
        i := i + 1;
      }
      ghost var s := Content();
      IcolText(g, d, col, numRows, s);
    }

    /** One pass of icol's loop: row i gains an empty cell before column `col`. */
    method IcolStep(ghost g: Grid, col: int, i: int) returns (st: State)
      requires Valid() && Clean(g, delimiter) && Rectangular(g) && 1 <= col <= Width(g) + 1
      requires 1 <= i <= |g| && Content() == Serialize(InsertColumn(g, col - 1, i - 1), delimiter)
      modifies this, data
      ensures Valid() && data == old(data) && delimiter == old(delimiter) && rowSelected == old(rowSelected)
      ensures st == Success || st == ErrTooLong
      ensures st == ErrTooLong <==> old(len) + 1 >= MAX_LINE_LENGTH
      ensures st == ErrTooLong ==> Content() == old(Content()) && Grid() == InsertColumn(g, col - 1, i - 1)
      ensures st == Success ==> len == old(len) + 1 && Content() == Serialize(InsertColumn(g, col - 1, i), delimiter)
    {
      ghost var s, t := Content(), Serialize(InsertColumn(g, col - 1, i), delimiter);
      ghost var q := IcolRow(g, delimiter, col, i, s);
      var p := CellOffset(Content(), delimiter, i, col).value;
      assert p == q;
      st := OpenCell(p, t);
      if st == Success {
        IcolText(g, delimiter, col, i, t);
      } else {
        IcolText(g, delimiter, col, i - 1, s);
      }
    }

    /** The shift and write of icol in one row: a delimiter spliced in at p. */
    method OpenCell(p: nat, ghost t: seq<char>) returns (st: State)
      requires Buffered() && GoodDelimiter(delimiter) && p <= len && Splice(Content(), p, p, [delimiter]) == t
      modifies this, data
      ensures data == old(data) && delimiter == old(delimiter) && rowSelected == old(rowSelected)
      ensures Buffered() && (st == Success || st == ErrTooLong)
      ensures st == ErrTooLong <==> old(len) + 1 >= MAX_LINE_LENGTH
      ensures st == ErrTooLong ==> Content() == old(Content())
      ensures st == Success ==> len == old(len) + 1 && Content() == t
    {
      ghost var o, buffer := Content(), data[..];
      st := ShiftData(p, 1);
      if st != Success {
        return;
      }
      PrefixAgree(data[..], buffer, p + 1, len, |o|, p);
      ghost var shifted := data[..];
      data[p] := delimiter;
      InsertedByte(o, shifted, data[..], len, p, delimiter);
      NoTerminatorSplice(o, p, p, [delimiter]);
    }

    /** acol: icol one column past the last. */
    method Acol() returns (st: State)
      requires Valid() && Rectangular(Grid()) && Grid() != []
      modifies this, data
      ensures Valid() && data == old(data) && delimiter == old(delimiter) && rowSelected == old(rowSelected)
      ensures st == Success || st == ErrTooLong
      ensures st == ErrTooLong <==> old(len) + old(|Grid()|) >= MAX_LINE_LENGTH
      ensures st == Success ==> Grid() == InsertColumn(old(Grid()), Width(old(Grid())), old(|Grid()|))
      ensures st == ErrTooLong ==>
        Grid() == InsertColumn(old(Grid()), Width(old(Grid())), MAX_LINE_LENGTH - 1 - old(len))
    {
      TextColumns(Content(), delimiter);
      st := Icol(CountColumns(Content(), delimiter) + 1);
    }

    /**
     * dcol: deletes column `col`. ErrOutOfRange outside 1..countColumns,
     * ErrTableEmpty for the only column; otherwise, in each row, the cell
     * and the delimiter after it go, or for the last column the delimiter
     * before it and the cell.
     */
    method Dcol(col: int) returns (st: State)
      requires Valid() && Rectangular(Grid()) && Grid() != []
      modifies this, data
      ensures Valid() && data == old(data) && delimiter == old(delimiter) && rowSelected == old(rowSelected)
      ensures st == DcolOutcome(Width(old(Grid())), col)
      ensures st != Success ==> Content() == old(Content())
      ensures st == Success ==> Grid() == DeleteColumn(old(Grid()), col - 1, old(|Grid()|))
    {
      ghost var g, d := Grid(), delimiter;
      GridFacts();
      TextColumns(Content(), delimiter);
      if col < 1 || col > CountColumns(Content(), delimiter) {
        return ErrOutOfRange;
      }
      if CountColumns(Content(), delimiter) == 1 {
        return ErrTableEmpty;
      }
      st := DcolRows(g, col);
    }

    /** The row loop of dcol: each row in turn loses its cell in column `col`. */
    method DcolRows(ghost g: Grid, col: int) returns (st: State)
      requires Valid() && Clean(g, delimiter) && Rectangular(g) && g != [] && 1 <= col <= Width(g) && Width(g) >= 2
      requires Content() == Serialize(g, delimiter)
      modifies this, data
      ensures Valid() && data == old(data) && delimiter == old(delimiter) && rowSelected == old(rowSelected)
      ensures st == Success && Grid() == DeleteColumn(g, col - 1, |g|)
    {
      ghost var d := delimiter;
      CountRowsSerialize(g, d);
      var numRows := CountRows(Content());
      st := Success;  // the table has a row, so the loop sets it
      var i := 1;
      while i <= numRows
        invariant 1 <= i <= numRows + 1 && numRows == |g|
        invariant Valid() && data == old(data) && delimiter == d && rowSelected == old(rowSelected)
        invariant Content() == Serialize(DeleteColumn(g, col - 1, i - 1), d)
        invariant st == Success
      {
        st := DcolStep(g, col, i);
        i := i + 1;
      }
      DcolText(g, d, col, numRows, Content());
    }

    /** One pass of dcol's loop: row i loses its cell in column `col`. */
    method DcolStep(ghost g: Grid, col: int, i: int) returns (st: State)
      requires Valid() && Clean(g, delimiter) && Rectangular(g) && 1 <= col <= Width(g) && Width(g) >= 2
      requires 1 <= i <= |g| && Content() == Serialize(DeleteColumn(g, col - 1, i - 1), delimiter)
      modifies this, data
      ensures Valid() && data == old(data) && delimiter == old(delimiter) && rowSelected == old(rowSelected)
      ensures st == Success && Content() == Serialize(DeleteColumn(g, col - 1, i), delimiter)
    {
      ghost var s := Content();
      DcolFinds(g, delimiter, col, i, s);
      var p := CellOffset(Content(), delimiter, i, col).value;
      ghost var n, t := DcolCut(g, delimiter, col, i, s, p);
      st := CutCell(p, n, s, t);
    }

    /**
     * The length loop and shift of dcol in one row, for the cell at p of n
     * bytes: the cell and the delimiter after it go, or, when the cell ends
     * its line, the delimiter before it and the cell; t is the text either
     * cut leaves.
     */
    method CutCell(p: nat, ghost n: nat, ghost s: seq<char>, ghost t: seq<char>) returns (st: State)
      requires Buffered() && Content() == s && p + n < |s| && n == CellLength(s[p..], delimiter)
      requires s[p + n] == delimiter ==> Splice(s, p, p + n + 1, []) == t
      requires s[p + n] != delimiter ==> p >= 1 && Splice(s, p - 1, p + n, []) == t
      modifies this, data
      ensures Buffered() && data == old(data) && delimiter == old(delimiter) && rowSelected == old(rowSelected)
      ensures st == Success && Content() == t
    {
      var j := CellEnd(p);
      assert data[p + j] == s[p + n];
      if data[p + j] == delimiter {
        st := ShiftData(p, -(j as int) - 1);
        assert p - (-(j as int) - 1) == p + n + 1;
        SpliceCut(s, p, p + n + 1);
      } else {
        st := ShiftData(p - 1, -(j as int) - 1);
        assert (p - 1) - (-(j as int) - 1) == p + n;
        SpliceCut(s, p - 1, p + n);
      }
    }

    /** One pass of drows' loop: row m goes when it exists. */
    method DrowsStep(m: int, ghost g: Grid, ghost i: int) returns (st: State)
      requires Valid() && m <= i && DrowsAfter(g, m, i, Grid())
      requires !(1 <= m <= |g|) ==> Grid() == g
      modifies this, data
      ensures Valid() && data == old(data) && delimiter == old(delimiter) && rowSelected == old(rowSelected)
      ensures st == Success || st == ErrOutOfRange
      ensures st == Success <==> 1 <= m <= |g| && i <= |g|
      ensures st == Success ==> DrowsAfter(g, m, i + 1, Grid())
      ensures st != Success ==> Content() == old(Content()) && (1 <= m <= |g| ==> Grid() == g[..m - 1])
    {
      ghost var h := Grid();
      st := Drow(m);
      if st != Success {
        if 1 <= m <= |g| {
          DeleteRowRangeEnd(g, h, m, i);
        }
        return;
      }
      DeleteRowRange(g, h, Grid(), m, i);
    }

    /** One pass of dcols: dcol at column m after k passes. */
    method DcolsStep(ghost g: Grid, m: int, ghost k: nat) returns (st: State, ghost next: nat)
      requires Valid() && DcolsAfter(g, m, k, Grid())
      modifies this, data
      ensures Valid() && data == old(data) && delimiter == old(delimiter) && rowSelected == old(rowSelected)
      ensures st == DcolOutcome(Width(g) - k, m)
      ensures st != Success ==> Content() == old(Content()) && Grid() == old(Grid())
      ensures st != Success && 1 <= m <= Width(g) ==> k == DcolsReach(Width(g), m)
      ensures st == Success ==> next == k + 1 && DcolsAfter(g, m, next, Grid())
    {
      if 1 <= m <= Width(g) {
        RectangularCutColumns(g, m - 1, k);
      }
      ghost var h := Grid();
      st := Dcol(m);
      next := k + 1;
      if st == Success {
        DcolsPass(g, m, k, next, h, Grid());
      }
    }

    /**
     * dcols: dcol at column m, n - m + 1 times, stopping at the first
     * refusal; ErrBadSyntax when n < m.
     */
    method Dcols(m: int, n: int) returns (st: State)
      requires Valid() && Rectangular(Grid()) && Grid() != []
      modifies this, data
      ensures Valid() && data == old(data) && delimiter == old(delimiter) && rowSelected == old(rowSelected)
      ensures st == DcolsOutcome(Width(old(Grid())), m, n)
      ensures st == Success ==> Grid() == CutColumns(old(Grid()), m - 1, n - m + 1)
      ensures n < m || !(1 <= m <= Width(old(Grid()))) ==> Content() == old(Content())
      ensures m <= n && 1 <= m <= Width(old(Grid())) && st != Success ==>
        Grid() == CutColumns(old(Grid()), m - 1, DcolsReach(Width(old(Grid())), m))
    {
      if n < m {
        return ErrBadSyntax;
      }
      st := DcolsFrom(Grid(), m, n);
    }

    /** The loop of dcols, for m <= n, on a table reading g. */
    method DcolsFrom(ghost g: Grid, m: int, n: int) returns (st: State)
      requires Valid() && Grid() == g && Rectangular(g) && g != [] && m <= n
      modifies this, data
      ensures Valid() && data == old(data) && delimiter == old(delimiter) && rowSelected == old(rowSelected)
      ensures st == DcolsOutcome(Width(g), m, n)
      ensures st == Success ==> Grid() == CutColumns(g, m - 1, n - m + 1)
      ensures !(1 <= m <= Width(g)) ==> Content() == old(Content())
      ensures 1 <= m <= Width(g) && st != Success ==> Grid() == CutColumns(g, m - 1, DcolsReach(Width(g), m))
    {
      if 1 <= m <= Width(g) {
        CutNoColumn(g, m - 1);
      }
      var i := m;
      ghost var k: nat := 0;  // the passes done, i - m
      while i <= n
        invariant m <= i <= n + 1 && k == i - m
        invariant Valid() && data == old(data) && delimiter == old(delimiter) && rowSelected == old(rowSelected)
        invariant DcolsAfter(g, m, k, Grid())
        invariant !(1 <= m <= Width(g)) ==> k == 0 && Content() == old(Content())
      {
        ghost var next;
        st, next := DcolsStep(g, m, k);
        if st != Success {
          RefusedPass(g, m, n, k, Grid(), st);
          return;
        }
        i, k := i + 1, next;
      }
      ghost var h := Grid();
      assert k == n - m + 1 >= 1;
      AllPassesDone(g, m, n, k, h);
      return Success;
    }

    /**
     * drows: deletes row m, n - m + 1 times, stopping at the first error.
     * Rows m..n go when they all exist; otherwise the rows from m to the
     * end go and the call fails.
     */
    method Drows(m: int, n: int) returns (st: State)
      requires Valid()
      modifies this, data
      ensures Valid() && data == old(data) && delimiter == old(delimiter) && rowSelected == old(rowSelected)
      ensures st == Success || st == ErrBadSyntax || st == ErrOutOfRange
      ensures st == ErrBadSyntax <==> n < m
      ensures st == Success <==> 1 <= m <= n <= old(|Grid()|)
      ensures st == Success ==> Grid() == old(Grid()[..m - 1] + Grid()[n..])
      ensures 1 <= m <= old(|Grid()|) < n ==> st == ErrOutOfRange && Grid() == old(Grid()[..m - 1])
      ensures n < m || m < 1 || m > old(|Grid()|) ==> Content() == old(Content())
    {
      if n < m {
        return ErrBadSyntax;
      }
      st := DrowsLoop(Grid(), m, n);
    }

    /** The loop of drows: row m is deleted once for every number from m to n. */
    method DrowsLoop(ghost g: Grid, m: int, n: int) returns (st: State)
      requires Valid() && Grid() == g && m <= n
      modifies this, data
      ensures Valid() && data == old(data) && delimiter == old(delimiter) && rowSelected == old(rowSelected)
      ensures st == Success || st == ErrOutOfRange
      ensures st == Success <==> 1 <= m && n <= |g|
      ensures st == Success ==> Grid() == g[..m - 1] + g[n..]
      ensures 1 <= m <= |g| < n ==> Grid() == g[..m - 1]
      ensures m < 1 || m > |g| ==> Content() == old(Content())
    {
      var i := m;
      while i <= n
        invariant m <= i <= n + 1
        invariant Valid() && data == old(data) && delimiter == old(delimiter) && rowSelected == old(rowSelected)
        invariant DrowsAfter(g, m, i, Grid())
        invariant !(1 <= m <= |g|) ==> i == m && Content() == old(Content())
      {
        st := DrowsStep(m, g, i);
        if st != Success {
          return;
        }
        i := i + 1;
      }
      ghost var h := Grid();
      assert 1 <= m <= |g| && h == g[..m - 1] + g[i - 1..];
      return Success;
    }

    // -------------------------------------------------------------------
    // Data commands

    /**
     * modifyData: rewrites, with op, the cell in column col of every
     * selected row. A column out of range fails at the first selected row,
     * before anything changes; a rewritten cell that no longer fits in the
     * buffer is silently left as it was, because writeCell's answer is not
     * looked at.
     */
    method ModifyData(col: int, op: LineOp) returns (st: State)
      requires Valid() && Rectangular(Grid()) && |Grid()| <= MAX_ROWS && SafeOp(op, delimiter)
      requires ShortColumn(Grid(), Selected(|Grid()|), col)
      modifies this, data
      ensures Valid() && data == old(data) && delimiter == old(delimiter) && rowSelected == old(rowSelected)
      ensures st == ColumnOutcome(old(Grid()), Selected(old(|Grid()|)), col)
      ensures 1 <= col <= Width(old(Grid())) ==>
        Grid() == ModifyRows(old(Grid()), delimiter, Selected(old(|Grid()|)), col, op, old(|Grid()|))
      ensures !(1 <= col <= Width(old(Grid()))) ==> Content() == old(Content())
    {
      ghost var g := Grid();
      GridFacts();
      st := ModifyLoop(g, Selected(|g|), col, op);
      GridFacts();
    }

    /** The row loop of modifyData. */
    method ModifyLoop(ghost g: Grid, ghost sel: seq<bool>, col: int, op: LineOp) returns (st: State)
      requires Valid() && Grid() == g && Rectangular(g) && |g| <= MAX_ROWS && sel == Selected(|g|)
      requires SafeOp(op, delimiter) && ShortColumn(g, sel, col)
      modifies this, data
      ensures Valid() && data == old(data) && delimiter == old(delimiter) && rowSelected == old(rowSelected)
      ensures st == ColumnOutcome(g, sel, col)
      ensures Grid() == ModifyAfter(g, delimiter, sel, col, op, |g|)
    {
      GridFacts();
      CountRowsSerialize(g, delimiter);
      var numRows := CountRows(Content());
      var row := 1;
      ghost var done: nat := 0;
      while row <= numRows
        invariant 1 <= row <= numRows + 1 && numRows == |g| && done == row - 1
        invariant Valid() && data == old(data) && delimiter == old(delimiter) && rowSelected == old(rowSelected)
        invariant Grid() == ModifyAfter(g, delimiter, sel, col, op, done)
        invariant !(1 <= col <= Width(g)) ==> forall i :: 0 <= i < done ==> !sel[i]
      {
        st, done := ModifyStep(g, sel, col, op, row, done);
        if st != Success {
          assert ModifyAfter(g, delimiter, sel, col, op, |g|) == g;
          return;
        }
        row := row + 1;
      }
      assert done == |g|;
      assert !(1 <= col <= Width(g)) ==> true !in sel;
      return Success;
    }

    /** One row of modifyData: a selected row has its cell read, transformed and written back. */
    method ModifyStep(ghost g: Grid, ghost sel: seq<bool>, col: int, op: LineOp, row: int, ghost done: nat)
      returns (st: State, ghost next: nat)
      requires Valid() && Rectangular(g) && |g| <= MAX_ROWS && sel == Selected(|g|)
      requires done == row - 1 && 1 <= row <= |g|
      requires SafeOp(op, delimiter) && ShortColumn(g, sel, col)
      requires Grid() == ModifyAfter(g, delimiter, sel, col, op, done)
      requires !(1 <= col <= Width(g)) ==> forall i :: 0 <= i < done ==> !sel[i]
      modifies this, data
      ensures Valid() && data == old(data) && delimiter == old(delimiter) && rowSelected == old(rowSelected)
      ensures next == row
      ensures st == (if sel[done] && !(1 <= col <= Width(g)) then ErrOutOfRange else Success)
      ensures st != Success ==> Grid() == g && true in sel
      ensures st == Success ==> Grid() == ModifyAfter(g, delimiter, sel, col, op, next)
      ensures st == Success && !(1 <= col <= Width(g)) ==> forall i :: 0 <= i < next ==> !sel[i]
    {
      next := row;
      ghost var h := Grid();
      ModifyAfterStep(g, delimiter, sel, col, op, done, next);
      assert sel[done] == rowSelected[row];
      if !rowSelected[row] {
        assert !(1 <= col <= Width(g)) ==> forall i :: 0 <= i < next ==> !sel[i];
        return Success, next;
      }
      SameShape(g, h);
      assert h[done] == g[done];
      st := ModifyCell(h, col, op, row, done);
      if st != Success {
        assert h == g;
        assert sel[done];
      } else {
        assert 1 <= col <= Width(g);
      }
    }

    /** The body of modifyData's loop for selected row `row`. */
    method ModifyCell(ghost h: Grid, col: int, op: LineOp, row: int, ghost done: nat) returns (st: State)
      requires Valid() && Grid() == h && Rectangular(h) && done == row - 1 && 1 <= row <= |h|
      requires SafeOp(op, delimiter) && (1 <= col <= |h[done]| ==> |h[done][col - 1]| < MAX_CELL_LENGTH)
      modifies this, data
      ensures Valid() && data == old(data) && delimiter == old(delimiter) && rowSelected == old(rowSelected)
      ensures st == (if 1 <= col <= Width(h) then Success else ErrOutOfRange)
      ensures st != Success ==> Grid() == h
      ensures st == Success ==> Grid() == TryWrite(h, delimiter, row, col, Apply(op, h[done][col - 1]))
    {
      assert InGrid(h, row, col) ==> |h[row - 1][col - 1]| < MAX_CELL_LENGTH;
      var content;
      st, content := ReadCell(row, col);
      if st != Success {
        return;
      }
      GridFacts();
      assert 1 <= col <= |h[done]|;
      assert content == h[done][col - 1];
      assert |content| < MAX_CELL_LENGTH;
      assert CleanCell(content, delimiter);
      var t := Transform(op, content);
      WriteIgnored(h, row, col, t);
    }

    /** writeCell whose answer is dropped: the cell is replaced when the text fits. */
    method WriteIgnored(ghost h: Grid, row: int, col: int, t: seq<char>)
      requires Valid() && Grid() == h && Rectangular(h) && 1 <= row <= |h| && 1 <= col <= Width(h)
      requires CleanCell(t, delimiter)
      modifies this, data
      ensures Valid() && data == old(data) && delimiter == old(delimiter) && rowSelected == old(rowSelected)
      ensures Grid() == TryWrite(h, delimiter, row, col, t)
    {
      GridFacts();
      var st := WriteCell(row, col, t);
    }

    /** writeCell on a row of the grid, its answer and its effect stated on h, the grid before. */
    method WriteAt(ghost h: Grid, row: int, col: int, t: seq<char>) returns (st: State)
      requires Valid() && Grid() == h && Rectangular(h) && 1 <= row <= |h| && CleanCell(t, delimiter)
      modifies this, data
      ensures Valid() && data == old(data) && delimiter == old(delimiter) && rowSelected == old(rowSelected)
      ensures st == WriteOutcome(h, |Serialize(h, delimiter)|, row, col, t)
      ensures st != Success ==> Grid() == h
      ensures st == Success ==> Grid() == SetCell(h, row, col, t)
    {
      GridFacts();
      st := WriteCell(row, col, t);
    }

    /**
     * setColumn: writes t into column col of every selected row, top to
     * bottom. It stops at the first write that fails: a column out of range
     * at the first selected row, before anything changes, or a row that
     * would make the text too long, with the rows above it already written.
     */
    method SetColumn(col: int, t: seq<char>) returns (st: State)
      requires Valid() && Rectangular(Grid()) && |Grid()| <= MAX_ROWS && CleanCell(t, delimiter)
      modifies this, data
      ensures Valid() && data == old(data) && delimiter == old(delimiter) && rowSelected == old(rowSelected)
      ensures Moved(st, Grid()) ==
        WriteColumn(old(Grid()), delimiter, Selected(old(|Grid()|)), col, Fill(old(|Grid()|), t))
    {
      ghost var g := Grid();
      st := SetLoop(g, Selected(|g|), col, t);
    }

    /** The row loop of setColumn. */
    method SetLoop(ghost g: Grid, ghost sel: seq<bool>, col: int, t: seq<char>) returns (st: State)
      requires Valid() && Grid() == g && Rectangular(g) && |g| <= MAX_ROWS && sel == Selected(|g|)
      requires CleanCell(t, delimiter)
      modifies this, data
      ensures Valid() && data == old(data) && delimiter == old(delimiter) && rowSelected == old(rowSelected)
      ensures Moved(st, Grid()) == WriteColumn(g, delimiter, sel, col, Fill(|g|, t))
    {
      GridFacts();
      CountRowsSerialize(g, delimiter);
      var numRows := CountRows(Content());
      ghost var v := Fill(|g|, t);
      PutStart(g, delimiter, sel, col, v);
      var row := 1;
      ghost var done: nat := 0;
      while row <= numRows
        invariant 1 <= row <= numRows + 1 && numRows == |g| && done == row - 1
        invariant Valid() && data == old(data) && delimiter == old(delimiter) && rowSelected == old(rowSelected)
        invariant PutState(g, delimiter, sel, col, v, done, Grid())
      {
        st, done := SetStep(g, sel, col, t, v, done, row);
        if st != Success {
          return;
        }
        row := row + 1;
      }
      PutDone(g, delimiter, sel, col, v, Grid());
      return Success;
    }

    /** One row of setColumn: row done + 1 is written when it is selected. */
    method SetStep(ghost g: Grid, ghost sel: seq<bool>, col: int, t: seq<char>, ghost v: seq<seq<char>>,
                   ghost done: nat, row: int) returns (st: State, ghost next: nat)
      requires Valid() && Rectangular(g) && |g| <= MAX_ROWS && sel == Selected(|g|)
      requires CleanCell(t, delimiter) && v == Fill(|g|, t) && row == done + 1 <= |g|
      requires PutState(g, delimiter, sel, col, v, done, Grid())
      modifies this, data
      ensures Valid() && data == old(data) && delimiter == old(delimiter) && rowSelected == old(rowSelected)
      ensures next == row
      ensures st == Success ==> PutState(g, delimiter, sel, col, v, next, Grid())
      ensures st != Success ==> Moved(st, Grid()) == WriteColumn(g, delimiter, sel, col, v)
    {
      next := row;
      SelectedAt(|g|, done, row);
      if rowSelected[row] {
        ghost var h := Grid();
        PutStateShape(g, delimiter, sel, col, v, done, h);
        assert v[done] == t;
        st := WriteAt(h, row, col, t);
        PutWrite(g, delimiter, sel, col, v, done, next, h, st, Grid());
      } else {
        PutSkip(g, delimiter, sel, col, v, done, next, Grid());
        st := Success;
      }
    }

    /**
     * copyColumn: in every selected row, reads the cell in column src and
     * writes it into column dest. A failing read or write ends the command
     * with the rows above already copied.
     */
    method CopyColumn(src: int, dest: int) returns (st: State)
      requires Valid() && Rectangular(Grid()) && |Grid()| <= MAX_ROWS
      requires ShortColumn(Grid(), Selected(|Grid()|), src)
      modifies this, data
      ensures Valid() && data == old(data) && delimiter == old(delimiter) && rowSelected == old(rowSelected)
      ensures Moved(st, Grid()) == CopyResult(old(Grid()), delimiter, Selected(old(|Grid()|)), src, dest)
    {
      ghost var g := Grid();
      st := CopyLoop(g, Selected(|g|), src, dest);
    }

    /** The row loop of copyColumn. */
    method CopyLoop(ghost g: Grid, ghost sel: seq<bool>, src: int, dest: int) returns (st: State)
      requires Valid() && Grid() == g && Rectangular(g) && |g| <= MAX_ROWS && sel == Selected(|g|)
      requires ShortColumn(g, sel, src)
      modifies this, data
      ensures Valid() && data == old(data) && delimiter == old(delimiter) && rowSelected == old(rowSelected)
      ensures Moved(st, Grid()) == CopyResult(g, delimiter, sel, src, dest)
    {
      GridFacts();
      CountRowsSerialize(g, delimiter);
      var numRows := CountRows(Content());
      if 1 <= src <= Width(g) {
        PutStart(g, delimiter, sel, dest, Column(g, src));
      }
      var row := 1;
      ghost var done: nat := 0;
      while row <= numRows
        invariant 1 <= row <= numRows + 1 && numRows == |g| && done == row - 1
        invariant Valid() && data == old(data) && delimiter == old(delimiter) && rowSelected == old(rowSelected)
        invariant CopyState(g, delimiter, sel, src, dest, done, Grid())
      {
        SelectedAt(|g|, done, row);
        if rowSelected[row] {
          st := CopyRow(g, sel, src, dest, row, done);
          if st != Success {
            return;
          }
        } else {
          CopySkip(g, delimiter, sel, src, dest, done, row, Grid());
        }
        done := row;
        row := row + 1;
      }
      CopyDone(g, delimiter, sel, src, dest, Grid());
      return Success;
    }

    /** One selected row of copyColumn: its cell in column src is written into column dest. */
    method CopyRow(ghost g: Grid, ghost sel: seq<bool>, src: int, dest: int, row: int, ghost done: nat)
      returns (st: State)
      requires Valid() && Rectangular(g) && |sel| == |g| && ShortColumn(g, sel, src)
      requires done == row - 1 && 1 <= row <= |g| && sel[done]
      requires CopyState(g, delimiter, sel, src, dest, done, Grid())
      modifies this, data
      ensures Valid() && data == old(data) && delimiter == old(delimiter) && rowSelected == old(rowSelected)
      ensures st == Success ==> CopyState(g, delimiter, sel, src, dest, row, Grid())
      ensures st != Success ==> Moved(st, Grid()) == CopyResult(g, delimiter, sel, src, dest)
    {
      ghost var h := Grid();
      CopyRead(g, delimiter, sel, src, dest, done, h);
      assert InGrid(h, row, src) ==> |h[row - 1][src - 1]| < MAX_CELL_LENGTH;
      var content;
      st, content := ReadCell(row, src);
      if st != Success {
        return;
      }
      GridFacts();
      ghost var v := Column(g, src);
      assert content == v[done];
      PutStateShape(g, delimiter, sel, dest, v, done, h);
      st := WriteAt(h, row, dest, content);
      PutWrite(g, delimiter, sel, dest, v, done, row, h, st, Grid());
    }

    /**
     * swapColumn: exchanges the cells in columns c1 and c2 of every
     * selected row. Both cells are read before anything is written, so a
     * column out of range fails at the first selected row with nothing
     * changed; the two writes' answers are not looked at.
     */
    method SwapColumn(c1: int, c2: int) returns (st: State)
      requires Valid() && Rectangular(Grid()) && |Grid()| <= MAX_ROWS
      requires ShortColumn(Grid(), Selected(|Grid()|), c1)
      requires 1 <= c1 <= Width(Grid()) ==> ShortColumn(Grid(), Selected(|Grid()|), c2)
      modifies this, data
      ensures Valid() && data == old(data) && delimiter == old(delimiter) && rowSelected == old(rowSelected)
      ensures st == SwapOutcome(old(Grid()), Selected(old(|Grid()|)), c1, c2)
      ensures Grid() == SwapGrid(old(Grid()), delimiter, Selected(old(|Grid()|)), c1, c2)
    {
      ghost var g := Grid();
      st := SwapLoop(g, Selected(|g|), c1, c2);
    }

    /** The row loop of swapColumn. */
    method SwapLoop(ghost g: Grid, ghost sel: seq<bool>, c1: int, c2: int) returns (st: State)
      requires Valid() && Grid() == g && Rectangular(g) && |g| <= MAX_ROWS && sel == Selected(|g|)
      requires ShortColumn(g, sel, c1) && (1 <= c1 <= Width(g) ==> ShortColumn(g, sel, c2))
      modifies this, data
      ensures Valid() && data == old(data) && delimiter == old(delimiter) && rowSelected == old(rowSelected)
      ensures Moved(st, Grid()) == Moved(SwapOutcome(g, sel, c1, c2), SwapGrid(g, delimiter, sel, c1, c2))
    {
      GridFacts();
      CountRowsSerialize(g, delimiter);
      var numRows := CountRows(Content());
      var row := 1;
      ghost var done: nat := 0;
      while row <= numRows
        invariant 1 <= row <= numRows + 1 && numRows == |g| && done == row - 1
        invariant Valid() && data == old(data) && delimiter == old(delimiter) && rowSelected == old(rowSelected)
        invariant SwapState(g, delimiter, sel, c1, c2, done, Grid())
      {
        SelectedAt(|g|, done, row);
        if rowSelected[row] {
          st := SwapCells(g, sel, c1, c2, row, done);
          if st != Success {
            return;
          }
        } else {
          SwapSkip(g, delimiter, sel, c1, c2, done, row, Grid());
        }
        done := row;
        row := row + 1;
      }
      SwapDone(g, delimiter, sel, c1, c2, Grid());
      return Success;
    }

    /** One selected row of swapColumn: read both cells, then write each into the other's place. */
    method SwapCells(ghost g: Grid, ghost sel: seq<bool>, c1: int, c2: int, row: int, ghost done: nat)
      returns (st: State)
      requires Valid() && Rectangular(g) && |sel| == |g|
      requires ShortColumn(g, sel, c1) && (1 <= c1 <= Width(g) ==> ShortColumn(g, sel, c2))
      requires done == row - 1 && 1 <= row <= |g| && sel[done]
      requires SwapState(g, delimiter, sel, c1, c2, done, Grid())
      modifies this, data
      ensures Valid() && data == old(data) && delimiter == old(delimiter) && rowSelected == old(rowSelected)
      ensures st == Success ==> SwapState(g, delimiter, sel, c1, c2, row, Grid())
      ensures st != Success ==> Moved(st, Grid()) == Moved(SwapOutcome(g, sel, c1, c2), SwapGrid(g, delimiter, sel, c1, c2))
    {
      ghost var h := Grid();
      SwapRead(g, delimiter, sel, c1, c2, done, h);
      assert InGrid(h, row, c1) ==> |h[row - 1][c1 - 1]| < MAX_CELL_LENGTH;
      var content1, content2;
      st, content1 := ReadCell(row, c1);
      if st != Success {
        return;
      }
      assert InGrid(h, row, c2) ==> |h[row - 1][c2 - 1]| < MAX_CELL_LENGTH;
      st, content2 := ReadCell(row, c2);
      if st != Success {
        return;
      }
      SwapBack(g, sel, c1, c2, row, done, h, content1, content2);
    }

    /** The two writes of a selected row of swapColumn, whose answers are not looked at. */
    method SwapBack(ghost g: Grid, ghost sel: seq<bool>, c1: int, c2: int, row: int, ghost done: nat,
      ghost h: Grid, content1: seq<char>, content2: seq<char>)
      requires Valid() && Grid() == h && Rectangular(g) && |sel| == |g|
      requires done == row - 1 && 1 <= row <= |g| && sel[done]
      requires 1 <= c1 <= Width(g) && 1 <= c2 <= Width(g)
      requires SwapState(g, delimiter, sel, c1, c2, done, h)
      requires Rectangular(h) && |h| == |g| && Width(h) == Width(g)
      requires content1 == h[done][c1 - 1] && content2 == h[done][c2 - 1]
      modifies this, data
      ensures Valid() && data == old(data) && delimiter == old(delimiter) && rowSelected == old(rowSelected)
      ensures SwapState(g, delimiter, sel, c1, c2, row, Grid())
    {
      GridFacts();
      assert CleanCell(content1, delimiter) && CleanCell(content2, delimiter);
      WriteIgnored(h, row, c1, content2);
      ghost var h1 := Grid();
      SameShape(h, h1);
      WriteIgnored(h1, row, c2, content1);
      SwapWrite(g, delimiter, sel, c1, c2, done, row, h, h1, Grid());
    }

    /**
     * moveColumn: carries column n to just before column m by swapping
     * adjacent columns, one step at a time, stopping at the first swap that
     * fails.
     */
    method MoveColumn(n: int, m: int) returns (st: State)
      requires Valid() && Rectangular(Grid()) && |Grid()| <= MAX_ROWS
      requires MoveReads(Grid(), Selected(|Grid()|), n, MoveEnd(n, m))
      modifies this, data
      ensures Valid() && data == old(data) && delimiter == old(delimiter) && rowSelected == old(rowSelected)
      ensures Moved(st, Grid()) == MoveFrom(old(Grid()), delimiter, Selected(old(|Grid()|)), n, MoveEnd(n, m))
    {
      ghost var g := Grid();
      st := MoveLoop(g, Selected(|g|), n, m);
    }

    /** The swapping loop of moveColumn. */
    method MoveLoop(ghost g: Grid, ghost sel: seq<bool>, n: int, m: int) returns (st: State)
      requires Valid() && Grid() == g && Rectangular(g) && |g| <= MAX_ROWS && sel == Selected(|g|)
      requires MoveReads(g, sel, n, MoveEnd(n, m))
      modifies this, data
      ensures Valid() && data == old(data) && delimiter == old(delimiter) && rowSelected == old(rowSelected)
      ensures Moved(st, Grid()) == MoveFrom(g, delimiter, sel, n, MoveEnd(n, m))
    {
      var pos := n;
      var endPos := m;
      if n < m {
        endPos := endPos - 1;
      }
      assert endPos == MoveEnd(n, m);
      MoveStart(g, delimiter, sel, n, endPos);
      while pos != endPos
        invariant Valid() && data == old(data) && delimiter == old(delimiter) && rowSelected == old(rowSelected)
        invariant MoveState(g, delimiter, sel, n, endPos, pos, Grid())
        decreases Distance(pos, endPos)
      {
        var direction := 2 * (if pos < endPos then 1 else 0) - 1;
        var next := pos + direction;
        st := MoveStep(g, sel, n, endPos, pos, next);
        if st != Success {
          return;
        }
        pos := next;
      }
      assert MoveFrom(Grid(), delimiter, sel, pos, endPos) == Moved(Success, Grid());
      return Success;
    }

    /** One swap of moveColumn's loop, from column pos to the adjacent column next. */
    method MoveStep(ghost g: Grid, ghost sel: seq<bool>, ghost n: int, ghost e: int, pos: int, next: int)
      returns (st: State)
      requires Valid() && Rectangular(g) && |g| <= MAX_ROWS && sel == Selected(|g|)
      requires pos != e && next == (if pos < e then pos + 1 else pos - 1)
      requires MoveState(g, delimiter, sel, n, e, pos, Grid())
      modifies this, data
      ensures Valid() && data == old(data) && delimiter == old(delimiter) && rowSelected == old(rowSelected)
      ensures st == Success ==> MoveState(g, delimiter, sel, n, e, next, Grid())
      ensures st != Success ==> Moved(st, Grid()) == MoveFrom(g, delimiter, sel, n, e)
    {
      ghost var cur := Grid();
      MoveSwapReads(g, delimiter, sel, n, e, pos, next, cur);
      assert Selected(|cur|) == sel;
      st := SwapColumn(pos, next);
      assert st == SwapOutcome(cur, sel, pos, next);
      assert Grid() == SwapGrid(cur, delimiter, sel, pos, next);
      MoveAdvance(g, delimiter, sel, n, e, pos, next, cur, st, Grid());
    }

    // -------------------------------------------------------------------
    // Selection commands

    /**
     * selectRows: keeps selected only the rows start..end. An end of "-"
     * stands for the last row and "- -" for the last row alone, but both are
     * resolved with the number of columns, which also bounds the range; an
     * empty range is a syntax error and one out of bounds is out of range.
     */
    method SelectRows(start: int, end: int) returns (st: State)
      requires Valid() && Grid() != [] && |Grid()| <= MAX_ROWS
      modifies rowSelected
      ensures st == SelectRowsOutcome(start, end, Width(Grid()))
      ensures st == Success ==> rowSelected[..] == Narrowed(old(rowSelected[..]),
        RowRange(|Grid()|, ResolveSpan(start, end, Width(Grid())).lo, ResolveSpan(start, end, Width(Grid())).hi))
      ensures st != Success ==> rowSelected[..] == old(rowSelected[..])
    {
      ghost var g := Grid();
      GridFacts();
      CountRowsSerialize(g, delimiter);
      TextColumns(Content(), delimiter);
      var numRows := CountRows(Content());
      var numCols := CountColumns(Content(), delimiter);
      var lo, hi := start, end;
      if hi == DASH_NUMBER {
        if lo == DASH_NUMBER {
          lo := numCols;
        }
        hi := numCols;
      }
      if lo > hi {
        return ErrBadSyntax;
      }
      if hi > numCols || lo < 1 {
        return ErrOutOfRange;
      }
      ghost var mask := RowRange(numRows, lo, hi);
      ghost var before := rowSelected[..];
      var row := 1;
      while row <= numRows
        invariant 1 <= row <= numRows + 1 && |rowSelected[..]| == |before|
        invariant AndedUpTo(rowSelected[..], before, mask, row)
      {
        var selected := row >= lo && row <= hi;
        ghost var cur := rowSelected[..];
        rowSelected[row] := rowSelected[row] && selected;
        assert rowSelected[..] == cur[row := cur[row] && selected];
        AndedStep(cur, before, mask, row, row + 1, selected);
        row := row + 1;
      }
      AndedAll(rowSelected[..], before, mask);
      return Success;
    }

    /**
     * selectBeginsWith: keeps selected only the rows whose cell in column
     * col starts with str. The column is checked once, before any row.
     */
    method SelectBeginsWith(col: int, str: seq<char>) returns (st: State)
      requires Valid() && Rectangular(Grid()) && Grid() != [] && |Grid()| <= MAX_ROWS
      requires ShortColumn(Grid(), AllRows(|Grid()|), col)
      modifies rowSelected
      ensures st == (if 1 <= col <= Width(Grid()) then Success else ErrOutOfRange)
      ensures st == Success ==> rowSelected[..] == Narrowed(old(rowSelected[..]), BeginsMask(Grid(), col, str))
      ensures st != Success ==> rowSelected[..] == old(rowSelected[..])
    {
      ghost var g := Grid();
      GridFacts();
      CountRowsSerialize(g, delimiter);
      TextColumns(Content(), delimiter);
      var numRows := CountRows(Content());
      if col < 1 || col > CountColumns(Content(), delimiter) {
        return ErrOutOfRange;
      }
      ghost var mask := BeginsMask(g, col, str);
      ghost var before := rowSelected[..];
      var row := 1;
      while row <= numRows
        invariant 1 <= row <= numRows + 1 && numRows == |g| && |rowSelected[..]| == |before|
        invariant Valid() && Grid() == g
        invariant AndedUpTo(rowSelected[..], before, mask, row)
      {
        var selected := BeginsAt(g, row, col, str);
        ghost var cur := rowSelected[..];
        rowSelected[row] := rowSelected[row] && selected;
        assert rowSelected[..] == cur[row := cur[row] && selected];
        AndedStep(cur, before, mask, row, row + 1, selected);
        row := row + 1;
      }
      AndedAll(rowSelected[..], before, mask);
      return Success;
    }

    /** Row row of selectBeginsWith: strstr finds str at the very start of the cell. */
    method BeginsAt(ghost g: Grid, row: int, col: int, str: seq<char>) returns (selected: bool)
      requires Valid() && Grid() == g && Rectangular(g) && 1 <= row <= |g| && 1 <= col <= Width(g)
      requires ShortColumn(g, AllRows(|g|), col)
      ensures selected == BeginsMask(g, col, str)[row - 1]
      ensures selected <==> str <= g[row - 1][col - 1]
    {
      assert |g[row - 1][col - 1]| < MAX_CELL_LENGTH;
      var st, content := ReadCell(row, col);
      selected := StrStr(content, str) == Some(0);
      BeginsWithIsPrefix(content, str);
    }

    /**
     * selectContains: keeps selected only the rows whose cell in column col
     * contains str. The column is checked once, before any row.
     */
    method SelectContains(col: int, str: seq<char>) returns (st: State)
      requires Valid() && Rectangular(Grid()) && Grid() != [] && |Grid()| <= MAX_ROWS
      requires ShortColumn(Grid(), AllRows(|Grid()|), col)
      modifies rowSelected
      ensures st == (if 1 <= col <= Width(Grid()) then Success else ErrOutOfRange)
      ensures st == Success ==> rowSelected[..] == Narrowed(old(rowSelected[..]), ContainsMask(Grid(), col, str))
      ensures st != Success ==> rowSelected[..] == old(rowSelected[..])
    {
      ghost var g := Grid();
      GridFacts();
      CountRowsSerialize(g, delimiter);
      TextColumns(Content(), delimiter);
      var numRows := CountRows(Content());
      if col < 1 || col > CountColumns(Content(), delimiter) {
        return ErrOutOfRange;
      }
      ghost var mask := ContainsMask(g, col, str);
      ghost var before := rowSelected[..];
      var row := 1;
      while row <= numRows
        invariant 1 <= row <= numRows + 1 && numRows == |g| && |rowSelected[..]| == |before|
        invariant Valid() && Grid() == g
        invariant AndedUpTo(rowSelected[..], before, mask, row)
      {
        var selected := ContainsAt(g, row, col, str);
        ghost var cur := rowSelected[..];
        rowSelected[row] := rowSelected[row] && selected;
        assert rowSelected[..] == cur[row := cur[row] && selected];
        AndedStep(cur, before, mask, row, row + 1, selected);
        row := row + 1;
      }
      AndedAll(rowSelected[..], before, mask);
      return Success;
    }

    /** Row row of selectContains: strstr finds str somewhere in the cell. */
    method ContainsAt(ghost g: Grid, row: int, col: int, str: seq<char>) returns (selected: bool)
      requires Valid() && Grid() == g && Rectangular(g) && 1 <= row <= |g| && 1 <= col <= Width(g)
      requires ShortColumn(g, AllRows(|g|), col)
      ensures selected == ContainsMask(g, col, str)[row - 1]
      ensures selected <==> Contains(g[row - 1][col - 1], str)
    {
      assert |g[row - 1][col - 1]| < MAX_CELL_LENGTH;
      var st, content := ReadCell(row, col);
      selected := StrStr(content, str).Some?;
      ContainsIsSubstring(content, str);
    }

    /** selectAll: every row of the table is selected; the flags beyond it are left alone. */
    method SelectAll()
      requires Valid() && |Grid()| <= MAX_ROWS
      modifies rowSelected
      ensures rowSelected[..] == old(rowSelected[..])[..1] + AllRows(|Grid()|) + old(rowSelected[..])[|Grid()| + 1..]
    {
      ghost var g := Grid();
      GridFacts();
      CountRowsSerialize(g, delimiter);
      var numRows := CountRows(Content());
      ghost var before := rowSelected[..];
      var row := 1;
      while row <= numRows
        invariant 1 <= row <= numRows + 1 && numRows == |g|
        invariant rowSelected[..] == before[..1] + AllRows(row - 1) + before[row..]
      {
        ghost var cur := rowSelected[..];
        rowSelected[row] := true;
        assert rowSelected[..] == cur[row := true];
        SelectAllStep(cur, before, row, row + 1);
        row := row + 1;
      }
    }
  }
}
