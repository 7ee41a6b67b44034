/**
 * What the dispatcher of sheet.c does, as functions: the command registry,
 * isValidOrder, the operands executeCommand reads, the effect of each
 * command on the table, and a whole run of parseCommands. The methods of
 * module Dispatch are proved against these.
 *
 * Where the source's behaviour is undefined (the empty registry slots,
 * whose handlers are NULL, a missing or over-long string
 * operand) or where it leaves the conditions the table operations are
 * modelled under, the outcome is Undefined and nothing more is said. The
 * latter include two cases the source does define: a cset text holding the
 * delimiter or a newline, and toupper or tolower with a letter delimiter
 * that the case change can produce; both write the delimiter or a newline
 * into a cell and report success.
 */
module Commands {
  import opened SheetTypes
  import opened GridView
  import opened Edits
  import opened TableText
  import opened Columns
  import opened Sheet
  import opened Operands

  // ---------------------------------------------------------------------
  // The registry

  /** What a registry entry runs. EmptySlot is an entry left zeroed. */
  datatype Action =
    | EmptySlot
    | IRow | ARow | DRow | DRows | ICol | ACol | DCol | DCols
    | CSet | Lowercase | Uppercase | Round | Truncate | Copy | Swap | Move
    | Rows | BeginsWith | Contains

  /** One entry of the registry (command_t). */
  datatype Command = Command(name: seq<char>, numParameters: nat, hasStringParameter: bool,
                             kind: CommandType, action: Action)

  const EMPTY_SLOT: Command := Command("", 0, false, NotSet, EmptySlot)

  /** The layout commands: slots 0 to 7 of the registry. */
  const LAYOUT_COMMANDS: seq<Command> := [
    Command("irow", 1, false, Layout, IRow),
    Command("arow", 0, false, Layout, ARow),
    Command("drow", 1, false, Layout, DRow),
    Command("drows", 2, false, Layout, DRows),
    Command("icol", 1, false, Layout, ICol),
    Command("acol", 0, false, Layout, ACol),
    Command("dcol", 1, false, Layout, DCol),
    Command("dcols", 2, false, Layout, DCols)
  ]

  /** The data commands: slots 8 to 15. */
  const DATA_COMMANDS: seq<Command> := [
    Command("cset", 1, true, Data, CSet),
    Command("tolower", 1, false, Data, Lowercase),
    Command("toupper", 1, false, Data, Uppercase),
    Command("round", 1, false, Data, Round),
    Command("int", 1, false, Data, Truncate),
    Command("copy", 2, false, Data, Copy),
    Command("swap", 2, false, Data, Swap),
    Command("move", 2, false, Data, Move)
  ]

  /** The selection commands: slots 16 to 18. */
  const SELECTION_COMMANDS: seq<Command> := [
    Command("rows", 2, false, Selection, Rows),
    Command("beginswith", 1, true, Selection, BeginsWith),
    Command("contains", 1, true, Selection, Contains)
  ]

  /** The 25 slots parseCommands searches, in order; the last 6 are zeroed. */
  const COMMANDS: seq<Command> :=
    LAYOUT_COMMANDS + DATA_COMMANDS + SELECTION_COMMANDS +
    [EMPTY_SLOT, EMPTY_SLOT, EMPTY_SLOT, EMPTY_SLOT, EMPTY_SLOT, EMPTY_SLOT]


  /** Number of integer operands each action takes. */
  function Arity(a: Action): nat
  {
    match a
    case EmptySlot | ARow | ACol => 0
    case DRows | DCols | Copy | Swap | Move | Rows => 2
    case _ => 1
  }

  function KindOf(a: Action): CommandType
  {
    match a
    case EmptySlot => NotSet
    case IRow | ARow | DRow | DRows | ICol | ACol | DCol | DCols => Layout
    case Rows | BeginsWith | Contains => Selection
    case _ => Data
  }

  /** The actions with a string operand after their integer operands. */
  predicate TakesText(a: Action)
  {
    a == CSet || a == BeginsWith || a == Contains
  }

  /** An entry whose operand counts and category agree with its action. */
  predicate Coherent(c: Command)
  {
    c.numParameters == Arity(c.action) && c.kind == KindOf(c.action) &&
    (c.hasStringParameter <==> TakesText(c.action))
  }

  /** Every slot is coherent, and only the zeroed slots have category NotSet. */
  lemma RegistryCoherent()
    ensures |COMMANDS| == NUM_COMMANDS
    ensures forall i :: 0 <= i < |COMMANDS| ==> Coherent(COMMANDS[i])
    ensures forall i :: 0 <= i < |COMMANDS| ==> (COMMANDS[i].kind == NotSet <==> i >= 19)
  {
    EntriesCoherent();
    ZeroedSlots();
  }

  lemma EntriesCoherent()
    ensures forall i :: 0 <= i < |COMMANDS| ==> Coherent(COMMANDS[i])
  {
    forall i | 0 <= i < |COMMANDS| ensures Coherent(COMMANDS[i]) {
      SlotIn(i);
    }
  }

  lemma ZeroedSlots()
    ensures forall i :: 0 <= i < |COMMANDS| ==> (COMMANDS[i].kind == NotSet <==> i >= 19)
  {
    forall i | 0 <= i < |COMMANDS| ensures COMMANDS[i].kind == NotSet <==> i >= 19 {
      SlotIn(i);
    }
  }

  /** Slot i is coherent, and of category NotSet exactly when it is one of the zeroed ones. */
  lemma SlotIn(i: int)
    requires 0 <= i < |COMMANDS|
    ensures Coherent(COMMANDS[i]) && (COMMANDS[i].kind == NotSet <==> i >= 19)
  {
    if i < 8 {
      assert COMMANDS[i] == LAYOUT_COMMANDS[i];
      LayoutSlot(i);
    } else if i < 16 {
      assert COMMANDS[i] == DATA_COMMANDS[i - 8];
      DataSlot(i - 8);
    } else if i < 19 {
      assert COMMANDS[i] == SELECTION_COMMANDS[i - 16];
      SelectionSlot(i - 16);
    } else {
      assert COMMANDS[i] == EMPTY_SLOT;
    }
  }

  lemma LayoutSlot(j: int)
    requires 0 <= j < |LAYOUT_COMMANDS|
    ensures Coherent(LAYOUT_COMMANDS[j]) && LAYOUT_COMMANDS[j].kind == Layout
  {
  }

  lemma DataSlot(j: int)
    requires 0 <= j < |DATA_COMMANDS|
    ensures Coherent(DATA_COMMANDS[j]) && DATA_COMMANDS[j].kind == Data
  {
  }

  lemma SelectionSlot(j: int)
    requires 0 <= j < |SELECTION_COMMANDS|
    ensures Coherent(SELECTION_COMMANDS[j]) && SELECTION_COMMANDS[j].kind == Selection
  {
  }

  /** The first slot named `name`, as the registry search finds it. */
  function FirstMatch(name: seq<char>): (r: Option<nat>)
    ensures r.Some? ==> r.value < |COMMANDS| && COMMANDS[r.value].name == name
    ensures r.Some? ==> forall j :: 0 <= j < r.value ==> COMMANDS[j].name != name
    ensures r.None? ==> forall j :: 0 <= j < |COMMANDS| ==> COMMANDS[j].name != name
  {
    MatchFrom(name, 0)
  }

  function MatchFrom(name: seq<char>, k: nat): (r: Option<nat>)
    requires k <= |COMMANDS|
    requires forall j :: 0 <= j < k ==> COMMANDS[j].name != name
    ensures r.Some? ==> k <= r.value < |COMMANDS| && COMMANDS[r.value].name == name
    ensures r.Some? ==> forall j :: 0 <= j < r.value ==> COMMANDS[j].name != name
    ensures r.None? ==> forall j :: 0 <= j < |COMMANDS| ==> COMMANDS[j].name != name
    decreases |COMMANDS| - k
  {
    if k == |COMMANDS| then None
    else if COMMANDS[k].name == name then Some(k)
    else MatchFrom(name, k + 1)
  }

  /** A slot that no earlier slot shares a name with is the one the search finds. */
  lemma FirstIsUnique(name: seq<char>, i: nat)
    requires i < |COMMANDS| && COMMANDS[i].name == name
    requires forall j :: 0 <= j < i ==> COMMANDS[j].name != name
    ensures FirstMatch(name) == Some(i)
  {
  }

  /** The empty argument names the first zeroed slot. */
  lemma EmptyNameFound()
    ensures FirstMatch("") == Some(19)
  {
    FirstIsUnique("", 19);
  }

  // ---------------------------------------------------------------------
  // Order of the commands

  /** isValidOrder: may a command of category current follow one of category last? */
  predicate IsValidOrder(current: CommandType, last: CommandType)
  {
    match last
    case NotSet => true
    case Layout => current == Layout
    case Data => false
    case Selection => current == Data || current == Selection
  }

  /** Every command may follow the one before it. */
  predicate Chained(ts: seq<CommandType>)
  {
    forall i :: 0 < i < |ts| ==> IsValidOrder(ts[i], ts[i - 1])
  }

  /**
   * The sequences the usage line allows: layout commands only, or
   * selections followed by at most one data command.
   */
  predicate Sentence(ts: seq<CommandType>)
  {
    (forall i :: 0 <= i < |ts| ==> ts[i] == Layout) ||
    ((forall i :: 0 <= i < |ts| - 1 ==> ts[i] == Selection) &&
     (ts != [] ==> ts[|ts| - 1] == Data || ts[|ts| - 1] == Selection))
  }

  /** isValidOrder, applied pairwise, accepts exactly the sentences. */
  lemma {:induction false} OrderIsSentence(ts: seq<CommandType>)
    requires forall i :: 0 <= i < |ts| ==> ts[i] != NotSet
    ensures Chained(ts) <==> Sentence(ts)
  {
    if |ts| > 1 {
      var init := ts[..|ts| - 1];
      OrderIsSentence(init);
      assert forall i :: 0 <= i < |init| ==> init[i] == ts[i];
      assert Chained(ts) <==> Chained(init) && IsValidOrder(ts[|ts| - 1], ts[|ts| - 2]);
    }
  }

  // ---------------------------------------------------------------------
  // Integer operands

  datatype Ints = Ints(ok: bool, values: seq<int>, index: nat)

  /** The loop of executeCommand reading `count` integer operands from index on. */
  function ReadOperands(argv: seq<seq<char>>, index: nat, count: nat): (r: Ints)
    ensures r.index >= index
    ensures r.ok ==> |r.values| == count && r.index == index + count
  {
    if count == 0 then Ints(true, [], index)
    else
      var prev := ReadOperands(argv, index, count - 1);
      if !prev.ok then prev
      else if prev.index < |argv| && IntArg(argv[prev.index]).Some? then
        Ints(true, prev.values + [IntArg(argv[prev.index]).value], prev.index + 1)
      else Ints(false, prev.values, prev.index)
  }

  /** Argument k exists and readInt accepts it. */
  predicate IsOperand(argv: seq<seq<char>>, k: nat)
  {
    k < |argv| && IntArg(argv[k]).Some?
  }

  /**
   * The operands are read when each of the next `count` arguments is a
   * number, and then they are those numbers.
   */
  lemma {:induction false} OperandsRead(argv: seq<seq<char>>, index: nat, count: nat)
    ensures ReadOperands(argv, index, count).ok <==> forall k :: index <= k < index + count ==> IsOperand(argv, k)
    ensures ReadOperands(argv, index, count).ok ==>
      forall k :: index <= k < index + count ==>
        IsOperand(argv, k) && ReadOperands(argv, index, count).values[k - index] == IntArg(argv[k]).value
  {
    if count > 0 {
      var prev := ReadOperands(argv, index, count - 1);
      var r := ReadOperands(argv, index, count);
      OperandsRead(argv, index, count - 1);
      if r.ok {
        assert prev.ok && prev.index == index + (count - 1);
        forall k | index <= k < index + count
          ensures IsOperand(argv, k) && r.values[k - index] == IntArg(argv[k]).value
        {
          if k < index + count - 1 {
            assert r.values[k - index] == prev.values[k - index];
          }
        }
      } else if prev.ok {
        assert prev.index == index + count - 1 && !IsOperand(argv, prev.index);
      } else {
        var k :| index <= k < index + count - 1 && !IsOperand(argv, k);
      }
    }
  }

  /** Once an operand is refused, reading stops there. */
  lemma {:induction false} RefusalSticks(argv: seq<seq<char>>, index: nat, k: nat, count: nat)
    requires k <= count && !ReadOperands(argv, index, k).ok
    ensures ReadOperands(argv, index, count) == ReadOperands(argv, index, k)
    decreases count
  {
    if count > k {
      RefusalSticks(argv, index, k, count - 1);
    }
  }

  // ---------------------------------------------------------------------
  // What one command does to the table

  /** The transforms of round and int, which go through floating point. */
  datatype Rewrites = Rewrites(round: seq<char> -> seq<char>, truncate: seq<char> -> seq<char>)

  ghost predicate SafeRewrites(rw: Rewrites, d: char)
  {
    SafeOp(Rewrite(rw.round), d) && SafeOp(Rewrite(rw.truncate), d)
  }

  function OpOf(a: Action, rw: Rewrites): LineOp
  {
    match a
    case Lowercase => ToLower
    case Uppercase => ToUpper
    case Round => Rewrite(rw.round)
    case _ => Rewrite(rw.truncate)
  }

  /** The selection flags of rows 1..|g| out of the whole flag array. */
  function RowFlags(g: Grid, flags: seq<bool>): (sel: seq<bool>)
    requires |g| < |flags|
    ensures |sel| == |g|
  {
    flags[1..|g| + 1]
  }

  /** A column command's table: rectangular, with a flag per row and short cells in column col. */
  predicate Columned(g: Grid, flags: seq<bool>, col: int)
  {
    Rectangular(g) && |g| <= MAX_ROWS && |g| < |flags| && ShortColumn(g, RowFlags(g, flags), col)
  }

  /** The conditions under which the command is modelled (see the module comment). */
  predicate Defined(a: Action, ps: seq<int>, str: seq<char>, g: Grid, d: char, flags: seq<bool>)
    requires |ps| == Arity(a)
  {
    match a
    case EmptySlot => false
    case IRow | ARow | ICol | ACol | DCol | DCols => Rectangular(g) && g != []
    case DRow | DRows => true
    case CSet => Rectangular(g) && |g| <= MAX_ROWS && |g| < |flags| && CleanCell(str, d)
    case Lowercase => Columned(g, flags, ps[0]) && CaseSafe(ToLower, d)
    case Uppercase => Columned(g, flags, ps[0]) && CaseSafe(ToUpper, d)
    case Round | Truncate | Copy => Columned(g, flags, ps[0])
    case Swap =>
      Columned(g, flags, ps[0]) && (1 <= ps[0] <= Width(g) ==> ShortColumn(g, RowFlags(g, flags), ps[1]))
    case Move =>
      Rectangular(g) && |g| <= MAX_ROWS && |g| < |flags| && MoveReads(g, RowFlags(g, flags), ps[0], MoveEnd(ps[0], ps[1]))
    case Rows => g != [] && |g| <= MAX_ROWS
    case BeginsWith | Contains =>
      Rectangular(g) && g != [] && |g| <= MAX_ROWS && ShortColumn(g, AllRows(|g|), ps[0])
  }

  /** The state after a command: its status, the table and the flag array. */
  datatype After = After(st: State, grid: Grid, flags: seq<bool>)

  /**
   * The bytes a text of `size` bytes leaves free before the last slot of
   * the buffer, which the terminator keeps.
   */
  function Room(size: nat): nat
  {
    if size < MAX_LINE_LENGTH then MAX_LINE_LENGTH - 1 - size else 0
  }

  /** A layout command (irow ... dcols) on table g, whose text has `size` bytes. */
  function LayoutEffect(a: Action, ps: seq<int>, g: Grid, size: nat): (r: Moved)
    requires KindOf(a) == Layout && |ps| == Arity(a)
    requires a != DRow && a != DRows ==> Rectangular(g) && g != []
  {
    var w := Width(g);
    match a
    case IRow =>
      if ps[0] < 1 || ps[0] > |g| + 1 then Moved(ErrOutOfRange, g)
      else if size + w >= MAX_LINE_LENGTH then Moved(ErrTooLong, g)
      else Moved(Success, InsertRow(g, ps[0] - 1, Blank(w)))
    case ARow =>
      if size + w >= MAX_LINE_LENGTH then Moved(ErrTooLong, g)
      else Moved(Success, g + [Blank(w)])
    case DRow =>
      if ps[0] < 1 || ps[0] > |g| then Moved(ErrOutOfRange, g)
      else Moved(Success, DeleteRow(g, ps[0] - 1))
    case DRows =>
      var m, n := ps[0], ps[1];
      if n < m then Moved(ErrBadSyntax, g)
      else if 1 <= m && n <= |g| then Moved(Success, g[..m - 1] + g[n..])
      else if 1 <= m <= |g| then Moved(ErrOutOfRange, g[..m - 1])
      else Moved(ErrOutOfRange, g)
    case ICol =>
      if ps[0] < 1 || ps[0] > w + 1 then Moved(ErrOutOfRange, g)
      else if size + |g| >= MAX_LINE_LENGTH then
        Moved(ErrTooLong, InsertColumn(g, ps[0] - 1, Room(size)))
      else Moved(Success, InsertColumn(g, ps[0] - 1, |g|))
    case ACol =>
      if size + |g| >= MAX_LINE_LENGTH then Moved(ErrTooLong, InsertColumn(g, w, Room(size)))
      else Moved(Success, InsertColumn(g, w, |g|))
    case DCol =>
      var st := DcolOutcome(w, ps[0]);
      if st == Success then Moved(st, DeleteColumn(g, ps[0] - 1, |g|)) else Moved(st, g)
    case DCols =>
      var m, n := ps[0], ps[1];
      var st := DcolsOutcome(w, m, n);
      if st == Success then Moved(st, CutColumns(g, m - 1, n - m + 1))
      else if n < m || !(1 <= m <= w) then Moved(st, g)
      else Moved(st, CutColumns(g, m - 1, DcolsReach(w, m)))
  }

  /**
   * A layout command that succeeds on a rectangular table leaves it
   * rectangular: icol and acol widen it by one column, dcol narrows it by
   * one, dcols by the columns it cuts, and irow and arow keep its width.
   */
  lemma LayoutKeepsShape(a: Action, ps: seq<int>, g: Grid, size: nat, m: Moved)
    requires KindOf(a) == Layout && |ps| == Arity(a) && Rectangular(g) && g != []
    requires m == LayoutEffect(a, ps, g, size)
    ensures m.st == Success ==> Rectangular(m.grid)
    ensures m.st == Success && (a == IRow || a == ARow) ==> Width(m.grid) == Width(g)
    ensures m.st == Success && (a == ICol || a == ACol) ==> Width(m.grid) == Width(g) + 1
    ensures m.st == Success && a == DCol ==> Width(m.grid) == Width(g) - 1
    ensures m.st == Success && a == DCols ==> Width(m.grid) == Width(g) - (ps[1] - ps[0] + 1)
  {
    if a in {IRow, ARow, DRow, DRows} {
      RowEditShape(a, ps, g, size, m);
    } else {
      ColumnEditShape(a, ps, g, size, m);
    }
  }

  lemma RowEditShape(a: Action, ps: seq<int>, g: Grid, size: nat, m: Moved)
    requires a in {IRow, ARow, DRow, DRows} && |ps| == Arity(a) && Rectangular(g) && g != []
    requires m == LayoutEffect(a, ps, g, size)
    ensures m.st == Success ==> Rectangular(m.grid)
    ensures m.st == Success && (a == IRow || a == ARow) ==> Width(m.grid) == Width(g)
  {
    var w := Width(g);
    if m.st == Success {
      match a
      case IRow => RectangularInsertRow(g, ps[0] - 1, w);
      case ARow =>
        RectangularInsertRow(g, |g|, w);
        assert InsertRow(g, |g|, Blank(w)) == g + [Blank(w)];
      case DRow => RectangularDeleteRow(g, ps[0] - 1);
      case DRows => RectangularCut(g, ps[0] - 1, ps[1]);
    }
  }

  lemma ColumnEditShape(a: Action, ps: seq<int>, g: Grid, size: nat, m: Moved)
    requires a in {ICol, ACol, DCol, DCols} && |ps| == Arity(a) && Rectangular(g) && g != []
    requires m == LayoutEffect(a, ps, g, size)
    ensures m.st == Success ==> Rectangular(m.grid)
    ensures m.st == Success && (a == ICol || a == ACol) ==> Width(m.grid) == Width(g) + 1
    ensures m.st == Success && a == DCol ==> Width(m.grid) == Width(g) - 1
    ensures m.st == Success && a == DCols ==> Width(m.grid) == Width(g) - (ps[1] - ps[0] + 1)
  {
    var w := Width(g);
    if m.st == Success {
      match a
      case ICol => RectangularInsertColumn(g, ps[0] - 1);
      case ACol => RectangularInsertColumn(g, w);
      case DCol => RectangularDeleteColumn(g, ps[0] - 1);
      case DCols => RectangularCutColumns(g, ps[0] - 1, ps[1] - ps[0] + 1);
    }
  }

  /** icol col as a layout command: out of range, too long with the rows that fit widened, or done. */
  lemma IcolEffect(g: Grid, size: nat, col: int, e: Moved)
    requires Rectangular(g) && g != [] && e == LayoutEffect(ICol, [col], g, size)
    ensures e.st == ErrOutOfRange <==> col < 1 || col > Width(g) + 1
    ensures e.st == ErrOutOfRange ==> e.grid == g
    ensures e.st == ErrTooLong <==> 1 <= col <= Width(g) + 1 && size + |g| >= MAX_LINE_LENGTH
    ensures e.st == ErrTooLong ==> e.grid == InsertColumn(g, col - 1, Room(size))
    ensures e.st != ErrOutOfRange && e.st != ErrTooLong ==> e == Moved(Success, InsertColumn(g, col - 1, |g|))
  {
    IcolCases(g, size, col, e);
  }

  /** The three branches of icol as a layout command. */
  lemma IcolCases(g: Grid, size: nat, col: int, e: Moved)
    requires Rectangular(g) && g != [] && e == LayoutEffect(ICol, [col], g, size)
    ensures col < 1 || col > Width(g) + 1 ==> e == Moved(ErrOutOfRange, g)
    ensures 1 <= col <= Width(g) + 1 && size + |g| >= MAX_LINE_LENGTH ==>
      e == Moved(ErrTooLong, InsertColumn(g, col - 1, Room(size)))
    ensures 1 <= col <= Width(g) + 1 && size + |g| < MAX_LINE_LENGTH ==>
      e == Moved(Success, InsertColumn(g, col - 1, |g|))
  {
    assert [col][0] == col;
  }

  /** dcols m n as a layout command: the outcome of the passes and the columns they cut. */
  lemma DcolsEffect(g: Grid, size: nat, m: int, n: int, e: Moved)
    requires Rectangular(g) && g != [] && e == LayoutEffect(DCols, [m, n], g, size)
    ensures e.st == DcolsOutcome(Width(g), m, n)
    ensures e.st == Success ==> e.grid == CutColumns(g, m - 1, n - m + 1)
    ensures n < m || !(1 <= m <= Width(g)) ==> e.grid == g
    ensures m <= n && 1 <= m <= Width(g) && e.st != Success ==> e.grid == CutColumns(g, m - 1, DcolsReach(Width(g), m))
  {
  }

  /** A data command (cset ... move) on the selected rows sel of g. */
  function DataEffect(a: Action, ps: seq<int>, str: seq<char>, g: Grid, d: char, sel: seq<bool>, rw: Rewrites): Moved
    requires KindOf(a) == Data && |ps| == Arity(a) && Rectangular(g) && |sel| == |g|
  {
    match a
    case CSet => WriteColumn(g, d, sel, ps[0], Fill(|g|, str))
    case Copy => CopyResult(g, d, sel, ps[0], ps[1])
    case Swap => Moved(SwapOutcome(g, sel, ps[0], ps[1]), SwapGrid(g, d, sel, ps[0], ps[1]))
    case Move => MoveFrom(g, d, sel, ps[0], MoveEnd(ps[0], ps[1]))
    case Lowercase | Uppercase | Round | Truncate =>
      var col := ps[0];
      if 1 <= col <= Width(g) then Moved(ColumnOutcome(g, sel, col), ModifyRows(g, d, sel, col, OpOf(a, rw), |g|))
      else Moved(ColumnOutcome(g, sel, col), g)
  }

  /**
   * A data command rewrites cells only: whatever its status, the table keeps
   * its number of rows, stays rectangular and keeps its width.
   */
  lemma DataKeepsShape(a: Action, ps: seq<int>, str: seq<char>, g: Grid, d: char, sel: seq<bool>, rw: Rewrites, m: Moved)
    requires KindOf(a) == Data && |ps| == Arity(a) && Rectangular(g) && |sel| == |g|
    requires m == DataEffect(a, ps, str, g, d, sel, rw)
    ensures |m.grid| == |g| && Rectangular(m.grid) && Width(m.grid) == Width(g)
  {
    match a
    case CSet | Copy | Lowercase | Uppercase | Round | Truncate =>
      assert forall i :: 0 <= i < |g| ==> |m.grid[i]| == |g[i]|;
      SameShape(g, m.grid);
    case Swap =>
    case Move =>
  }

  /** A selection command on the flag array flags of table g. */
  function SelectEffect(a: Action, ps: seq<int>, str: seq<char>, g: Grid, flags: seq<bool>): (r: After)
    requires KindOf(a) == Selection && |ps| == Arity(a)
    requires |g| < |flags| && (a != Rows ==> Rectangular(g))
  {
    match a
    case Rows =>
      var st := SelectRowsOutcome(ps[0], ps[1], Width(g));
      var span := ResolveSpan(ps[0], ps[1], Width(g));
      if st == Success then After(st, g, Narrowed(flags, RowRange(|g|, span.lo, span.hi)))
      else After(st, g, flags)
    case BeginsWith =>
      if 1 <= ps[0] <= Width(g) then After(Success, g, Narrowed(flags, BeginsMask(g, ps[0], str)))
      else After(ErrOutOfRange, g, flags)
    case Contains =>
      if 1 <= ps[0] <= Width(g) then After(Success, g, Narrowed(flags, ContainsMask(g, ps[0], str)))
      else After(ErrOutOfRange, g, flags)
  }

  /** What a modelled command does to table g (text `size` bytes long) and the flag array. */
  function Effect(a: Action, ps: seq<int>, str: seq<char>, g: Grid, d: char, flags: seq<bool>, rw: Rewrites): After
    requires |ps| == Arity(a) && |flags| == MAX_ROWS + 1 && Defined(a, ps, str, g, d, flags)
  {
    match KindOf(a)
    case Layout =>
      var m := LayoutEffect(a, ps, g, |Serialize(g, d)|);
      After(m.st, m.grid, flags)
    case Data =>
      var m := DataEffect(a, ps, str, g, d, RowFlags(g, flags), rw);
      After(m.st, m.grid, flags)
    case Selection => SelectEffect(a, ps, str, g, flags)
  }

  // ---------------------------------------------------------------------
  // executeCommand

  datatype Outcome = Status(st: State) | Undefined

  /** The outcome of a command, the table and flags after it, and the next argument. */
  datatype Step = Step(outcome: Outcome, grid: Grid, flags: seq<bool>, index: nat)

  /**
   * executeCommand for entry c, its name already consumed, on table g:
   * the integer operands, then the string operand, then the command.
   */
  function Execute(c: Command, argv: seq<seq<char>>, index: nat, g: Grid, d: char, flags: seq<bool>,
                   rw: Rewrites): (r: Step)
    requires Coherent(c) && |flags| == MAX_ROWS + 1
    ensures r.index >= index
    ensures r.outcome != Undefined ==> |r.flags| == MAX_ROWS + 1
  {
    var ops := ReadOperands(argv, index, c.numParameters);
    if !ops.ok then Step(Status(ErrBadSyntax), g, flags, ops.index)
    else if c.hasStringParameter && (ops.index >= |argv| || |argv[ops.index]| >= MAX_CELL_LENGTH) then
      Step(Undefined, g, flags, ops.index)
    else
      var str := if c.hasStringParameter then argv[ops.index] else [];
      var next := if c.hasStringParameter then ops.index + 1 else ops.index;
      Perform(c.action, ops.values, str, g, d, flags, rw, next)
  }

  /** The command itself, once its operands are read; next is the argument after them. */
  function Perform(a: Action, ps: seq<int>, str: seq<char>, g: Grid, d: char, flags: seq<bool>,
                   rw: Rewrites, next: nat): (r: Step)
    requires |ps| == Arity(a) && |flags| == MAX_ROWS + 1
    ensures r.index == next
    ensures r.outcome != Undefined ==> |r.flags| == MAX_ROWS + 1
  {
    if !Defined(a, ps, str, g, d, flags) then Step(Undefined, g, flags, next)
    else
      var e := Effect(a, ps, str, g, d, flags, rw);
      Step(Status(e.st), e.grid, e.flags, next)
  }

  // ---------------------------------------------------------------------
  // parseCommands

  /** A run of commands: its outcome, the table, the flags, the next argument and the categories run. */
  datatype Run = Run(outcome: Outcome, grid: Grid, flags: seq<bool>, index: nat, kinds: seq<CommandType>)

  /**
   * The loop of parseCommands from argument index on, the last command run
   * being of category last: look the argument up, check the order, run the
   * command, and go on while it succeeds.
   */
  function ParseFrom(argv: seq<seq<char>>, index: nat, g: Grid, d: char, flags: seq<bool>,
                     last: CommandType, rw: Rewrites): (r: Run)
    requires |flags| == MAX_ROWS + 1
    decreases |argv| - index
  {
    if index >= |argv| then Run(Status(Success), g, flags, index, [])
    else
      match FirstMatch(argv[index])
      case None => Run(Status(ErrBadSyntax), g, flags, index, [])
      case Some(i) =>
        var c := COMMANDS[i];
        if !IsValidOrder(c.kind, last) then Run(Status(ErrBadOrder), g, flags, index + 1, [])
        else
          RegistryCoherent();
          var s := Execute(c, argv, index + 1, g, d, flags, rw);
          if s.outcome != Status(Success) then Run(s.outcome, s.grid, s.flags, s.index, [c.kind])
          else
            var rest := ParseFrom(argv, s.index, s.grid, d, s.flags, c.kind, rw);
            Run(rest.outcome, rest.grid, rest.flags, rest.index, [c.kind] + rest.kinds)
  }

  /** Two runs that end alike: same outcome, table, flags and next argument. */
  predicate SameEnd(x: Run, y: Run)
  {
    x.outcome == y.outcome && x.grid == y.grid && x.flags == y.flags && x.index == y.index
  }

  /** The loop of parseCommands at an argument that names no command: ErrBadSyntax. */
  lemma ParseUnknown(argv: seq<seq<char>>, index: nat, g: Grid, d: char, flags: seq<bool>,
                     last: CommandType, rw: Rewrites)
    requires |flags| == MAX_ROWS + 1 && index < |argv| && FirstMatch(argv[index]).None?
    ensures ParseFrom(argv, index, g, d, flags, last, rw) == Run(Status(ErrBadSyntax), g, flags, index, [])
  {
  }

  /** The loop of parseCommands at a command that may not follow category last: ErrBadOrder. */
  lemma ParseOutOfOrder(argv: seq<seq<char>>, index: nat, g: Grid, d: char, flags: seq<bool>,
                        last: CommandType, rw: Rewrites, c: Command)
    requires |flags| == MAX_ROWS + 1 && index < |argv| && FirstMatch(argv[index]).Some?
    requires c == COMMANDS[FirstMatch(argv[index]).value] && !IsValidOrder(c.kind, last)
    ensures ParseFrom(argv, index, g, d, flags, last, rw) == Run(Status(ErrBadOrder), g, flags, index + 1, [])
  {
  }

  /**
   * The loop of parseCommands at a command it runs: the run ends with a
   * command that does not succeed, and goes on from the next argument after
   * one that does.
   */
  lemma ParseRan(argv: seq<seq<char>>, index: nat, g: Grid, d: char, flags: seq<bool>,
                 last: CommandType, rw: Rewrites, c: Command, s: Step)
    requires |flags| == MAX_ROWS + 1 && index < |argv| && FirstMatch(argv[index]).Some?
    requires c == COMMANDS[FirstMatch(argv[index]).value] && IsValidOrder(c.kind, last) && Coherent(c)
    requires s == Execute(c, argv, index + 1, g, d, flags, rw)
    ensures s.outcome != Status(Success) ==>
      SameEnd(Run(s.outcome, s.grid, s.flags, s.index, []), ParseFrom(argv, index, g, d, flags, last, rw))
    ensures s.outcome == Status(Success) ==> |s.flags| == MAX_ROWS + 1
    ensures s.outcome == Status(Success) ==>
      SameEnd(ParseFrom(argv, s.index, s.grid, d, s.flags, c.kind, rw), ParseFrom(argv, index, g, d, flags, last, rw))
  {
    RegistryCoherent();
  }

  /** parseCommands: NotFound when no argument is left for a command. */
  function ParseCommandsRun(argv: seq<seq<char>>, index: nat, g: Grid, d: char, flags: seq<bool>,
                            rw: Rewrites): Run
    requires |flags| == MAX_ROWS + 1
  {
    if index >= |argv| then Run(Status(NotFound), g, flags, index, [])
    else ParseFrom(argv, index, g, d, flags, NotSet, rw)
  }

  /**
   * A successful run from category last ran a chain of commands of known
   * categories, the first of which may follow last.
   */
  lemma {:induction false} RunChained(argv: seq<seq<char>>, index: nat, g: Grid, d: char, flags: seq<bool>,
                                      last: CommandType, rw: Rewrites)
    requires |flags| == MAX_ROWS + 1
    ensures var r := ParseFrom(argv, index, g, d, flags, last, rw);
      r.outcome == Status(Success) ==>
        Chained(r.kinds) && (forall i :: 0 <= i < |r.kinds| ==> r.kinds[i] != NotSet) &&
        (r.kinds != [] ==> IsValidOrder(r.kinds[0], last)) && (index < |argv| ==> r.kinds != [])
    decreases |argv| - index
  {
    if index < |argv| && FirstMatch(argv[index]).Some? {
      var c := COMMANDS[FirstMatch(argv[index]).value];
      RegistryCoherent();
      if IsValidOrder(c.kind, last) {
        var s := Execute(c, argv, index + 1, g, d, flags, rw);
        if s.outcome == Status(Success) {
          RunChained(argv, s.index, s.grid, d, s.flags, c.kind, rw);
          var rest := ParseFrom(argv, s.index, s.grid, d, s.flags, c.kind, rw);
          var ks := [c.kind] + rest.kinds;
          assert ks[1..] == rest.kinds;
          assert c.action != EmptySlot;
        }
      }
    }
  }

  /**
   * Every successful parseCommands ran at least one command, and the
   * categories it ran form a sentence: layout commands only, or
   * selections and at most one data command at the end.
   */
  lemma SuccessIsSentence(argv: seq<seq<char>>, index: nat, g: Grid, d: char, flags: seq<bool>, rw: Rewrites)
    requires |flags| == MAX_ROWS + 1
    ensures var r := ParseCommandsRun(argv, index, g, d, flags, rw);
      r.outcome == Status(Success) ==> r.kinds != [] && Sentence(r.kinds)
  {
    var r := ParseCommandsRun(argv, index, g, d, flags, rw);
    if r.outcome == Status(Success) {
      RunChained(argv, index, g, d, flags, NotSet, rw);
      OrderIsSentence(r.kinds);
    }
  }

  /**
   * An empty argument matches a zeroed slot: as the first command it calls
   * a NULL function, after any other it is out of order.
   */
  lemma EmptyArgument(argv: seq<seq<char>>, index: nat, g: Grid, d: char, flags: seq<bool>,
                      last: CommandType, rw: Rewrites)
    requires |flags| == MAX_ROWS + 1 && index < |argv| && argv[index] == ""
    ensures ParseFrom(argv, index, g, d, flags, last, rw).outcome ==
      if last == NotSet then Undefined else Status(ErrBadOrder)
  {
    EmptyNameFound();
  }
}
