/**
 * The dispatcher of sheet.c as it runs: the registry search, the operand
 * loop and executeCommand, and the command loop of parseCommands, each
 * proved to do what module Commands says.
 */
module Dispatch {
  import opened SheetTypes
  import opened GridView
  import opened Edits
  import opened Columns
  import opened Sheet
  import opened Operands
  import opened Commands

  /** The registry search of parseCommands: strcmp against every slot in turn. */
  method Find(name: seq<char>) returns (r: Option<nat>)
    ensures r == FirstMatch(name)
  {
    var i := 0;
    while i < |COMMANDS|
      invariant 0 <= i <= |COMMANDS|
      invariant forall j :: 0 <= j < i ==> COMMANDS[j].name != name
    {
      if COMMANDS[i].name == name {
        r := Some(i);
        FirstIsUnique(name, i);
        return;
      }
      i := i + 1;
    }
    r := None;
  }

  /** The operand loop of executeCommand; it stops at the first argument that is not a number. */
  method ReadParameters(args: Arguments, count: nat) returns (ok: bool, ps: seq<int>)
    modifies args
    ensures ReadOperands(args.argv, old(args.index), count) == Ints(ok, ps, args.index)
  {
    ps := [];
    var k := 0;
    while k < count
      invariant 0 <= k <= count
      invariant ReadOperands(args.argv, old(args.index), k) == Ints(true, ps, args.index)
    {
      var n;
      ok, n := args.ReadInt();
      if !ok {
        RefusalSticks(args.argv, old(args.index), k + 1, count);
        return;
      }
      ps := ps + [n];
      k := k + 1;
    }
    ok := true;
  }


  /** A layout command run on table t, as LayoutEffect says. */
  method RunLayout(t: Table, a: Action, ps: seq<int>) returns (st: State)
    requires t.Valid() && KindOf(a) == Layout && |ps| == Arity(a)
    requires a != DRow && a != DRows ==> Rectangular(t.Grid()) && t.Grid() != []
    modifies t, t.data
    ensures t.Valid() && t.data == old(t.data) && t.delimiter == old(t.delimiter) && t.rowSelected == old(t.rowSelected)
    ensures Moved(st, t.Grid()) == LayoutEffect(a, ps, old(t.Grid()), old(|t.Content()|))
  {
    if a in {IRow, ARow, DRow, DRows} {
      st := RunRowEdit(t, a, ps);
    } else {
      st := RunColumnEdit(t, a, ps);
    }
  }

  /** irow, arow, drow and drows. */
  method RunRowEdit(t: Table, a: Action, ps: seq<int>) returns (st: State)
    requires t.Valid() && a in {IRow, ARow, DRow, DRows} && |ps| == Arity(a)
    requires a != DRow && a != DRows ==> Rectangular(t.Grid()) && t.Grid() != []
    modifies t, t.data
    ensures t.Valid() && t.data == old(t.data) && t.delimiter == old(t.delimiter) && t.rowSelected == old(t.rowSelected)
    ensures Moved(st, t.Grid()) == LayoutEffect(a, ps, old(t.Grid()), old(|t.Content()|))
  {
    match a
    case IRow => st := t.Irow(ps[0]);
    case ARow => st := t.Arow();
    case DRow => st := t.Drow(ps[0]);
    case DRows => st := t.Drows(ps[0], ps[1]);
  }

  /** icol, acol, dcol and dcols. */
  method RunColumnEdit(t: Table, a: Action, ps: seq<int>) returns (st: State)
    requires t.Valid() && a in {ICol, ACol, DCol, DCols} && |ps| == Arity(a)
    requires Rectangular(t.Grid()) && t.Grid() != []
    modifies t, t.data
    ensures t.Valid() && t.data == old(t.data) && t.delimiter == old(t.delimiter) && t.rowSelected == old(t.rowSelected)
    ensures Moved(st, t.Grid()) == LayoutEffect(a, ps, old(t.Grid()), old(|t.Content()|))
  {
    match a
    case ICol =>
      assert ps == [ps[0]];
      st := RunIcol(t, ps[0]);
    case ACol =>
      assert ps == [];
      st := RunAcol(t);
    case DCol =>
      assert ps == [ps[0]];
      st := RunDcol(t, ps[0]);
    case DCols =>
      assert ps == [ps[0], ps[1]];
      st := RunDcols(t, ps[0], ps[1]);
  }

  method RunIcol(t: Table, col: int) returns (st: State)
    requires t.Valid() && Rectangular(t.Grid()) && t.Grid() != []
    modifies t, t.data
    ensures t.Valid() && t.data == old(t.data) && t.delimiter == old(t.delimiter) && t.rowSelected == old(t.rowSelected)
    ensures Moved(st, t.Grid()) == LayoutEffect(ICol, [col], old(t.Grid()), old(|t.Content()|))
  {
    ghost var g := t.Grid();
    ghost var e := LayoutEffect(ICol, [col], g, |t.Content()|);
    IcolEffect(g, |t.Content()|, col, e);
    st := t.Icol(col);
  }

  method RunAcol(t: Table) returns (st: State)
    requires t.Valid() && Rectangular(t.Grid()) && t.Grid() != []
    modifies t, t.data
    ensures t.Valid() && t.data == old(t.data) && t.delimiter == old(t.delimiter) && t.rowSelected == old(t.rowSelected)
    ensures Moved(st, t.Grid()) == LayoutEffect(ACol, [], old(t.Grid()), old(|t.Content()|))
  {
    ghost var size := |t.Content()|;
    assert size == t.len;
    st := t.Acol();
  }

  method RunDcol(t: Table, col: int) returns (st: State)
    requires t.Valid() && Rectangular(t.Grid()) && t.Grid() != []
    modifies t, t.data
    ensures t.Valid() && t.data == old(t.data) && t.delimiter == old(t.delimiter) && t.rowSelected == old(t.rowSelected)
    ensures Moved(st, t.Grid()) == LayoutEffect(DCol, [col], old(t.Grid()), old(|t.Content()|))
  {
    ghost var size := |t.Content()|;
    assert size == t.len;
    st := t.Dcol(col);
  }

  method RunDcols(t: Table, from: int, to: int) returns (st: State)
    requires t.Valid() && Rectangular(t.Grid()) && t.Grid() != []
    modifies t, t.data
    ensures t.Valid() && t.data == old(t.data) && t.delimiter == old(t.delimiter) && t.rowSelected == old(t.rowSelected)
    ensures Moved(st, t.Grid()) == LayoutEffect(DCols, [from, to], old(t.Grid()), old(|t.Content()|))
  {
    ghost var g := t.Grid();
    ghost var e := LayoutEffect(DCols, [from, to], g, |t.Content()|);
    DcolsEffect(g, |t.Content()|, from, to, e);
    st := t.Dcols(from, to);
    if to < from || !(1 <= from <= Width(g)) {
      assert t.Grid() == g;
    }
  }

  /** A data command run on the selected rows of table t, as DataEffect says. */
  method RunData(t: Table, a: Action, ps: seq<int>, str: seq<char>, rw: Rewrites) returns (st: State)
    requires t.Valid() && KindOf(a) == Data && |ps| == Arity(a)
    requires Defined(a, ps, str, t.Grid(), t.delimiter, t.rowSelected[..]) && SafeRewrites(rw, t.delimiter)
    modifies t, t.data
    ensures t.Valid() && t.data == old(t.data) && t.delimiter == old(t.delimiter) && t.rowSelected == old(t.rowSelected)
    ensures Moved(st, t.Grid()) ==
      DataEffect(a, ps, str, old(t.Grid()), t.delimiter, RowFlags(old(t.Grid()), t.rowSelected[..]), rw)
  {
    assert t.Selected(|t.Grid()|) == RowFlags(t.Grid(), t.rowSelected[..]);
    if a in {Lowercase, Uppercase, Round, Truncate} {
      st := RunModify(t, a, ps[0], rw);
    } else {
      st := RunColumnData(t, a, ps, str, rw);
    }
  }

  /** tolower, toupper, round and int: modifyData with the command's transform. */
  method RunModify(t: Table, a: Action, col: int, rw: Rewrites) returns (st: State)
    requires t.Valid() && a in {Lowercase, Uppercase, Round, Truncate}
    requires Defined(a, [col], [], t.Grid(), t.delimiter, t.rowSelected[..]) && SafeRewrites(rw, t.delimiter)
    requires t.Selected(|t.Grid()|) == RowFlags(t.Grid(), t.rowSelected[..])
    modifies t, t.data
    ensures t.Valid() && t.data == old(t.data) && t.delimiter == old(t.delimiter) && t.rowSelected == old(t.rowSelected)
    ensures Moved(st, t.Grid()) ==
      DataEffect(a, [col], [], old(t.Grid()), t.delimiter, RowFlags(old(t.Grid()), t.rowSelected[..]), rw)
  {
    var op := OpOf(a, rw);
    if a == Lowercase || a == Uppercase {
      CaseIsSafe(op, t.delimiter);
    }
    st := t.ModifyData(col, op);
  }

  /** cset, copy, swap and move. */
  method RunColumnData(t: Table, a: Action, ps: seq<int>, str: seq<char>, rw: Rewrites) returns (st: State)
    requires t.Valid() && a in {CSet, Copy, Swap, Move} && |ps| == Arity(a)
    requires Defined(a, ps, str, t.Grid(), t.delimiter, t.rowSelected[..])
    requires t.Selected(|t.Grid()|) == RowFlags(t.Grid(), t.rowSelected[..])
    modifies t, t.data
    ensures t.Valid() && t.data == old(t.data) && t.delimiter == old(t.delimiter) && t.rowSelected == old(t.rowSelected)
    ensures Moved(st, t.Grid()) ==
      DataEffect(a, ps, str, old(t.Grid()), t.delimiter, RowFlags(old(t.Grid()), t.rowSelected[..]), rw)
  {
    match a
    case CSet => st := t.SetColumn(ps[0], str);
    case Copy => st := t.CopyColumn(ps[0], ps[1]);
    case Swap => st := t.SwapColumn(ps[0], ps[1]);
    case Move => st := t.MoveColumn(ps[0], ps[1]);
  }

  /** A selection command run on the flags of table t, as SelectEffect says. */
  method RunSelect(t: Table, a: Action, ps: seq<int>, str: seq<char>) returns (st: State)
    requires t.Valid() && KindOf(a) == Selection && |ps| == Arity(a)
    requires Defined(a, ps, str, t.Grid(), t.delimiter, t.rowSelected[..])
    modifies t.rowSelected
    ensures After(st, t.Grid(), t.rowSelected[..]) == SelectEffect(a, ps, str, t.Grid(), old(t.rowSelected[..]))
  {
    match a
    case Rows => st := t.SelectRows(ps[0], ps[1]);
    case BeginsWith => st := t.SelectBeginsWith(ps[0], str);
    case Contains => st := t.SelectContains(ps[0], str);
  }

  /**
   * executeCommand: reads entry c's integer operands and its string
   * operand, then runs it on table t. The C code copies the string operand
   * into a buffer of MAX_CELL_LENGTH bytes and reads it past the last
   * argument when there is none; both are Undefined here.
   */
  method ExecuteCommand(c: Command, args: Arguments, t: Table, rw: Rewrites) returns (r: Outcome)
    requires t.Valid() && Coherent(c) && SafeRewrites(rw, t.delimiter)
    modifies args, t, t.data, t.rowSelected
    ensures t.Valid() && t.data == old(t.data) && t.delimiter == old(t.delimiter) && t.rowSelected == old(t.rowSelected)
    ensures Step(r, t.Grid(), t.rowSelected[..], args.index) ==
      Execute(c, args.argv, old(args.index), old(t.Grid()), t.delimiter, old(t.rowSelected[..]), rw)
  {
    var ok, ps := ReadParameters(args, c.numParameters);
    if !ok {
      return Status(ErrBadSyntax);
    }
    var str: seq<char> := [];
    if c.hasStringParameter {
      if args.index >= |args.argv| || |args.argv[args.index]| >= MAX_CELL_LENGTH {
        return Undefined;
      }
      str := args.argv[args.index];
      args.index := args.index + 1;
    }
    r := PerformCommand(t, c.action, ps, str, rw, args.index);
  }

  /** The command of executeCommand on table t, its operands read; Undefined outside the model. */
  method PerformCommand(t: Table, a: Action, ps: seq<int>, str: seq<char>, rw: Rewrites, ghost next: nat)
    returns (r: Outcome)
    requires t.Valid() && |ps| == Arity(a) && SafeRewrites(rw, t.delimiter)
    modifies t, t.data, t.rowSelected
    ensures t.Valid() && t.data == old(t.data) && t.delimiter == old(t.delimiter) && t.rowSelected == old(t.rowSelected)
    ensures Step(r, t.Grid(), t.rowSelected[..], next) ==
      Perform(a, ps, str, old(t.Grid()), t.delimiter, old(t.rowSelected[..]), rw, next)
  {
    var g := Parse(t.Content(), t.delimiter);
    if !Defined(a, ps, str, g, t.delimiter, t.rowSelected[..]) {
      return Undefined;
    }
    match KindOf(a)
    case NotSet => assert false; r := Undefined;
    case Layout => r := PerformLayout(t, a, ps, str, rw, next);
    case Data => r := PerformData(t, a, ps, str, rw, next);
    case Selection => r := PerformSelect(t, a, ps, str, rw, next);
  }

  method PerformLayout(t: Table, a: Action, ps: seq<int>, str: seq<char>, rw: Rewrites, ghost next: nat)
    returns (r: Outcome)
    requires t.Valid() && KindOf(a) == Layout && |ps| == Arity(a)
    requires Defined(a, ps, str, t.Grid(), t.delimiter, t.rowSelected[..])
    modifies t, t.data
    ensures t.Valid() && t.data == old(t.data) && t.delimiter == old(t.delimiter) && t.rowSelected == old(t.rowSelected)
    ensures Step(r, t.Grid(), t.rowSelected[..], next) ==
      Perform(a, ps, str, old(t.Grid()), t.delimiter, old(t.rowSelected[..]), rw, next)
  {
    t.GridFacts();
    var st := RunLayout(t, a, ps);
    r := Status(st);
  }

  method PerformData(t: Table, a: Action, ps: seq<int>, str: seq<char>, rw: Rewrites, ghost next: nat)
    returns (r: Outcome)
    requires t.Valid() && KindOf(a) == Data && |ps| == Arity(a) && SafeRewrites(rw, t.delimiter)
    requires Defined(a, ps, str, t.Grid(), t.delimiter, t.rowSelected[..])
    modifies t, t.data
    ensures t.Valid() && t.data == old(t.data) && t.delimiter == old(t.delimiter) && t.rowSelected == old(t.rowSelected)
    ensures Step(r, t.Grid(), t.rowSelected[..], next) ==
      Perform(a, ps, str, old(t.Grid()), t.delimiter, old(t.rowSelected[..]), rw, next)
  {
    var st := RunData(t, a, ps, str, rw);
    r := Status(st);
  }

  method PerformSelect(t: Table, a: Action, ps: seq<int>, str: seq<char>, rw: Rewrites, ghost next: nat)
    returns (r: Outcome)
    requires t.Valid() && KindOf(a) == Selection && |ps| == Arity(a)
    requires Defined(a, ps, str, t.Grid(), t.delimiter, t.rowSelected[..])
    modifies t.rowSelected
    ensures Step(r, t.Grid(), t.rowSelected[..], next) ==
      Perform(a, ps, str, t.Grid(), t.delimiter, old(t.rowSelected[..]), rw, next)
  {
    var st := RunSelect(t, a, ps, str);
    r := Status(st);
  }

  /**
   * parseCommands: looks every argument up in the registry, checks that its
   * category may follow the last one run, runs it, and stops at the first
   * failure; NotFound when there is no command at all.
   */
  method ParseCommands(args: Arguments, t: Table, rw: Rewrites) returns (r: Outcome)
    requires t.Valid() && SafeRewrites(rw, t.delimiter)
    modifies args, t, t.data, t.rowSelected
    ensures t.Valid() && t.data == old(t.data) && t.delimiter == old(t.delimiter) && t.rowSelected == old(t.rowSelected)
    ensures SameEnd(Run(r, t.Grid(), t.rowSelected[..], args.index, []),
      ParseCommandsRun(args.argv, old(args.index), old(t.Grid()), t.delimiter, old(t.rowSelected[..]), rw))
  {
    if args.index >= |args.argv| {
      return Status(NotFound);
    }
    ghost var run := ParseFrom(args.argv, args.index, t.Grid(), t.delimiter, t.rowSelected[..], NotSet, rw);
    var last := NotSet;
    while args.index < |args.argv|
      invariant t.Valid() && t.data == old(t.data) && t.delimiter == old(t.delimiter) && t.rowSelected == old(t.rowSelected)
      invariant SameEnd(ParseFrom(args.argv, args.index, t.Grid(), t.delimiter, t.rowSelected[..], last, rw), run)
      decreases |args.argv| - args.index
    {
      var done;
      done, r, last := ParseOne(args, t, rw, last);
      if done {
        return;
      }
    }
    r := Status(Success);
  }

  /**
   * One round of the loop of parseCommands, the last command run being of
   * category last: either the run ends here with outcome r, or the command
   * succeeded and the rest of the run goes on from category next.
   */
  method ParseOne(args: Arguments, t: Table, rw: Rewrites, last: CommandType)
    returns (done: bool, r: Outcome, next: CommandType)
    requires t.Valid() && SafeRewrites(rw, t.delimiter) && args.index < |args.argv|
    modifies args, t, t.data, t.rowSelected
    ensures t.Valid() && t.data == old(t.data) && t.delimiter == old(t.delimiter) && t.rowSelected == old(t.rowSelected)
    ensures !done ==> args.index > old(args.index)
    ensures done ==> SameEnd(Run(r, t.Grid(), t.rowSelected[..], args.index, []),
      ParseFrom(args.argv, old(args.index), old(t.Grid()), t.delimiter, old(t.rowSelected[..]), last, rw))
    ensures !done ==> SameEnd(ParseFrom(args.argv, args.index, t.Grid(), t.delimiter, t.rowSelected[..], next, rw),
      ParseFrom(args.argv, old(args.index), old(t.Grid()), t.delimiter, old(t.rowSelected[..]), last, rw))
  {
    ghost var index, g, flags := args.index, t.Grid(), t.rowSelected[..];
    var found := Find(args.argv[args.index]);
    if found.None? {
      ParseUnknown(args.argv, index, g, t.delimiter, flags, last, rw);
      return true, Status(ErrBadSyntax), last;
    }
    RegistryCoherent();
    var c := COMMANDS[found.value];
    args.index := args.index + 1;
    if !IsValidOrder(c.kind, last) {
      ParseOutOfOrder(args.argv, index, g, t.delimiter, flags, last, rw, c);
      return true, Status(ErrBadOrder), last;
    }
    done, r := RunEntry(args, t, rw, c, index, last);
    next := c.kind;
  }

  /** The rest of one round of parseCommands: entry c, found at argument `index`, runs. */
  method RunEntry(args: Arguments, t: Table, rw: Rewrites, c: Command, ghost index: nat, ghost last: CommandType)
    returns (done: bool, r: Outcome)
    requires t.Valid() && SafeRewrites(rw, t.delimiter) && Coherent(c)
    requires index < |args.argv| && FirstMatch(args.argv[index]).Some? && c == COMMANDS[FirstMatch(args.argv[index]).value]
    requires IsValidOrder(c.kind, last) && args.index == index + 1
    modifies args, t, t.data, t.rowSelected
    ensures t.Valid() && t.data == old(t.data) && t.delimiter == old(t.delimiter) && t.rowSelected == old(t.rowSelected)
    ensures !done ==> args.index > index
    ensures done ==> SameEnd(Run(r, t.Grid(), t.rowSelected[..], args.index, []),
      ParseFrom(args.argv, index, old(t.Grid()), t.delimiter, old(t.rowSelected[..]), last, rw))
    ensures !done ==> SameEnd(ParseFrom(args.argv, args.index, t.Grid(), t.delimiter, t.rowSelected[..], c.kind, rw),
      ParseFrom(args.argv, index, old(t.Grid()), t.delimiter, old(t.rowSelected[..]), last, rw))
  {
    ghost var g, flags := t.Grid(), t.rowSelected[..];
    r := ExecuteCommand(c, args, t, rw);
    ParseRan(args.argv, index, g, t.delimiter, flags, last, rw, c, Step(r, t.Grid(), t.rowSelected[..], args.index));
    done := r != Status(Success);
  }
}
