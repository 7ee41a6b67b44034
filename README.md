# sheet: the in-place table engine, modelled and verified in Dafny

`sheet` is a command-line spreadsheet editor. It reads a delimiter-separated table
into one fixed buffer, applies a chain of commands from its argument vector, and
prints the result. This project models the engine in `sheet.c`. The model is
checked against contracts that say what each command does to the table.

- **The table** (`table_t`) is the class `Sheet.Table`. Its `data` field is a
  10242-entry `array<char>`. It holds the cells, separated by the delimiter,
  then a `'\n'` after every row, then a `'\0'` terminator. `len` is the index of
  the terminator (the value the source gets from `strlen`). `rowSelected` is a
  201-entry `array<bool>`; index 0 is not used. Every command changes these
  arrays in place, and every method says what the new content is.
- **The grid view.** `GridView.Serialize` writes a grid (rows of cells) the way
  the buffer holds it, and `GridView.Parse` reads it back; the two are proved
  inverse. The ghost `Table.Grid()` is `Parse(Content())`. The contracts of the
  edits are stated on this grid: which row or column was inserted or deleted,
  which cell was rewritten. The lemmas in `Edits` and `TableText` prove that each
  byte splice produces that grid.
- **The scans** `endOfCell`, `countRows`, `countColumns`, `isConsistent`,
  `isEmpty` and `getCellPtr` only read the buffer. They are recursive functions
  over the content, in module `Scan`. `GridView` ties each one to the grid:
  row count, width, rectangularity, and cell offset.
- **The data commands and selections** are proved against functions in
  `Columns` (`PutColumn`, `ModifyRows`, `SwapRows`, `MoveFrom`, `Narrowed`, …).
  The lemmas there state what those functions promise.
- **The dispatcher** (`readInt`, `isValidOrder`, `executeCommand`,
  `parseCommands`) is specified in `Commands` as pure functions over the argument
  vector, the grid and the selection flags. The methods in `Dispatch` are proved
  equal to those functions. `Operands` models `readInt` on top of a model of
  `strtol` in base 10, including the 64-bit clamp and the truncation of a `long`
  to a 32-bit `int`.
- **Errors are not preconditions.** Every error the source returns
  (`ERR_OUT_OF_RANGE`, `ERR_TOO_LONG`, `ERR_TABLE_EMPTY`, `ERR_BAD_SYNTAX`,
  `ERR_BAD_ORDER`, `NOT_FOUND`) is a result of the model. Preconditions, and the
  dispatcher's `Undefined` outcome, cover C undefined behaviour and two defined
  cases the model does not follow: a cset text, or a case change, that puts the
  delimiter or `'\n'` into a cell (see "Left out").

Where the comments and the code disagree, the model follows the code:
- In `isValidOrder` (sheet.c:846-848), nothing may follow a data command. The
  comment says another data command may.
- In `selectRows` (sheet.c:740-764), "the last row" is measured with
  `countColumns`. `Columns.RowsMeasuredByColumns` shows the effect.
- `modifyData` (sheet.c:640) and `swapColumn` (sheet.c:712-713) ignore the
  result of `writeCell`. A rewrite that does not fit is dropped without an error.

## Model

| member | source | states |
|---|---|---|
| Scan.CellLength | sheet.c:186-197 | the length of a cell is the number of bytes before the first delimiter, `'\n'` or `'\0'`; none of those bytes ends a cell, and the byte after them does |
| Scan.CellOffset | sheet.c:320-357 | getCellPtr gives no offset for a row or column below 1, and any offset it gives lies within the text |
| GridView.CountRowsSerialize | sheet.c:200-212 | countRows of a table's text is the number of rows of its grid |
| GridView.CountColumnsSerialize | sheet.c:215-227 | on a table with at least one row, countColumns is the number of cells of the first row |
| GridView.ConsistentIffRectangular | sheet.c:230-253 | isConsistent holds exactly when every row has the same number of cells |
| GridView.EmptyTable | sheet.c:87-92 | isEmpty holds exactly for the empty grid, the one empty cell, or a first byte below `'\n'` |
| GridView.ParseSerialize | sheet.c:34-38 | reading back the text of a grid whose cells hold no delimiter, `'\n'` or `'\0'` gives the same grid |
| GridView.SerializeParse | sheet.c:34-38 | every `'\n'`-terminated text is the text of the grid read from it |
| GridView.CellOffsetInGrid | sheet.c:320-357 | for 1 ≤ row ≤ rows and 1 ≤ col ≤ cells+1, getCellPtr is the row's start plus the cell's position, so column cells+1 is the row's `'\n'` |
| GridView.CellOffsetPastLastRow | sheet.c:320-357 | row rows+1, column 1 is the terminator's offset |
| GridView.CellOffsetOutside | sheet.c:320-357 | getCellPtr finds no offset (NULL) below row or column 1, below the row after the last, in that row past column 1, and, on a rectangular table, in any row more than one column past its last cell |
| Sheet.Table.constructor | sheet.c:277-316 | a table built from a well-formed text holds that text with the given delimiter, with no row selected |
| Sheet.Table.ShiftData | sheet.c:149-182 | a shift of 0 or less removes the -shift bytes at p and always succeeds; a positive shift refuses, leaving the buffer untouched, exactly when the new terminator would reach 10242, and otherwise opens a gap of shift bytes at p and keeps every byte before it |
| Sheet.Table.CutOut | sheet.c:155-165 | the negative branch: the content loses bytes p..p+k and nothing else |
| Sheet.Table.OpenGap | sheet.c:168-180 | the positive branch: the text after p moves up by shift and the bytes before p+shift stay |
| Sheet.Table.CellEnd | sheet.c:394-396 | the scan with endOfCell returns the cell length from p |
| Sheet.Table.CopyCell | sheet.c:371-376 | the copy loop of readCell returns exactly the cell's bytes |
| Sheet.Table.ReadCell | sheet.c:361-379 | readCell's status is the range check on row and column; on success it yields the cell's text, or "" for the row after the last |
| Sheet.Table.WriteCell | sheet.c:382-411 | out-of-range columns and rows are refused before any byte moves; a write that would overflow is refused with the content unchanged; otherwise the table's text is the old grid with that one cell replaced |
| Sheet.Table.WriteFound | sheet.c:386-410 | the write at a found offset: the old cell is measured, the text shifted by the length difference, and the new text copied in |
| Sheet.Table.Replace | sheet.c:392-408 | the content becomes the old content with bytes p..p+n replaced by t, unless that would overflow |
| Sheet.Table.Put | sheet.c:406-408 | the copy loop overwrites as many bytes as t holds, from p, and nothing else |
| Sheet.Table.Irow | sheet.c:414-434 | irow refuses a row outside 1..rows+1, refuses a table with no room, and otherwise inserts an empty row of the table's width before that row, keeping the table rectangular |
| Sheet.Table.OpenLine | sheet.c:421-431 | opening w bytes at p and filling them with w-1 delimiters and `'\n'`, or refusing with nothing changed |
| Sheet.Table.FillRow | sheet.c:428-431 | the fill loop writes the blank line and nothing else |
| Sheet.Table.Arow | sheet.c:437-439 | arow appends an empty row of the table's width, or refuses with nothing changed |
| Sheet.Table.Drow | sheet.c:442-455 | drow refuses a row outside 1..rows; otherwise exactly that row is gone, and a rectangular table stays rectangular |
| Sheet.Table.CutLine | sheet.c:446-452 | the bytes of one line up to and including its `'\n'` are removed |
| Sheet.Table.LineLength | sheet.c:449-450 | the loop measures the line up to its `'\n'` |
| Sheet.Table.Drows | sheet.c:458-469 | n < m is bad syntax; 1 ≤ m ≤ n ≤ rows deletes rows m..n; a range past the end deletes from m to the end and reports out of range; a start outside the table changes nothing |
| Sheet.Table.DrowsLoop | sheet.c:462-468 | deleting row m n-m+1 times, stopping at the first refusal |
| Sheet.Table.DrowsStep | sheet.c:463-465 | one pass of the drows loop removes the next row of the range, or reports that none is left |
| Sheet.Table.Icol | sheet.c:472-488 | icol refuses a column outside 1..width+1; with room it inserts an empty cell at that column in every row; without room it stops at the first row that does not fit, with the rows before it widened |
| Sheet.Table.IcolRows | sheet.c:478-487 | the row loop of icol widens each row in turn until the buffer is full |
| Sheet.Table.IcolStep | sheet.c:481-485 | one row gains an empty cell at the column, or nothing changes when the buffer is full |
| Sheet.Table.OpenCell | sheet.c:483-484 | a delimiter is inserted at p, or nothing changes when it would overflow |
| Sheet.Table.Acol | sheet.c:491-493 | acol appends an empty last column, with the same overflow behaviour as icol |
| Sheet.Table.Dcol | sheet.c:496-527 | dcol checks the range first, then refuses a one-column table, and otherwise removes that column from every row |
| Sheet.Table.DcolRows | sheet.c:505-526 | the row loop of dcol removes the column's cell from every row |
| Sheet.Table.DcolStep | sheet.c:508-524 | one row loses the cell at the column |
| Sheet.Table.CutCell | sheet.c:511-520 | a cell goes with its following delimiter, or its preceding one when it is the last cell of its row |
| Sheet.Table.Dcols | sheet.c:531-542 | dcols m n answers as n-m+1 calls of dcol m would, and on success columns m..n are gone from every row |
| Sheet.Table.DcolsFrom | sheet.c:535-541 | the loop of dcols cuts the same column until the range is done or dcol refuses |
| Sheet.Table.DcolsStep | sheet.c:536-538 | one dcol call inside dcols |
| Sheet.UpperLine | sheet.c:608-614 | upperLine makes the text before the terminator upper case and leaves the terminator and the rest of the buffer alone |
| Sheet.LowerLine | sheet.c:617-623 | lowerLine makes the text before the terminator lower case, the rest untouched |
| Sheet.Transform | sheet.c:630-638 | the cell text after modFunction runs on the scratch copy |
| Columns.Upper | sheet.c:608-614 | the result has the same length, no lower-case letter, and differs from the input only at lower-case letters |
| Columns.Lower | sheet.c:617-623 | the result has the same length, no upper-case letter, and differs only at upper-case letters |
| Columns.UpperIdempotent | sheet.c:608-614 | converting to upper case twice is converting once |
| Columns.LowerIdempotent | sheet.c:617-623 | converting to lower case twice is converting once |
| Columns.CaseAbsorbs | sheet.c:608-623 | upper after lower is upper, and lower after upper is lower |
| Sheet.Table.ModifyData | sheet.c:627-644 | out of range only when a selected row exists and the column does not; every selected row's cell is rewritten in turn, where it fits, and no other cell changes |
| Sheet.Table.ModifyLoop | sheet.c:629-643 | the row loop of modifyData |
| Sheet.Table.ModifyStep | sheet.c:630-642 | one selected row is read, transformed and written back |
| Sheet.Table.ModifyCell | sheet.c:634-640 | the read, the transform, and the write whose status is ignored |
| Sheet.Table.WriteIgnored | sheet.c:640 | a write whose refusal is ignored leaves the grid as it was, and otherwise replaces the cell |
| Columns.ModifyRows | sheet.c:627-644 | only the column's cells in selected rows change, each to its old or its rewritten text; the shape stays |
| Columns.ModifyKeepsLength | sheet.c:627-644 | a length-keeping rewrite (upper, lower) always fits: every selected cell takes its rewritten text, and the text length stays |
| Columns.TryWriteCells | sheet.c:640 | a write that may be dropped changes at most the one addressed cell, and only to the new text |
| Sheet.Table.SetColumn | sheet.c:664-674 | cset writes the text into the column in every selected row in order, stopping at the first refusal |
| Sheet.Table.SetLoop | sheet.c:665-673 | the row loop of setColumn |
| Sheet.Table.SetStep | sheet.c:667-671 | one selected row's write, or the stop |
| Sheet.Table.WriteAt | sheet.c:382-411 | writeCell on a grid: the status is the outcome function, and on success exactly the cell changes |
| Columns.PutColumnShape | sheet.c:664-692 | writing a column keeps the shape, and changes no cell outside the column or outside the selected rows |
| Columns.PutColumnIdempotent | sheet.c:664-674 | writing the same column values twice is writing them once |
| Columns.WriteFromWrites | sheet.c:664-674 | the write loop stops at the first selected row whose write overflows, with the rows before it written; it succeeds exactly when no row overflows |
| Columns.WriteShrinking | sheet.c:664-674 | when no new cell is longer than the cell it replaces, the whole column is written and the command succeeds |
| Columns.SetColumnIdempotent | sheet.c:664-674 | running cset again on its own result succeeds and changes nothing |
| Sheet.Table.CopyColumn | sheet.c:677-692 | copy reads the source cell and writes it into the destination in every selected row, stopping at the first refusal |
| Sheet.Table.CopyLoop | sheet.c:680-691 | the row loop of copyColumn |
| Sheet.Table.CopyRow | sheet.c:681-690 | one selected row's read and write |
| Columns.CopiedColumn | sheet.c:677-692 | after copying, each selected row's destination cell is its source cell |
| Sheet.Table.SwapColumn | sheet.c:695-717 | swap exchanges the two cells in every selected row, each write dropped when it does not fit; an out-of-range column stops it at the first selected row, with nothing changed; column c2 is read only once c1 is in range |
| Sheet.Table.SwapLoop | sheet.c:698-716 | the row loop of swapColumn |
| Sheet.Table.SwapCells | sheet.c:699-713 | one selected row: both reads, then the two ignored writes |
| Sheet.Table.SwapBack | sheet.c:712-713 | the two writes of a swap, each possibly dropped |
| Columns.SwapSelf | sheet.c:695-716 | swapping a column with itself changes nothing |
| Columns.SwapExchanges | sheet.c:695-716 | when every write fits, swapping exchanges the two cells of every selected row, and the text length stays |
| Columns.SwapOverflowDuplicates | sheet.c:712-713 | when the first write is dropped, the row ends with the first cell's text in both columns |
| Sheet.Table.MoveColumn | sheet.c:719-737 | move is the chain of adjacent swaps from n towards the end position, stopping at the first refusal; only the cells between n and the end position must fit readCell's buffer, since no other cell is read |
| Sheet.Table.MoveLoop | sheet.c:724-735 | the swap loop of moveColumn |
| Sheet.Table.MoveStep | sheet.c:725-734 | one adjacent swap |
| Columns.MoveFrom | sheet.c:719-737 | the chain of swaps keeps the shape and answers success or out of range |
| Columns.MoveRotates | sheet.c:719-737 | when every swap fits, the chain of adjacent swaps moves cell pos to position e in every selected row and keeps the order of the others |
| Columns.MoveColumnPlaces | sheet.c:719-737 | move n m places column n at m-1 when n < m and at m otherwise, and the chain succeeds |
| Sheet.Table.SelectRows | sheet.c:740-764 | rows refuses before touching the flags; on success each flag of rows 1..rows is ANDed with the range test, the others stay |
| Columns.RowsMeasuredByColumns | sheet.c:744-756 | "rows - -" on a 3×2 table keeps row 2, and "rows 3 3" is refused |
| Sheet.Table.SelectBeginsWith | sheet.c:767-779 | out-of-range columns are refused with the flags untouched; otherwise each row's flag is ANDed with "the cell starts with str" |
| Sheet.Table.BeginsAt | sheet.c:773-775 | one row's test: strstr finds str at position 0 exactly when str is a prefix of the cell |
| Sheet.Table.SelectContains | sheet.c:782-796 | as beginswith, with "the cell contains str" |
| Sheet.Table.ContainsAt | sheet.c:788-792 | one row's test: strstr finds str exactly when it occurs in the cell |
| Sheet.Table.SelectAll | sheet.c:801-806 | flags 1..rows become true and no other flag changes |
| Columns.StrStr | sheet.c:773-792 | strstr returns the first position where the needle occurs, and no earlier position matches |
| Columns.BeginsWithIsPrefix | sheet.c:775 | strstr returns position 0 exactly when the needle is a prefix |
| Columns.ContainsIsSubstring | sheet.c:791 | strstr finds something exactly when the needle is a substring |
| Columns.And | sheet.c:760-761 | each flag after a selection is the old flag and the row's test |
| Columns.AndCommutes | sheet.c:740-796 | two selections commute, and no false flag becomes true |
| Columns.Narrowed | sheet.c:759-762 | flags 1..rows are ANDed with the mask; flag 0 and the flags past the last row stay |
| Columns.RowRange | sheet.c:759-761 | the range test holds exactly for rows start..end |
| Columns.BeginsMask | sheet.c:772-777 | each row's test holds exactly when str is a prefix of its cell |
| Columns.ContainsMask | sheet.c:787-794 | each row's test holds exactly when str occurs in its cell |
| Operands.WrapInt | sheet.c:564-566 | storing a `long` into an `int` gives the value congruent modulo 2^32 in the int range, and keeps values already in range |
| Operands.StrToLong | sheet.c:564 | strtol's value is clamped to the range of a 64-bit long |
| Operands.IntArg | sheet.c:552-570 | "-" reads as DASH_NUMBER, and anything read is an int |
| Operands.ReadShown | sheet.c:552-570 | the decimal form of any long reads back as that value truncated to an int |
| Operands.DashAliases | sheet.c:556-566 | "-", "-1" and "4294967295" are the same operand, DASH_NUMBER (-1) |
| Operands.LenientEdges | sheet.c:564-566 | "" reads as 0 and " +7" as 7; "7x", " " and "+" are refused |
| Operands.Arguments.constructor | sheet.c:41-45 | the argument vector and its starting index |
| Operands.Arguments.ReadInt | sheet.c:552-570 | readInt succeeds exactly when an argument is left and reads as a number; on success it yields that number and moves past it, and on failure the index stays |
| Commands.RegistryCoherent | sheet.c:866-888 | the registry has 25 slots; the first 19 each carry a name, a category and a handler with the right number of operands; the rest are zeroed |
| Commands.FirstMatch | sheet.c:896-898 | the registry search finds the first slot with that name, or reports that no slot has it |
| Commands.FirstIsUnique | sheet.c:896-898 | a slot whose name no earlier slot carries is the one found |
| Commands.EmptyNameFound | sheet.c:866-898 | the empty argument matches the first zeroed slot, 19 |
| Commands.OrderIsSentence | sheet.c:836-861 | a command sequence passes isValidOrder step by step exactly when it is layout commands alone, or selections followed by at most one data command |
| Commands.ReadOperands | sheet.c:813-817 | reading count operands either fails or yields count values and moves the index by count |
| Commands.OperandsRead | sheet.c:813-817 | the operand loop succeeds exactly when every one of the count arguments reads as a number, and then yields their values |
| Commands.RefusalSticks | sheet.c:814-816 | once an operand is refused, reading more changes nothing |
| Commands.Execute | sheet.c:809-833 | executeCommand only moves the index forward and keeps the 201 flags |
| Commands.Perform | sheet.c:819-832 | the handler runs with the operands read, and the index ends after them |
| Commands.LayoutKeepsShape | sheet.c:414-542 | a successful layout command keeps the table rectangular; rows keep the width, icol and acol add a column, dcol removes one, dcols removes n-m+1 |
| Commands.IcolEffect | sheet.c:472-488 | icol is out of range exactly for a column outside 1..width+1, too long exactly when the rows do not fit, and otherwise inserts the column everywhere |
| Commands.DcolsEffect | sheet.c:531-542 | dcols answers as the chain of dcol calls and cuts the columns reached |
| Commands.DataKeepsShape | sheet.c:627-737 | no data command changes the number of rows or columns |
| Commands.ParseUnknown | sheet.c:894-913 | a name no slot has stops parsing with bad syntax and changes nothing |
| Commands.ParseOutOfOrder | sheet.c:898-900 | a command not allowed after the previous one stops parsing with bad order, before it runs |
| Commands.ParseRan | sheet.c:901-912 | after a command that succeeds, parsing goes on from the next argument; any other status ends it |
| Commands.RunChained | sheet.c:894-913 | a successful parse ran a chain of commands each allowed after the one before |
| Commands.SuccessIsSentence | sheet.c:890-915 | a successful parseCommands ran at least one command, and the commands it ran form a sentence |
| Commands.EmptyArgument | sheet.c:866-901 | an empty argument reaches a zeroed slot: undefined as a first command, bad order otherwise |
| Dispatch.Find | sheet.c:896-898 | the strcmp loop returns the registry search's answer |
| Dispatch.ReadParameters | sheet.c:813-817 | the operand loop reads exactly what the operand function says, and leaves the index where it says |
| Dispatch.RunLayout | sheet.c:819-825 | running a layout command changes the table as its effect function says |
| Dispatch.RunRowEdit | sheet.c:414-469 | irow, arow, drow and drows as the effect function says |
| Dispatch.RunColumnEdit | sheet.c:472-542 | icol, acol, dcol and dcols as the effect function says |
| Dispatch.RunIcol | sheet.c:472-488 | icol as the effect function says |
| Dispatch.RunAcol | sheet.c:491-493 | acol as the effect function says |
| Dispatch.RunDcol | sheet.c:496-527 | dcol as the effect function says |
| Dispatch.RunDcols | sheet.c:531-542 | dcols as the effect function says |
| Dispatch.RunData | sheet.c:627-737 | each data command changes the table as the data effect says, on the selected rows |
| Dispatch.RunModify | sheet.c:647-661 | tolower, toupper, round and int are modifyData with their transforms |
| Dispatch.RunColumnData | sheet.c:664-737 | cset, copy, swap and move as the data effect says |
| Dispatch.RunSelect | sheet.c:740-796 | each selection changes only the flags, as the selection effect says |
| Dispatch.ExecuteCommand | sheet.c:809-833 | executeCommand reads the operands and the string operand, runs the handler, and ends in the state Execute describes |
| Dispatch.PerformCommand | sheet.c:819-832 | the switch over the handler kinds ends in the state Perform describes |
| Dispatch.PerformLayout | sheet.c:819-825 | a layout handler ends in the state Perform describes |
| Dispatch.PerformData | sheet.c:819-832 | a data handler ends in the state Perform describes |
| Dispatch.PerformSelect | sheet.c:819-832 | a selection handler ends in the state Perform describes |
| Dispatch.ParseCommands | sheet.c:865-915 | parseCommands ends with the status, table, flags and index of the parse function |
| Dispatch.ParseOne | sheet.c:895-912 | one pass of the command loop either ends the parse as the parse function says or moves on with the index advanced |
| Dispatch.RunEntry | sheet.c:899-912 | a found command in valid order is executed and its category becomes the last one |
| Edits.InsertThenDeleteRow | sheet.c:414-455 | drow r after irow r restores the grid |
| Edits.DeleteThenInsertRow | sheet.c:414-455 | putting a deleted row back restores the grid |
| Edits.RectangularInsertRow | sheet.c:414-434 | inserting an empty row of the table's width keeps it rectangular with the same width |
| Edits.RectangularDeleteRow | sheet.c:442-455 | deleting a row keeps a table rectangular with the same width |
| Edits.RectangularInsertColumn | sheet.c:472-493 | inserting a column keeps a table rectangular and adds one to its width |
| Edits.RectangularDeleteColumn | sheet.c:496-527 | deleting one of at least two columns keeps a table rectangular and takes one from its width |
| Edits.RectangularCutColumns | sheet.c:531-542 | cutting k columns keeps a table rectangular and takes k from its width |
| Edits.DeleteCutColumn | sheet.c:531-542 | one more dcol at the same column cuts one more column |
| TableText.GridWrite | sheet.c:382-411 | replacing a cell's bytes in the text gives the text of the grid with that cell replaced |
| TableText.GridInsertRow | sheet.c:414-434 | inserting a blank line at a row's start gives the text of the grid with an empty row there |
| TableText.GridDeleteRow | sheet.c:442-455 | removing a row's line gives the text of the grid without that row |
| TableText.IcolText | sheet.c:472-488 | the text after widening the first j rows reads back as that grid, rectangular once all rows are done |
| TableText.DcolText | sheet.c:496-527 | the text after narrowing the first j rows reads back as that grid, rectangular once all rows are done |
| Findings.CutAsWritten | sheet.c:155-165 | the negative branch of shiftData as written: each read and write either stays inside the buffer or reports the first index past it |
| Findings.CutOverruns | sheet.c:155-165 | as written, a cut of k bytes on a text with len + k ≥ 10242 reaches outside the buffer |
| Findings.FullTableCutOverruns | sheet.c:155-165 | as written, deleting one byte from a full buffer writes at index 10242 |
| Findings.CutReachesTerminator | sheet.c:155-165 | when len + k is exactly the buffer size, the stray terminator store is the first access outside it |
| Findings.IcolCellAsWritten | sheet.c:482-484 | icol's step as written: with room it inserts the delimiter, and without room it still overwrites a byte |
| Findings.IcolOverwrites | sheet.c:482-484 | as written, a refused step changes the text, and not into the widened row |
| Findings.FullTableIcolDamages | sheet.c:482-484 | as written, icol 1 on a full table replaces the first byte with the delimiter |

## Left out

- readTable and readDelimiters (sheet.c:257-316) read stdin and the `-d` option.
  The table comes from `Sheet.Table.constructor` instead. Its preconditions stand
  for what reading establishes: text shorter than the buffer, no `'\0'`, every
  row ended by `'\n'`, and a delimiter other than `'\n'` and `'\0'`. The empty
  input, whose fix-up reads before the buffer (sheet.c:307), is not modelled.
- printTable, printUsage, printErrorMessage and the exit codes of main
  (sheet.c:95-145, 545-547, 917-940) only produce output and are not modelled.
  `main` calls selectAll after reading (sheet.c:925). The constructor leaves every
  flag false, and the dispatcher takes the starting flags as a parameter.
- roundNumber, roundLine and intLine (sheet.c:573-605) go through `strtod`,
  floating point and `sprintf`. They are a parameter of the model (`Rewrites`),
  with only their safety assumed: the result holds no delimiter, `'\n'` or `'\0'`
  and fits the scratch buffer.
- C undefined behaviour is a precondition, or the dispatcher's `Undefined` outcome:
  - a cell of 101 bytes or more copied into the scratch buffer (readCell, sheet.c:371-375), for the cells each command actually reads;
  - a missing string operand for `strcpy` (sheet.c:829-830);
  - the zeroed registry slots (sheet.c:866-888);
  - countColumns on a table with no row (sheet.c:221);
  - the uninitialised state of icol and dcol on 0 rows (sheet.c:473, 497).
- The row count is bounded by MAX_ROWS (200) as a precondition of the
  selection-scoped commands, since `rowSelected` has 201 entries.
- Sheet.Table.Drows does not state that the result is rectangular. Its grid
  equation, with Edits.RectangularCut, gives that; stating it on the heap-based
  grid was too costly to verify.
- Sheet.Table.Icol, Sheet.Table.IcolRows, Sheet.Table.IcolStep, Sheet.Table.OpenCell
  and Sheet.Table.Acol, on ERR_TOO_LONG, describe the corrected behaviour (see
  Findings): no byte is stored after a refused shift, and icol stops at the first
  row that does not fit. The source stores the delimiter all the same and goes on,
  overwriting one byte in every later row.
- Sheet.Table.ShiftData is the corrected negative shift (see Findings). It copies
  up to and including the terminator and never touches the bytes after it.
- Sheet.Table.SetColumn, with Sheet.Table.SetLoop, Sheet.Table.SetStep and
  Sheet.Table.WriteAt, requires a text that holds no delimiter and no `'\n'`.
  setColumn (sheet.c:664-674) writes such a text too and returns SUCCESS: with
  `-d ,`, `cset 1 "x,y"` on `a,b` leaves `x,y,b`. A delimiter gives the row more
  cells; a `'\n'` splits it into rows that the loop then visits. The model does
  not follow a table whose rows and cells no longer match the grid it started
  from. A single such write is covered: Sheet.Table.WriteCell's text equation
  holds for any text without `'\0'`.
- Sheet.Table.ModifyData, with Sheet.Table.ModifyLoop, Sheet.Table.ModifyStep,
  Sheet.Table.ModifyCell and Sheet.Table.WriteIgnored, requires that toupper and
  tolower cannot turn a letter into the delimiter. With `-d X`, `toupper 1` on a
  cell `x` writes the delimiter into the cell (sheet.c:608-623, 627-644) and
  returns SUCCESS; the model leaves that case out, for the reason given for
  Sheet.Table.SetColumn.
- Commands.Perform, and with it Dispatch.RunData, Dispatch.RunModify,
  Dispatch.RunColumnData and Dispatch.PerformData, gives `Undefined` for the
  two cases above (a cset text holding the delimiter or `'\n'`, and toupper or
  tolower with a letter delimiter the case change can produce), although the
  source defines them.
- Sheet.Table.WriteCell excludes a non-empty text at row rows+1, column 1.
  writeCell accepts it and appends the text after the last `'\n'`, leaving a
  table whose last row has no `'\n'`. No command writes there: cset, copy, swap
  and the case changes write rows 1..rows only.
- Operands.StrToLong models `strtol` in base 10 for the "C" locale. Errno is
  not modelled: `readInt` does not look at it.

## Findings

| source | as written | input that shows it | evidently intended | confidence | as-written member | corrected member |
|---|---|---|---|---|---|---|
| sheet.c:155-165 | a negative shift copies bytes down until it meets the old terminator, reading up to -shift bytes past it, then stores `'\0'` at the old terminator's index plus -shift | a table of 10241 bytes, the largest the edits allow (an empty first row, then one row of 10239 `a`), followed by `drow 1`: the final store lands at index 10242, one past the buffer | stop after moving the terminator, and touch nothing past the new end | not executed | Findings.CutAsWritten, Findings.FullTableCutOverruns | Sheet.Table.ShiftData |
| sheet.c:482-484 | icol stores the delimiter at the cell's offset even when shiftData refused to open the gap, overwriting that byte | the same 10241-byte table and `icol 1` with delimiter `' '`: the `'\n'` that ends row 1 becomes the delimiter, so rows 1 and 2 run together; the loop then finds row 2 at the terminator and overwrites that too, and ERR_TOO_LONG is returned. The as-written member shows the first of these stores | leave the row unchanged when the gap could not be opened | not executed | Findings.IcolCellAsWritten, Findings.FullTableIcolDamages | Sheet.Table.Icol |
