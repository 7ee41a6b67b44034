/**
 * Constants and enumerations shared by the whole model of the table engine
 * in sheet.c: buffer capacities, the status codes every command returns,
 * and the command categories the dispatcher sequences.
 */
module SheetTypes {

  /** Capacity of the table buffer, in bytes, terminator included. */
  const MAX_LINE_LENGTH: nat := 10242
  /** Largest row number the selection array can hold (index 0 is unused). */
  const MAX_ROWS: nat := 200
  /** Capacity of the per-cell scratch buffer, terminator included. */
  const MAX_CELL_LENGTH: nat := 101
  /** Number of slots of the command registry (only 19 are filled in). */
  const NUM_COMMANDS: nat := 25
  /** The value an integer operand "-" stands for. */
  const DASH_NUMBER: int := -1

  /** Status codes (state_t). */
  datatype State =
    | Success
    | NotFound
    | ErrGeneric
    | ErrTooLong
    | ErrOutOfRange
    | ErrBadSyntax
    | ErrTableEmpty
    | ErrBadOrder
    | ErrBadTable

  /** Command categories (type_of_command_t). */
  datatype CommandType = NotSet | Data | Layout | Selection

  datatype Option<T> = None | Some(value: T)
}
