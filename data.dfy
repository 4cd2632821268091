/** The value model shared by the closure orchestrator, the row operations
    and the `lines` command: errors, results, cell types, cells, rows and
    command arguments. */
module Data {

  datatype Option<T> = None | Some(value: T)

  datatype Unit = Unit

  /** The errors the modelled code raises. `GenericError` is what `error(..)`
      and `mandate(..)` build, `ArgumentError` what `argument_error(..)` builds,
      and `SendError` what a send into a stream whose receiver is gone fails
      with. Errors produced by the abstract collaborators (cell cloning,
      path expansion, field lookup, job spawning) are whatever those return. */
  datatype JobError =
    | GenericError(message: string)
    | ArgumentError(message: string)
    | SendError

  datatype Result<T> = Ok(value: T) | Err(error: JobError)

  /** A column type. Only the kinds the modelled code names are spelt out;
      every other kind is `OtherType`. */
  datatype CellType =
    | TextType
    | FieldType
    | FileType
    | OutputType(columns: seq<ColumnType>)
    | OtherType(tag: nat)

  /** A named, typed column of a schema (`CellFnurp`). */
  datatype ColumnType = ColumnType(name: Option<string>, cellType: CellType)

  type Path = string

  /** A cell. `JobOutput` is a nested stream: its declared column list and the
      rows that stream delivers. Kinds the modelled code does not name are
      `Other`. */
  datatype Cell =
    | Text(text: string)
    | Field(field: string)
    | File(path: Path)
    | JobOutput(types: seq<ColumnType>, rows: seq<Row>)
    | Other(tag: nat)

  /** A row: one cell per column, in column order. */
  datatype Row = Row(cells: seq<Cell>)

  /** A command argument: an optional name and its value. */
  datatype Argument = Argument(name: Option<string>, cell: Cell)

  /** `f` applied to every element, keeping order. */
  function Map<A, B>(s: seq<A>, f: A -> B): (r: seq<B>)
    ensures |r| == |s|
    ensures forall i :: 0 <= i < |s| ==> r[i] == f(s[i])
  {
    if s == [] then [] else [f(s[0])] + Map(s[1..], f)
  }

  /** A cell has the declared type; a nested stream must also declare
      exactly the given columns and deliver only rows that conform to them. */
  predicate CellConforms(c: Cell, t: CellType)
    decreases c
  {
    match t
    case TextType => c.Text?
    case FieldType => c.Field?
    case FileType => c.File?
    case OutputType(cols) =>
      c.JobOutput? && c.types == cols &&
      forall r :: r in c.rows ==> RowConforms(r, cols)
    case OtherType(_) => c.Other?
  }

  /** A row matches a schema: one cell per column, each of the column's type. */
  predicate RowConforms(r: Row, cols: seq<ColumnType>)
    decreases r
  {
    |r.cells| == |cols| &&
    forall i :: 0 <= i < |cols| ==> CellConforms(r.cells[i], cols[i].cellType)
  }
}
