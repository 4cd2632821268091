# Closures, rows and the `lines` command of a structured shell

This project is a Dafny model of three sequential parts of a shell whose
commands pass streams of typed rows to each other.

- **Closures** (`closure.dfy`, module `Closures`) covers:
  - binding a closure's job definitions to a scope (Unbound to Bound);
  - binding named arguments into a fresh child scope;
  - running the definitions stage by stage, with each stage wired to the
    real input, an empty channel, a print sink or the real output;
  - the `"; "`-joined display string.

  An invocation is recorded as a trace of `Spawn(i, input, output)` and
  `Join(i, reported)` events. The method `SpawnAndExecute` follows the
  source's three branches (no definitions, one definition, several). It is
  proved equal to `Execute`, a single stage-by-stage specification. The
  lemmas over `Stages` state:
  - the wiring of each stage;
  - that spawns and joins alternate strictly in order;
  - that the first failed spawn ends the run;
  - that join outcomes never change the result.
- **Rows** (`row.dfy`, module `Rows`) are cell-wise maps and folds:
  - `concrete` of each cell;
  - a fallible cell-wise `partial_clone` that stops at the first failing
    cell;
  - hashing, as a loop that feeds each cell in turn into a mutable hasher.
- **The `lines` command** (`lines.dfy`, module `Lines`) covers:
  - the declared output columns;
  - the row emitted per file, pairing the file with a nested stream of its
    lines;
  - the loop that splits file contents into lines;
  - the validation and dispatch of `run`: expanding arguments without an
    input schema, or, with a schema, consuming input rows through one named
    column.

  `Run` changes an `InputStream` and an `OutputStream` (`streams.dfy`). It
  is proved against the specification function `RunSpec`.
- **Shared types** (`data.dfy`, module `Data`): the cells, rows, column
  types, arguments and errors that the other modules use.

Several collaborators are not modelled. They are function-valued parameters:
- the cell-level `concrete`, `partial_clone` and `hash`;
- `file_expand` and `find_field`;
- spawning a job, and what its worker reports when it is joined (both are
  given the bindings of the child scope the job runs in);
- a job's display string;
- the contents of files.

Contracts are therefore stated for every choice of these functions.

Sending into a stream appends to the `sent` field of `OutputStream`, or
fails with `SendError` when the receiver is gone. `recv` takes the first of
the rows still `pending` in an `InputStream`, and fails once none are left.
A nested `JobOutput` cell holds its column list and the rows its stream
delivers.

## Model

| member | source | states |
|---|---|---|
| Closures.New | src/closure.rs:17-22 | the new closure has no scope and exactly the given job definitions |
| Closures.WithEnv | src/closure.rs:24-29 | the result is Bound to the given scope and keeps the same definitions in the same order |
| Closures.RebindReplacesEnv | src/closure.rs:24-29 | binding twice is binding once to the later scope; binding leaves the display string unchanged; only a Bound closure passes the scope check |
| Closures.SpawnStream | src/closure.rs:31-35 | succeeds iff the closure is Bound; otherwise fails with "Closure without env" |
| Closures.Namespace.CreateChild | src/closure.rs:40 | a fresh, empty scope whose parent is the receiver |
| Closures.Namespace.Declare | src/closure.rs:73 | binds the name in this scope only, overwriting any earlier binding |
| Closures.PushArgumentsToEnv | src/closure.rs:70-76 | the scope's bindings become the old bindings folded with every named argument, in argument order |
| Closures.BindNamedDomain | src/closure.rs:70-76 | a name is bound afterwards iff it was bound before or some argument carries it |
| Closures.BindNamedLastWins | src/closure.rs:70-76 | a name is bound to the value of its last carrying argument, so later arguments overwrite earlier ones |
| Closures.BindNamedKeepsOthers | src/closure.rs:70-76 | a name that no argument carries keeps its earlier value |
| Closures.UnnamedArgumentIgnored | src/closure.rs:72-74 | removing an unnamed argument from any position leaves the bindings unchanged |
| Closures.SpawnAndExecute | src/closure.rs:37-67 | the returned result and the spawn/join trace equal `Execute`, in which every stage is spawned in the child scope; a child scope exists iff the closure is Bound, it is newly allocated by this call, its parent is the captured scope, and its bindings are the named arguments |
| Closures.ExecuteOutcome | src/closure.rs:37-67 | an Unbound closure returns "Closure without env" and spawns nothing; an empty one returns "Empty closures not supported" and spawns nothing; otherwise the call succeeds iff every stage spawns; the result never depends on what workers report |
| Closures.StagesSucceedIff | src/closure.rs:43-66 | the stages succeed iff every remaining stage spawns |
| Closures.StagesResultIgnoresWorkers | src/closure.rs:46-63 | join outcomes never change the return value |
| Closures.StagesSuccessTrace | src/closure.rs:43-65 | when every stage spawns, the trace is spawn i then join i for each stage in order, each with its wiring: stage 0 reads the real input, later stages an empty channel, the last writes the real output and the others a print sink |
| Closures.StagesFirstFailure | src/closure.rs:46-63 | when stage k is the first failed spawn, the result is its error; every earlier stage was spawned and joined in order; stage k's spawn is the last event |
| Closures.JoinWithLength | src/closure.rs:81 | joining puts exactly one separator between neighbours |
| Closures.JoinWithSnoc | src/closure.rs:81 | joining one more part appends the separator and that part |
| Closures.ToStringShape | src/closure.rs:80-82 | no definitions show as ""; one shows as its own string; one more definition appends "; " and its string |
| Rows.Concrete | src/data/row.rs:12-14 | same length, and cell i of the result is `concrete` of cell i |
| Rows.ConcreteIdempotent | src/data/row.rs:12-14 | an idempotent cell-level `concrete` makes the row-level one idempotent |
| Rows.PartialClone | src/data/row.rs:16-20 | succeeds iff every cell clones; on success the row has the same length and holds the cell clones in order |
| Rows.PartialCloneFirstError | src/data/row.rs:18 | a failing clone returns the error of the first failing cell in column order |
| Rows.HashRow | src/data/row.rs:23-28 | the hasher ends in the state reached by feeding the row's cells to it in column order |
| Rows.HashFeedsEachCellOnce | src/data/row.rs:25-27 | a hasher that records what it is fed ends holding exactly the row's cells, in order, each once |
| Rows.HashRowConcat | src/data/row.rs:25-27 | hashing the concatenation of two rows is hashing the first and then the second; an empty row leaves the state unchanged |
| Rows.HashCellsAppend | src/data/row.rs:25-27 | feeding `a + b` is feeding `a` and then `b` |
| Lines.Compile | src/commands/lines.rs:102-116 | always succeeds, under the name "lines", with the input type and arguments passed through and the output columns `file: File` and `lines: Output([line: Text])` |
| Lines.FileRowConforms | src/commands/lines.rs:24-40 | the row for a file has exactly two cells: `File(path)`, then a nested stream declaring the single Text column "line"; the row matches the columns `compile` declares |
| Lines.Handle | src/commands/lines.rs:30-41 | to a live receiver the file's row is sent and `Ok` returned; otherwise nothing is sent and a send error is returned |
| Lines.ChunkEndFirstNewline | src/commands/lines.rs:48 | a chunk read holds no '\n' before its last character |
| Lines.ReadLines | src/commands/lines.rs:46-54 | the reused-buffer loop yields exactly one Text row per chunk read, each the chunk minus its last character, and stops at the first empty read |
| Lines.LinesHaveNoNewline | src/commands/lines.rs:47-54 | no emitted line contains a '\n' |
| Lines.LineCountFrom | src/commands/lines.rs:47-54 | nonempty contents give one line per '\n' before their last character, plus one |
| Lines.UnlinesLinesFrom | src/commands/lines.rs:52 | each line plus a '\n' rebuilds the contents with their last character replaced by '\n' |
| Lines.LinesRebuildContent | src/commands/lines.rs:52 | newline-terminated contents are rebuilt exactly; contents without a final newline lose their last character; empty contents give no lines |
| Lines.HandleFiles | src/commands/lines.rs:73-75 | sends the rows of the files one after another and stops at the first failed send |
| Lines.HandleAllOutcome | src/commands/lines.rs:73-75 | to a live receiver one row per file is sent, in order; to a dead one nothing is sent, and the call fails iff there was a file |
| Lines.ExpandAll | src/commands/lines.rs:70-72 | the paths of all arguments' expansions, in argument order, or the first expansion error |
| Lines.ExpandArgumentsOutcome | src/commands/lines.rs:70-72 | expansion succeeds iff every argument expands; on failure the error is that of the first failing argument |
| Lines.HandleRow | src/commands/lines.rs:85-91 | only the row's cell at the found index is expanded; its error is returned with nothing sent, or else its files are handled |
| Lines.ConsumeWithStep | src/commands/lines.rs:83-94 | one turn of the receive loop: exhausted input ends it with `Ok`; otherwise the first row is handled, and either its error ends the loop or the rest follow |
| Lines.ConsumeInput | src/commands/lines.rs:83-94 | the receive loop returns, sends and leaves unreceived what `ConsumeRows` of the old pending rows says |
| Lines.ConsumeWithConcat | src/commands/lines.rs:83-94 | rows handled without error are followed by the outcome of the rows after them, and their output comes first |
| Lines.ConsumeRowsInOrder | src/commands/lines.rs:83-94 | when every row's cell expands and the receiver is alive, all input is consumed and one row is sent per file, files of earlier rows first |
| Lines.ConsumeRowsFirstError | src/commands/lines.rs:87 | the first row whose cell fails to expand ends the loop with that error; the earlier rows' files have been sent; the later rows stay unreceived |
| Lines.Run | src/commands/lines.rs:60-100 | returns, sends and leaves unreceived exactly what `RunSpec` says for the old input |
| Lines.RunWithoutSchema | src/commands/lines.rs:69-75 | with an empty input schema a failed expansion returns its error with nothing sent; otherwise, to a live receiver, one row per expanded file is sent in argument order; input is untouched |
| Lines.RunArgumentErrors | src/commands/lines.rs:77-96 | with a non-empty schema, a count other than one argument gives "Expected one argument: column spec", and an argument neither Text nor Field gives "Expected column of type Field"; in both cases nothing is sent or received |
| Lines.HandleAllConforms | src/commands/lines.rs:30-41 | every row sent for a list of files matches the declared output columns |
| Lines.ConsumeRowsConforms | src/commands/lines.rs:83-94 | every row sent by the receive loop matches the declared output columns |
| Lines.RunRowsConform | src/commands/lines.rs:60-116 | every row `run` sends matches the output columns `compile` declares |
| Streams.OutputStream.Send | src/commands/lines.rs:41 | appends the row and returns `Ok` when the receiver exists; otherwise changes nothing and returns a send error |
| Streams.InputStream.Recv | src/commands/lines.rs:84-92 | the first pending row, removed from the pending rows, or `None` once none are left |

## Left out

- Threads and channels. The reader thread of `handle` and the print-sink
  threads of `spawn_print_thread` are not modelled as concurrency. A stage's
  endpoints are tags, and the reader thread is `ReadLines`, run on the
  contents.
- Channel semantics are not modelled: blocking, unbounded buffering, and end
  of stream when the producer is dropped. An input is a finite sequence of
  rows.
- A receiver is modelled as present or gone for a stream's whole life.
  Receivers that disappear mid-run are not modelled.
- Lines.Handle: the nested stream's rows are computed before the row is
  sent. The source reads them afterwards, on another thread, and ignores
  that thread's send errors. So order in time and a reader that stops early
  are not modelled.
- File I/O is not modelled. This covers opening a file (the source panics
  on failure) and the ignored `read_line` errors. Contents are a given
  string.
- Lines.ReadLines: strings are sequences of characters. Slicing bytes that
  panics on a multi-byte last character is not modelled.
- `Job::spawn_and_execute`, `join` and `Job::to_string` are parameters. What
  a job definition holds is not modelled.
- Closures.SpawnAndExecute: a spawned job's effect on the shared child
  scope is not modelled. Every stage is spawned with the bindings the scope
  holds once the arguments are pushed, so a later stage cannot see what an
  earlier stage declared there.
- Namespace: the scope model has local bindings, `declare` and the parent
  link. Name lookup and locking are not modelled.
- The printer and the `env` parameter of `run` are left out. `run`
  takes them but never uses them.
- `Cell::concrete`, `partial_clone`, `hash`, `file_expand` and `find_field`
  are parameters. `file_expand` returns the paths of one cell, which are
  appended to the list being built.
- Lines.Run: `row.cells[idx]` panics in the source when a row is too short,
  and this is not modelled. Callers must supply rows as wide as the input
  schema and a `find_field` that only returns columns of that schema
  (`InputWellFormed`, `RowsReach`).
- Lines.Compile: the source declares a tuple return type but builds a
  `Call`. The model follows the body. Its input and output stream
  parameters are unused and left out.
- Argument: `lines.rs` names an argument's value `cell` and `closure.rs`
  names it `value`. One datatype, with the field `cell`, serves both.
- Lines.ConsumeRowsInOrder, Lines.ConsumeRowsFirstError: these are stated
  for a live receiver. With a dead receiver the first row with any file
  fails with a send error; `ConsumeRows`, `HandleAllOutcome` and
  `ConsumeWithStep` describe that case.
- `PartialEq` on rows is not modelled. The only equality used is Dafny's
  equality of values.
