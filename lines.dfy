/** The `lines` command: for every file it is given (by argument, or through
    a column of the input rows) it emits one row pairing the file with a
    nested stream of that file's lines. Path expansion, field lookup and the
    files' contents are parameters; the reader thread is the `ReadLines`
    loop over the contents. */
module Lines {
  import opened Data
  import opened Streams

  // ---------------------------------------------------------------------
  // Declared types

  /** `sub_type`: the nested stream's columns, a single Text column "line". */
  const SubType: seq<ColumnType> := [ColumnType(Some("line"), TextType)]

  /** The columns `compile` declares: `file: File` and `lines: Output([line: Text])`. */
  const OutputColumns: seq<ColumnType> :=
    [ColumnType(Some("file"), FileType), ColumnType(Some("lines"), OutputType(SubType))]

  /** `Exec::Command(run)`: the compiled call runs this module's `Run`. */
  datatype Exec = Command

  /** A compiled call. */
  datatype Call = Call(name: string, inputType: seq<ColumnType>, arguments: seq<Argument>,
                       outputType: seq<ColumnType>, exec: Exec)

  /** `compile`: always succeeds, passing the input type and arguments through. */
  function Compile(inputType: seq<ColumnType>, arguments: seq<Argument>): (r: Result<Call>)
    ensures r.Ok? && r.value.name == "lines" && r.value.exec == Command
    ensures r.value.inputType == inputType && r.value.arguments == arguments
    ensures r.value.outputType == OutputColumns
  {
    Ok(Call("lines", inputType, arguments, OutputColumns, Command))
  }

  // ---------------------------------------------------------------------
  // Reading lines

  /** Where one `read_line` from `pos` stops: just after the next '\n', or
      at the end of the contents. */
  function ChunkEnd(content: string, pos: nat): (e: nat)
    requires pos <= |content|
    ensures pos <= e <= |content|
    ensures pos < |content| ==> pos < e
    ensures pos < e < |content| ==> content[e - 1] == '\n'
    decreases |content| - pos
  {
    if pos == |content| then pos
    else if content[pos] == '\n' then pos + 1
    else ChunkEnd(content, pos + 1)
  }

  /** A chunk holds no '\n' before its last character. */
  lemma {:induction false} ChunkEndFirstNewline(content: string, pos: nat)
    requires pos <= |content|
    ensures forall k :: pos <= k < ChunkEnd(content, pos) - 1 ==> content[k] != '\n'
    decreases |content| - pos
  {
    if pos < |content| && content[pos] != '\n' {
      ChunkEndFirstNewline(content, pos + 1);
    }
  }

  /** The lines emitted from `pos` on: each chunk `read_line` returns, with
      its last character removed. */
  function LinesFrom(content: string, pos: nat): seq<string>
    requires pos <= |content|
    decreases |content| - pos
  {
    if pos == |content| then []
    else
      var e := ChunkEnd(content, pos);
      [content[pos..e - 1]] + LinesFrom(content, e)
  }

  function Lines(content: string): seq<string>
  {
    LinesFrom(content, 0)
  }

  /** One single-cell Text row per line, in order. */
  function TextRows(lines: seq<string>): (rows: seq<Row>)
    ensures |rows| == |lines|
    ensures forall i :: 0 <= i < |lines| ==> rows[i] == Row([Text(lines[i])])
  {
    if lines == [] then [] else [Row([Text(lines[0])])] + TextRows(lines[1..])
  }

  lemma TextRowsCons(line: string, lines: seq<string>)
    ensures TextRows([line] + lines) == [Row([Text(line)])] + TextRows(lines)
  {
    assert ([line] + lines)[1..] == lines;
  }

  /** One `read_line` from `pos` yields the chunk up to `ChunkEnd`; it is
      empty only at the end, and otherwise its line row comes first. */
  lemma LinesFromStep(rows: seq<Row>, content: string, pos: nat)
    requires pos <= |content|
    ensures (content[pos..ChunkEnd(content, pos)] == "") <==> pos == |content|
    ensures pos == |content| ==> rows + TextRows(LinesFrom(content, pos)) == rows
    ensures pos < |content| ==>
      var chunk := content[pos..ChunkEnd(content, pos)];
      rows + TextRows(LinesFrom(content, pos)) ==
        rows + [Row([Text(chunk[..|chunk| - 1])])] + TextRows(LinesFrom(content, ChunkEnd(content, pos)))
  {
    if pos < |content| {
      var next := ChunkEnd(content, pos);
      var chunk := content[pos..next];
      assert |chunk| == next - pos;
      assert chunk[..|chunk| - 1] == content[pos..next - 1];
      TextRowsCons(content[pos..next - 1], LinesFrom(content, next));
      var first := [Row([Text(chunk[..|chunk| - 1])])];
      var rest := TextRows(LinesFrom(content, next));
      assert rows + (first + rest) == rows + first + rest;
    } else {
      assert rows + [] == rows;
    }
  }

  /** The rows a file's nested stream delivers. */
  function LineRows(content: string): seq<Row>
  {
    TextRows(Lines(content))
  }

  /** The reader thread of `handle`: `read_line` appends the next chunk to
      the reused buffer, an empty buffer ends the loop, and otherwise the
      buffer minus its last character is sent and the buffer cleared. */
  method ReadLines(content: string) returns (rows: seq<Row>)
    ensures rows == LineRows(content)
  {
    var pos := 0;
    var line := "";
    rows := [];
    while true
      invariant pos <= |content| && line == ""
      invariant rows + TextRows(LinesFrom(content, pos)) == LineRows(content)
      decreases |content| - pos
    {
      LinesFromStep(rows, content, pos);
      var next := ChunkEnd(content, pos);
      line := line + content[pos..next];
      assert line == content[pos..next];
      if line == "" {
        break;
      }
      rows := rows + [Row([Text(line[..|line| - 1])])];
      line := "";
      pos := next;
    }
  }

  /** Each line followed by a '\n'. */
  function Unlines(lines: seq<string>): string
  {
    if lines == [] then "" else lines[0] + "\n" + Unlines(lines[1..])
  }

  /** Putting a '\n' back after every line rebuilds the contents with their
      last character replaced by '\n': newline-terminated contents come back
      unchanged, and contents without a final newline lose their last
      character. */
  lemma {:induction false} UnlinesLinesFrom(content: string, pos: nat)
    requires pos < |content|
    ensures Unlines(LinesFrom(content, pos)) == content[pos..|content| - 1] + "\n"
    decreases |content| - pos
  {
    var e := ChunkEnd(content, pos);
    var line := content[pos..e - 1];
    var rest := LinesFrom(content, e);
    assert LinesFrom(content, pos) == [line] + rest;
    assert ([line] + rest)[1..] == rest;
    assert Unlines(LinesFrom(content, pos)) == line + "\n" + Unlines(rest);
    if e < |content| {
      UnlinesLinesFrom(content, e);
      assert content[e - 1] == '\n';
      assert content[pos..|content| - 1] == content[pos..e - 1] + [content[e - 1]] + content[e..|content| - 1];
    } else {
      assert rest == [];
    }
  }

  /** Putting a '\n' back after every line gives the contents back when they
      end with a newline; contents without a final newline come back with
      their last character replaced by '\n', i.e. that character was lost. */
  lemma LinesRebuildContent(content: string)
    ensures content == [] ==> Lines(content) == []
    ensures content != [] ==> Unlines(Lines(content)) == content[..|content| - 1] + "\n"
    ensures content != [] && content[|content| - 1] == '\n' ==> Unlines(Lines(content)) == content
  {
    if content != [] {
      UnlinesLinesFrom(content, 0);
      assert content[0..|content| - 1] == content[..|content| - 1];
    }
  }

  /** No emitted line contains a '\n'. */
  lemma {:induction false} LinesHaveNoNewline(content: string, pos: nat)
    requires pos <= |content|
    ensures forall i, k :: 0 <= i < |LinesFrom(content, pos)| && 0 <= k < |LinesFrom(content, pos)[i]| ==>
      LinesFrom(content, pos)[i][k] != '\n'
    decreases |content| - pos
  {
    if pos < |content| {
      var e := ChunkEnd(content, pos);
      var ls := LinesFrom(content, pos);
      LinesHaveNoNewline(content, e);
      ChunkEndFirstNewline(content, pos);
      assert ls == [content[pos..e - 1]] + LinesFrom(content, e);
      forall i, k | 0 <= i < |ls| && 0 <= k < |ls[i]| ensures ls[i][k] != '\n' {
        if i == 0 {
          assert ls[0][k] == content[pos + k];
        } else {
          assert ls[i] == LinesFrom(content, e)[i - 1];
        }
      }
    }
  }

  /** The number of '\n' characters. */
  function NewlineCount(s: string): nat
  {
    if s == [] then 0 else (if s[0] == '\n' then 1 else 0) + NewlineCount(s[1..])
  }

  lemma {:induction false} NewlineCountAppend(a: string, b: string)
    ensures NewlineCount(a + b) == NewlineCount(a) + NewlineCount(b)
  {
    if a != [] {
      assert (a + b)[0] == a[0];
      assert (a + b)[1..] == a[1..] + b;
      NewlineCountAppend(a[1..], b);
      assert NewlineCount(a + b) == (if a[0] == '\n' then 1 else 0) + NewlineCount(a[1..] + b);
    } else {
      assert a + b == b;
    }
  }

  lemma {:induction false} NewlineCountNone(s: string)
    requires forall k :: 0 <= k < |s| ==> s[k] != '\n'
    ensures NewlineCount(s) == 0
  {
    if s != [] {
      NewlineCountNone(s[1..]);
    }
  }

  /** Nonempty contents give one line per '\n' before their last character,
      plus one: a file of three newline-terminated lines gives three rows. */
  lemma {:induction false} LineCountFrom(content: string, pos: nat)
    requires pos <= |content|
    ensures |LinesFrom(content, pos)| == if pos == |content| then 0 else NewlineCount(content[pos..|content| - 1]) + 1
    decreases |content| - pos
  {
    if pos < |content| {
      var e := ChunkEnd(content, pos);
      LineCountFrom(content, e);
      ChunkEndFirstNewline(content, pos);
      NewlineCountNone(content[pos..e - 1]);
      if e < |content| {
        assert content[pos..|content| - 1] == content[pos..e - 1] + ("\n" + content[e..|content| - 1]);
        NewlineCountAppend(content[pos..e - 1], "\n" + content[e..|content| - 1]);
        assert ("\n" + content[e..|content| - 1])[1..] == content[e..|content| - 1];
      } else {
        assert content[pos..|content| - 1] == content[pos..e - 1];
      }
    }
  }

  // ---------------------------------------------------------------------
  // The row emitted per file

  /** The row `handle` sends for a file: the file, then a nested stream with
      the single Text column "line" that delivers the file's lines. */
  function FileRow(file: Path, content: string): Row
  {
    Row([File(file), JobOutput(SubType, LineRows(content))])
  }

  /** Every row emitted per file matches the columns `compile` declares. */
  lemma FileRowConforms(file: Path, content: string, inputType: seq<ColumnType>, arguments: seq<Argument>)
    ensures |FileRow(file, content).cells| == 2
    ensures FileRow(file, content).cells[0] == File(file)
    ensures FileRow(file, content).cells[1].JobOutput? && FileRow(file, content).cells[1].types == SubType
    ensures RowConforms(FileRow(file, content), Compile(inputType, arguments).value.outputType)
  {
    var rows := LineRows(content);
    forall r | r in rows ensures RowConforms(r, SubType) {
      var i :| 0 <= i < |rows| && rows[i] == r;
      assert CellConforms(r.cells[0], TextType);
    }
    assert CellConforms(JobOutput(SubType, rows), OutputType(SubType));
  }

  /** `handle`: sends the file's row; the nested stream's rows are what the
      reader thread delivers. */
  method Handle(file: Path, content: string, output: OutputStream) returns (r: Result<Unit>)
    modifies output
    ensures r == if output.open then Ok(Unit) else Err(SendError)
    ensures output.sent == old(output.sent) + if output.open then [FileRow(file, content)] else []
  {
    var lines := ReadLines(content);
    var outRow := Row([File(file), JobOutput(SubType, lines)]);
    r := output.Send(outRow);
  }

  /** What a run returns and what it sends. */
  datatype Emitted = Emitted(result: Result<Unit>, sent: seq<Row>)

  /** Handling files in order, stopping at the first failed send. */
  function HandleAll(files: seq<Path>, open: bool, contents: Path -> string): Emitted
  {
    if files == [] then Emitted(Ok(Unit), [])
    else if !open then Emitted(Err(SendError), [])
    else
      var rest := HandleAll(files[1..], open, contents);
      Emitted(rest.result, [FileRow(files[0], contents(files[0]))] + rest.sent)
  }

  /** One row per file, in order. */
  function FileRows(files: seq<Path>, contents: Path -> string): (rows: seq<Row>)
    ensures |rows| == |files|
    ensures forall i :: 0 <= i < |files| ==> rows[i] == FileRow(files[i], contents(files[i]))
  {
    if files == [] then [] else [FileRow(files[0], contents(files[0]))] + FileRows(files[1..], contents)
  }

  /** To a live receiver every file's row is sent, in order; to a dead one
      nothing is sent, and the run fails iff there was a file to send. */
  lemma {:induction false} HandleAllOutcome(files: seq<Path>, open: bool, contents: Path -> string)
    ensures open ==> HandleAll(files, open, contents) == Emitted(Ok(Unit), FileRows(files, contents))
    ensures !open ==> HandleAll(files, open, contents).sent == []
    ensures !open ==> (HandleAll(files, open, contents).result.Ok? <==> files == [])
  {
    if files != [] && open {
      HandleAllOutcome(files[1..], open, contents);
    }
  }

  /** `prefix` was sent before `e`. */
  function SentBefore(prefix: seq<Row>, e: Emitted): Emitted
  {
    Emitted(e.result, prefix + e.sent)
  }

  /** Handling the next file: nothing more is sent to a dead receiver, and
      otherwise that file's row is sent before the rest. */
  lemma HandleAllStep(done: seq<Row>, files: seq<Path>, open: bool, contents: Path -> string)
    ensures files == [] ==> SentBefore(done, HandleAll(files, open, contents)) == Emitted(Ok(Unit), done)
    ensures files != [] && !open ==> SentBefore(done, HandleAll(files, open, contents)) == Emitted(Err(SendError), done)
    ensures files != [] && open ==>
      SentBefore(done, HandleAll(files, open, contents)) ==
        SentBefore(done + [FileRow(files[0], contents(files[0]))], HandleAll(files[1..], open, contents))
  {
    if files == [] {
      assert done + [] == done;
    }
    if files != [] && open {
      var rest := HandleAll(files[1..], open, contents).sent;
      assert done + ([FileRow(files[0], contents(files[0]))] + rest) == done + [FileRow(files[0], contents(files[0]))] + rest;
    }
    if files != [] && !open {
      assert done + [] == done;
    }
  }

  /** Handles the files in order and stops at the first failed send. */
  method HandleFiles(files: seq<Path>, output: OutputStream, contents: Path -> string) returns (r: Result<Unit>)
    modifies output
    ensures r == HandleAll(files, output.open, contents).result
    ensures output.sent == old(output.sent) + HandleAll(files, output.open, contents).sent
  {
    var j := 0;
    assert files[0..] == files;
    while j < |files|
      invariant 0 <= j <= |files|
      invariant SentBefore(old(output.sent), HandleAll(files, output.open, contents)) ==
        SentBefore(output.sent, HandleAll(files[j..], output.open, contents))
    {
      HandleAllStep(output.sent, files[j..], output.open, contents);
      assert files[j..][0] == files[j] && files[j..][1..] == files[j + 1..];
      r := Handle(files[j], contents(files[j]), output);
      if r.Err? {
        return;
      }
      j := j + 1;
    }
    assert files[j..] == [];
    r := Ok(Unit);
  }

  // ---------------------------------------------------------------------
  // Argument expansion

  /** `file_expand` of every argument, in order, collecting the paths; the
      first failure is the result. */
  function ExpandArguments(arguments: seq<Argument>, expand: Cell -> Result<seq<Path>>): Result<seq<Path>>
  {
    if arguments == [] then Ok([])
    else
      match expand(arguments[0].cell)
      case Err(e) => Err(e)
      case Ok(paths) =>
        match ExpandArguments(arguments[1..], expand)
        case Err(e) => Err(e)
        case Ok(rest) => Ok(paths + rest)
  }

  /** Argument k is the first whose expansion fails. */
  predicate FirstExpandFailure(arguments: seq<Argument>, expand: Cell -> Result<seq<Path>>, k: nat)
  {
    k < |arguments| && expand(arguments[k].cell).Err? &&
    forall j :: 0 <= j < k ==> expand(arguments[j].cell).Ok?
  }

  /** Expansion succeeds iff every argument expands; when it fails, the error
      is that of the first argument that fails. */
  lemma {:induction false} ExpandArgumentsOutcome(arguments: seq<Argument>, expand: Cell -> Result<seq<Path>>)
    ensures ExpandArguments(arguments, expand).Ok? <==> forall j :: 0 <= j < |arguments| ==> expand(arguments[j].cell).Ok?
    ensures forall k: nat :: FirstExpandFailure(arguments, expand, k) ==>
      ExpandArguments(arguments, expand) == Err(expand(arguments[k].cell).error)
  {
    if arguments != [] {
      var tail := arguments[1..];
      ExpandArgumentsOutcome(tail, expand);
      assert forall j :: 0 < j < |arguments| ==> arguments[j] == tail[j - 1];
      forall k: nat | FirstExpandFailure(arguments, expand, k)
        ensures ExpandArguments(arguments, expand) == Err(expand(arguments[k].cell).error)
      {
        if k > 0 {
          assert FirstExpandFailure(tail, expand, k - 1);
        }
      }
    }
  }

  /** `paths` stand before those still to be expanded. */
  function PrependPaths(paths: seq<Path>, r: Result<seq<Path>>): Result<seq<Path>>
  {
    match r
    case Err(e) => Err(e)
    case Ok(rest) => Ok(paths + rest)
  }

  lemma PrependNothing(r: Result<seq<Path>>)
    ensures PrependPaths([], r) == r
  {
    if r.Ok? {
      assert [] + r.value == r.value;
    }
  }

  /** Expanding the next argument moves its paths into `files`. */
  lemma ExpandArgumentsStep(arguments: seq<Argument>, expand: Cell -> Result<seq<Path>>, files: seq<Path>)
    requires arguments != []
    ensures expand(arguments[0].cell).Err? ==>
      PrependPaths(files, ExpandArguments(arguments, expand)) == Err(expand(arguments[0].cell).error)
    ensures expand(arguments[0].cell).Ok? ==>
      PrependPaths(files, ExpandArguments(arguments, expand)) ==
        PrependPaths(files + expand(arguments[0].cell).value, ExpandArguments(arguments[1..], expand))
  {
    if expand(arguments[0].cell).Ok? {
      var paths := expand(arguments[0].cell).value;
      var rest := ExpandArguments(arguments[1..], expand);
      if rest.Ok? {
        assert files + (paths + rest.value) == files + paths + rest.value;
      }
    }
  }

  // ---------------------------------------------------------------------
  // `run`

  const ExpectedOneArgument := "Expected one argument: column spec"
  const ExpectedField := "Expected column of type Field"

  /** What `run` returns, sends, and leaves unreceived. */
  datatype Outcome = Outcome(result: Result<Unit>, sent: seq<Row>, unread: seq<Row>)

  /** Every row still to be received has a cell at `idx`. */
  predicate RowsReach(rows: seq<Row>, idx: nat)
  {
    forall r :: r in rows ==> idx < |r.cells|
  }

  /** One received row, by its cell at the named column: the cell is
      expanded and the files handled. */
  function CellOutcome(cell: Cell, open: bool, expand: Cell -> Result<seq<Path>>,
                       contents: Path -> string): Emitted
  {
    match expand(cell)
    case Err(e) => Emitted(Err(e), [])
    case Ok(files) => HandleAll(files, open, contents)
  }

  function Handler(open: bool, expand: Cell -> Result<seq<Path>>, contents: Path -> string): Cell -> Emitted
  {
    c => CellOutcome(c, open, expand, contents)
  }

  /** A `recv` loop that handles each row by its cell at `idx`: rows in
      order; the first error ends the loop and leaves the later rows
      unreceived. */
  function ConsumeWith(rows: seq<Row>, idx: nat, handle: Cell -> Emitted): Outcome
    requires RowsReach(rows, idx)
  {
    if rows == [] then Outcome(Ok(Unit), [], [])
    else
      var h := handle(rows[0].cells[idx]);
      if h.result.Err? then Outcome(h.result, h.sent, rows[1..])
      else
        var rest := ConsumeWith(rows[1..], idx, handle);
        Outcome(rest.result, h.sent + rest.sent, rest.unread)
  }

  /** The `recv` loop of `run`. */
  function ConsumeRows(rows: seq<Row>, idx: nat, open: bool, expand: Cell -> Result<seq<Path>>,
                       contents: Path -> string): Outcome
    requires RowsReach(rows, idx)
  {
    ConsumeWith(rows, idx, Handler(open, expand, contents))
  }

  /** The files of all rows, in row order (every row's cell must expand). */
  function RowFiles(rows: seq<Row>, idx: nat, expand: Cell -> Result<seq<Path>>): seq<Path>
    requires RowsReach(rows, idx)
    requires forall r :: r in rows ==> expand(r.cells[idx]).Ok?
  {
    if rows == [] then [] else expand(rows[0].cells[idx]).value + RowFiles(rows[1..], idx, expand)
  }

  lemma FileRowsAppend(a: seq<Path>, b: seq<Path>, contents: Path -> string)
    ensures FileRows(a + b, contents) == FileRows(a, contents) + FileRows(b, contents)
  {
    var l, r := FileRows(a + b, contents), FileRows(a, contents) + FileRows(b, contents);
    forall i | 0 <= i < |a + b| ensures l[i] == r[i] {
      if i >= |a| {
        assert (a + b)[i] == b[i - |a|];
      }
    }
  }

  /** When every row's cell expands and the receiver is alive, all input is
      consumed and one row is sent per file, files of earlier rows first. */
  lemma {:induction false} ConsumeRowsInOrder(rows: seq<Row>, idx: nat, expand: Cell -> Result<seq<Path>>, contents: Path -> string)
    requires RowsReach(rows, idx)
    requires forall r :: r in rows ==> expand(r.cells[idx]).Ok?
    ensures ConsumeRows(rows, idx, true, expand, contents) ==
      Outcome(Ok(Unit), FileRows(RowFiles(rows, idx, expand), contents), [])
  {
    if rows != [] {
      var files := expand(rows[0].cells[idx]).value;
      HandleAllOutcome(files, true, contents);
      assert forall r :: r in rows[1..] ==> r in rows;
      ConsumeRowsInOrder(rows[1..], idx, expand, contents);
      FileRowsAppend(files, RowFiles(rows[1..], idx, expand), contents);
    }
  }

  /** Nothing sent before an outcome leaves it as it is. */
  lemma OutcomeAfterNothing(o: Outcome)
    ensures OutcomeAfter([], o) == o
  {
    assert [] + o.sent == o.sent;
  }

  /** When the first rows are consumed without error, consuming them with
      more rows behind sends their rows before whatever the rest produce. */
  lemma {:induction false} ConsumeWithConcat(prefix: seq<Row>, rest: seq<Row>, idx: nat, handle: Cell -> Emitted)
    requires RowsReach(prefix, idx) && RowsReach(rest, idx)
    requires ConsumeWith(prefix, idx, handle).result.Ok?
    ensures RowsReach(prefix + rest, idx)
    ensures ConsumeWith(prefix + rest, idx, handle) ==
      OutcomeAfter(ConsumeWith(prefix, idx, handle).sent, ConsumeWith(rest, idx, handle))
  {
    var o := ConsumeWith(rest, idx, handle);
    if prefix == [] {
      assert prefix + rest == rest;
      OutcomeAfterNothing(o);
    } else {
      assert (prefix + rest)[0] == prefix[0];
      assert (prefix + rest)[1..] == prefix[1..] + rest;
      assert forall r :: r in prefix[1..] ==> r in prefix;
      ConsumeWithConcat(prefix[1..], rest, idx, handle);
      var h := handle(prefix[0].cells[idx]);
      var mid := ConsumeWith(prefix[1..], idx, handle);
      assert h.sent + (mid.sent + o.sent) == h.sent + mid.sent + o.sent;
    }
  }

  /** When a row's cell is the first that fails to expand (the receiver
      being alive), the run returns that error, the rows before it have had
      all their files sent, and the rows after it stay unreceived. */
  lemma ConsumeRowsFirstError(before: seq<Row>, failing: Row, after: seq<Row>, idx: nat,
                              expand: Cell -> Result<seq<Path>>, contents: Path -> string)
    requires RowsReach(before, idx) && idx < |failing.cells| && RowsReach(after, idx)
    requires forall r :: r in before ==> expand(r.cells[idx]).Ok?
    requires expand(failing.cells[idx]).Err?
    ensures RowsReach(before + [failing] + after, idx)
    ensures ConsumeRows(before + [failing] + after, idx, true, expand, contents) ==
      Outcome(Err(expand(failing.cells[idx]).error), FileRows(RowFiles(before, idx, expand), contents), after)
  {
    var tail := [failing] + after;
    assert before + [failing] + after == before + tail;
    assert tail[0] == failing && tail[1..] == after;
    assert forall r :: r in tail ==> r == failing || r in after;
    ConsumeRowsInOrder(before, idx, expand, contents);
    ConsumeWithConcat(before, tail, idx, Handler(true, expand, contents));
    var sent := FileRows(RowFiles(before, idx, expand), contents);
    assert sent + [] == sent;
  }

  /** What the caller guarantees about the input: rows match the schema's
      width, and `find_field` only returns columns of the schema. */
  ghost predicate InputWellFormed(inputType: seq<ColumnType>, pending: seq<Row>,
                            findField: (string, seq<ColumnType>) -> Result<nat>)
  {
    (forall r :: r in pending ==> |r.cells| == |inputType|) &&
    (forall s :: findField(s, inputType).Ok? ==> findField(s, inputType).value < |inputType|)
  }

  /** `run` once the column has been named: look it up, then consume rows. */
  function FromColumn(name: string, inputType: seq<ColumnType>, pending: seq<Row>, open: bool,
                      expand: Cell -> Result<seq<Path>>, findField: (string, seq<ColumnType>) -> Result<nat>,
                      contents: Path -> string): Outcome
    requires InputWellFormed(inputType, pending, findField)
  {
    match findField(name, inputType)
    case Err(e) => Outcome(Err(e), [], pending)
    case Ok(idx) => ConsumeRows(pending, idx, open, expand, contents)
  }

  /** `run`. */
  function RunSpec(inputType: seq<ColumnType>, arguments: seq<Argument>, pending: seq<Row>, open: bool,
                   expand: Cell -> Result<seq<Path>>, findField: (string, seq<ColumnType>) -> Result<nat>,
                   contents: Path -> string): Outcome
    requires InputWellFormed(inputType, pending, findField)
  {
    if |inputType| == 0 then
      match ExpandArguments(arguments, expand)
      case Err(e) => Outcome(Err(e), [], pending)
      case Ok(files) =>
        var h := HandleAll(files, open, contents);
        Outcome(h.result, h.sent, pending)
    else if |arguments| != 1 then Outcome(Err(ArgumentError(ExpectedOneArgument)), [], pending)
    else
      match arguments[0].cell
      case Text(s) => FromColumn(s, inputType, pending, open, expand, findField, contents)
      case Field(s) => FromColumn(s, inputType, pending, open, expand, findField, contents)
      case _ => Outcome(Err(ArgumentError(ExpectedField)), [], pending)
  }

  /** `done` was sent before `o`. */
  function OutcomeAfter(done: seq<Row>, o: Outcome): Outcome
  {
    Outcome(o.result, done + o.sent, o.unread)
  }

  /** The file-expansion loop of `run`: `file_expand` of each argument, in
      order, appends to `files`; the first failure is returned. */
  method ExpandAll(arguments: seq<Argument>, expand: Cell -> Result<seq<Path>>) returns (r: Result<seq<Path>>)
    ensures r == ExpandArguments(arguments, expand)
  {
    var files: seq<Path> := [];
    var i := 0;
    PrependNothing(ExpandArguments(arguments, expand));
    assert arguments[0..] == arguments;
    while i < |arguments|
      invariant 0 <= i <= |arguments|
      invariant ExpandArguments(arguments, expand) == PrependPaths(files, ExpandArguments(arguments[i..], expand))
    {
      ExpandArgumentsStep(arguments[i..], expand, files);
      assert arguments[i..][0] == arguments[i];
      assert arguments[i..][1..] == arguments[i + 1..];
      var expanded := expand(arguments[i].cell);
      if expanded.Err? {
        return Err(expanded.error);
      }
      files := files + expanded.value;
      i := i + 1;
    }
    assert arguments[|arguments|..] == [];
    assert files + [] == files;
    r := Ok(files);
  }

  /** One turn of the `recv` loop, after `done` was sent: an exhausted input
      ends the run; otherwise the first row is handled, and then either the
      run stops with its error or the remaining rows follow. */
  lemma ConsumeWithStep(done: seq<Row>, rows: seq<Row>, idx: nat, handle: Cell -> Emitted)
    requires RowsReach(rows, idx)
    ensures rows == [] ==> OutcomeAfter(done, ConsumeWith(rows, idx, handle)) == Outcome(Ok(Unit), done, [])
    ensures rows != [] ==> RowsReach(rows[1..], idx) && idx < |rows[0].cells|
    ensures rows != [] && handle(rows[0].cells[idx]).result.Err? ==>
      OutcomeAfter(done, ConsumeWith(rows, idx, handle)) ==
        Outcome(handle(rows[0].cells[idx]).result, done + handle(rows[0].cells[idx]).sent, rows[1..])
    ensures rows != [] && handle(rows[0].cells[idx]).result.Ok? ==>
      OutcomeAfter(done, ConsumeWith(rows, idx, handle)) ==
        OutcomeAfter(done + handle(rows[0].cells[idx]).sent, ConsumeWith(rows[1..], idx, handle))
  {
    if rows == [] {
      assert done + [] == done;
    } else {
      assert forall r :: r in rows[1..] ==> r in rows;
      var h := handle(rows[0].cells[idx]);
      if h.result.Ok? {
        var rest := ConsumeWith(rows[1..], idx, handle);
        assert done + (h.sent + rest.sent) == done + h.sent + rest.sent;
      }
    }
  }

  /** The `Ok(row)` arm of the `recv` loop. */
  method HandleRow(row: Row, idx: nat, output: OutputStream, expand: Cell -> Result<seq<Path>>,
                   contents: Path -> string)
    returns (r: Result<Unit>)
    requires idx < |row.cells|
    modifies output
    ensures r == CellOutcome(row.cells[idx], output.open, expand, contents).result
    ensures output.sent == old(output.sent) + CellOutcome(row.cells[idx], output.open, expand, contents).sent
  {
    var files := expand(row.cells[idx]);
    if files.Err? {
      return Err(files.error);
    }
    r := HandleFiles(files.value, output, contents);
  }

  /** The `recv` loop of `run`. */
  method ConsumeInput(input: InputStream, idx: nat, output: OutputStream,
                      expand: Cell -> Result<seq<Path>>, contents: Path -> string)
    returns (r: Result<Unit>)
    requires RowsReach(input.pending, idx)
    modifies input, output
    ensures r == ConsumeRows(old(input.pending), idx, output.open, expand, contents).result
    ensures output.sent == old(output.sent) + ConsumeRows(old(input.pending), idx, output.open, expand, contents).sent
    ensures input.pending == ConsumeRows(old(input.pending), idx, output.open, expand, contents).unread
  {
    ghost var handle := Handler(output.open, expand, contents);
    ghost var whole := ConsumeWith(input.pending, idx, handle);
    while true
      invariant RowsReach(input.pending, idx)
      invariant OutcomeAfter(old(output.sent), whole) == OutcomeAfter(output.sent, ConsumeWith(input.pending, idx, handle))
      decreases |input.pending|
    {
      ConsumeWithStep(output.sent, input.pending, idx, handle);
      var received := input.Recv();
      if received.None? {
        break;
      }
      r := HandleRow(received.value, idx, output, expand, contents);
      if r.Err? {
        return;
      }
    }
    r := Ok(Unit);
  }

  /** `run`: the environment and printer it is handed are not used. */
  method Run(inputType: seq<ColumnType>, arguments: seq<Argument>, input: InputStream, output: OutputStream,
             expand: Cell -> Result<seq<Path>>, findField: (string, seq<ColumnType>) -> Result<nat>,
             contents: Path -> string)
    returns (r: Result<Unit>)
    requires InputWellFormed(inputType, input.pending, findField)
    modifies input, output
    ensures r == RunSpec(inputType, arguments, old(input.pending), output.open, expand, findField, contents).result
    ensures output.sent == old(output.sent) + RunSpec(inputType, arguments, old(input.pending), output.open, expand, findField, contents).sent
    ensures input.pending == RunSpec(inputType, arguments, old(input.pending), output.open, expand, findField, contents).unread
  {
    if |inputType| == 0 {
      var files := ExpandAll(arguments, expand);
      if files.Err? {
        return Err(files.error);
      }
      r := HandleFiles(files.value, output, contents);
      return;
    }
    if |arguments| != 1 {
      return Err(ArgumentError(ExpectedOneArgument));
    }
    var name: string;
    match arguments[0].cell {
      case Text(s) => name := s;
      case Field(s) => name := s;
      case _ => return Err(ArgumentError(ExpectedField));
    }
    assert RunSpec(inputType, arguments, input.pending, output.open, expand, findField, contents) ==
      FromColumn(name, inputType, input.pending, output.open, expand, findField, contents);
    var found := findField(name, inputType);
    if found.Err? {
      return Err(found.error);
    }
    r := ConsumeInput(input, found.value, output, expand, contents);
  }

  // ---------------------------------------------------------------------
  // Properties of `run`

  /** With an empty input schema: if some argument fails to expand, nothing
      is sent; otherwise, to a live receiver, one row per expanded file is
      sent in argument order and the input is not touched. */
  lemma RunWithoutSchema(arguments: seq<Argument>, pending: seq<Row>, open: bool,
                         expand: Cell -> Result<seq<Path>>, findField: (string, seq<ColumnType>) -> Result<nat>,
                         contents: Path -> string)
    requires InputWellFormed([], pending, findField)
    ensures ExpandArguments(arguments, expand).Err? ==>
      RunSpec([], arguments, pending, open, expand, findField, contents) ==
        Outcome(Err(ExpandArguments(arguments, expand).error), [], pending)
    ensures ExpandArguments(arguments, expand).Ok? && open ==>
      RunSpec([], arguments, pending, open, expand, findField, contents) ==
        Outcome(Ok(Unit), FileRows(ExpandArguments(arguments, expand).value, contents), pending)
  {
    if ExpandArguments(arguments, expand).Ok? {
      HandleAllOutcome(ExpandArguments(arguments, expand).value, open, contents);
    }
  }

  /** With a non-empty input schema the single argument must name a column:
      any other number of arguments, or an argument that is neither Text nor
      Field, is an argument error before any row is received or sent. */
  lemma RunArgumentErrors(inputType: seq<ColumnType>, arguments: seq<Argument>, pending: seq<Row>, open: bool,
                          expand: Cell -> Result<seq<Path>>, findField: (string, seq<ColumnType>) -> Result<nat>,
                          contents: Path -> string)
    requires InputWellFormed(inputType, pending, findField)
    requires |inputType| > 0
    ensures |arguments| != 1 ==>
      RunSpec(inputType, arguments, pending, open, expand, findField, contents) ==
        Outcome(Err(ArgumentError(ExpectedOneArgument)), [], pending)
    ensures |arguments| == 1 && !arguments[0].cell.Text? && !arguments[0].cell.Field? ==>
      RunSpec(inputType, arguments, pending, open, expand, findField, contents) ==
        Outcome(Err(ArgumentError(ExpectedField)), [], pending)
  {
  }

  lemma {:induction false} HandleAllConforms(files: seq<Path>, open: bool, contents: Path -> string)
    ensures forall r :: r in HandleAll(files, open, contents).sent ==> RowConforms(r, OutputColumns)
  {
    if files != [] && open {
      HandleAllConforms(files[1..], open, contents);
      FileRowConforms(files[0], contents(files[0]), [], []);
    }
  }

  lemma {:induction false} ConsumeRowsConforms(rows: seq<Row>, idx: nat, open: bool,
                                               expand: Cell -> Result<seq<Path>>, contents: Path -> string)
    requires RowsReach(rows, idx)
    ensures forall r :: r in ConsumeRows(rows, idx, open, expand, contents).sent ==> RowConforms(r, OutputColumns)
  {
    if rows != [] && expand(rows[0].cells[idx]).Ok? {
      HandleAllConforms(expand(rows[0].cells[idx]).value, open, contents);
      assert forall r :: r in rows[1..] ==> r in rows;
      ConsumeRowsConforms(rows[1..], idx, open, expand, contents);
    }
  }

  /** Every row `run` sends matches the output columns `compile` declares. */
  lemma RunRowsConform(inputType: seq<ColumnType>, arguments: seq<Argument>, pending: seq<Row>, open: bool,
                       expand: Cell -> Result<seq<Path>>, findField: (string, seq<ColumnType>) -> Result<nat>,
                       contents: Path -> string)
    requires InputWellFormed(inputType, pending, findField)
    ensures forall r :: r in RunSpec(inputType, arguments, pending, open, expand, findField, contents).sent ==>
      RowConforms(r, Compile(inputType, arguments).value.outputType)
  {
    if |inputType| == 0 {
      if ExpandArguments(arguments, expand).Ok? {
        HandleAllConforms(ExpandArguments(arguments, expand).value, open, contents);
      }
    } else if |arguments| == 1 && (arguments[0].cell.Text? || arguments[0].cell.Field?) {
      var name := if arguments[0].cell.Text? then arguments[0].cell.text else arguments[0].cell.field;
      var found := findField(name, inputType);
      if found.Ok? {
        ConsumeRowsConforms(pending, found.value, open, expand, contents);
      }
    }
  }
}
