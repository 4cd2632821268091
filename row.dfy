/** Row-level operations: cell-wise `concrete`, fallible cell-wise
    `partial_clone`, and hashing as an ordered fold of per-cell hashing into
    a hasher's state. The cell-level operations are parameters. */
module Rows {
  import opened Data

  /** `Row::concrete`: same length, cell i of the result is `concrete` of cell i. */
  function Concrete(row: Row, cellConcrete: Cell -> Cell): (r: Row)
    ensures |r.cells| == |row.cells|
    ensures forall i :: 0 <= i < |row.cells| ==> r.cells[i] == cellConcrete(row.cells[i])
  {
    Row(Map(row.cells, cellConcrete))
  }

  /** An idempotent cell-level `concrete` makes `Row::concrete` idempotent. */
  lemma ConcreteIdempotent(row: Row, cellConcrete: Cell -> Cell)
    requires forall c :: cellConcrete(cellConcrete(c)) == cellConcrete(c)
    ensures Concrete(Concrete(row, cellConcrete), cellConcrete) == Concrete(row, cellConcrete)
  {
  }

  /** The clones of all cells in order, or the error of the first cell that
      cannot be cloned (later cells are not looked at). */
  function PartialCloneCells(cells: seq<Cell>, cellClone: Cell -> Result<Cell>): (r: Result<seq<Cell>>)
    ensures r.Ok? <==> forall i :: 0 <= i < |cells| ==> cellClone(cells[i]).Ok?
    ensures r.Ok? ==> |r.value| == |cells|
    ensures r.Ok? ==> forall i :: 0 <= i < |cells| ==> r.value[i] == cellClone(cells[i]).value
  {
    if cells == [] then Ok([])
    else
      match cellClone(cells[0])
      case Err(e) => Err(e)
      case Ok(c) =>
        match PartialCloneCells(cells[1..], cellClone)
        case Err(e) => Err(e)
        case Ok(rest) => Ok([c] + rest)
  }

  /** `Row::partial_clone`. */
  function PartialClone(row: Row, cellClone: Cell -> Result<Cell>): (r: Result<Row>)
    ensures r.Ok? <==> forall i :: 0 <= i < |row.cells| ==> cellClone(row.cells[i]).Ok?
    ensures r.Ok? ==> |r.value.cells| == |row.cells|
    ensures r.Ok? ==> forall i :: 0 <= i < |row.cells| ==> r.value.cells[i] == cellClone(row.cells[i]).value
  {
    match PartialCloneCells(row.cells, cellClone)
    case Err(e) => Err(e)
    case Ok(cells) => Ok(Row(cells))
  }

  /** Cell k is the first, in column order, whose clone fails. */
  predicate FirstCloneFailure(cells: seq<Cell>, cellClone: Cell -> Result<Cell>, k: nat)
  {
    k < |cells| && cellClone(cells[k]).Err? &&
    forall j :: 0 <= j < k ==> cellClone(cells[j]).Ok?
  }

  lemma {:induction false} PartialCloneCellsFirstError(cells: seq<Cell>, cellClone: Cell -> Result<Cell>, k: nat)
    requires FirstCloneFailure(cells, cellClone, k)
    ensures PartialCloneCells(cells, cellClone) == Err(cellClone(cells[k]).error)
  {
    if k > 0 {
      assert cellClone(cells[0]).Ok?;
      assert FirstCloneFailure(cells[1..], cellClone, k - 1) by {
        forall j | 0 <= j < k - 1 ensures cellClone(cells[1..][j]).Ok? {
          assert cells[1..][j] == cells[j + 1];
        }
      }
      PartialCloneCellsFirstError(cells[1..], cellClone, k - 1);
    }
  }

  /** A failing `Row::partial_clone` returns the error of the first failing cell. */
  lemma PartialCloneFirstError(row: Row, cellClone: Cell -> Result<Cell>, k: nat)
    requires FirstCloneFailure(row.cells, cellClone, k)
    ensures PartialClone(row, cellClone) == Err(cellClone(row.cells[k]).error)
  {
    PartialCloneCellsFirstError(row.cells, cellClone, k);
  }

  /** The hasher state after feeding `cells`, in order, starting from `state`. */
  function HashCells<S>(cellHash: (S, Cell) -> S, state: S, cells: seq<Cell>): S
    decreases |cells|
  {
    if cells == [] then state else HashCells(cellHash, cellHash(state, cells[0]), cells[1..])
  }

  /** Feeding `a + b` is feeding `a`, then `b`. */
  lemma {:induction false} HashCellsAppend<S>(cellHash: (S, Cell) -> S, state: S, a: seq<Cell>, b: seq<Cell>)
    ensures HashCells(cellHash, state, a + b) == HashCells(cellHash, HashCells(cellHash, state, a), b)
  {
    if a == [] {
      assert a + b == b;
    } else {
      assert (a + b)[0] == a[0];
      assert (a + b)[1..] == a[1..] + b;
      HashCellsAppend(cellHash, cellHash(state, a[0]), a[1..], b);
    }
  }

  /** Hashing the row made of both rows' cells is hashing the first row and
      then the second; hashing an empty row changes nothing. */
  lemma HashRowConcat<S>(cellHash: (S, Cell) -> S, state: S, first: Row, second: Row)
    ensures HashCells(cellHash, state, Row(first.cells + second.cells).cells) ==
      HashCells(cellHash, HashCells(cellHash, state, first.cells), second.cells)
    ensures HashCells(cellHash, state, Row([]).cells) == state
  {
    HashCellsAppend(cellHash, state, first.cells, second.cells);
  }

  /** A hasher that only records what it is fed. */
  function Record(fed: seq<Cell>, c: Cell): seq<Cell>
  {
    fed + [c]
  }

  /** Row hashing feeds every cell exactly once, in column order, and nothing
      else: a recording hasher ends up holding exactly the row's cells. */
  lemma {:induction false} HashFeedsEachCellOnce(fed: seq<Cell>, cells: seq<Cell>)
    ensures HashCells(Record, fed, cells) == fed + cells
    decreases |cells|
  {
    if cells != [] {
      HashFeedsEachCellOnce(Record(fed, cells[0]), cells[1..]);
      assert fed + [cells[0]] + cells[1..] == fed + cells;
    }
  }

  /** A hasher: mutable state that cells are hashed into. */
  class Hasher<S> {
    var state: S

    constructor (initial: S)
      ensures state == initial
    {
      state := initial;
    }
  }

  /** `impl Hash for Row`: hashes each cell into `env`, in column order. */
  method HashRow<S>(row: Row, env: Hasher<S>, cellHash: (S, Cell) -> S)
    modifies env
    ensures env.state == HashCells(cellHash, old(env.state), row.cells)
  {
    var i := 0;
    while i < |row.cells|
      invariant 0 <= i <= |row.cells|
      invariant HashCells(cellHash, env.state, row.cells[i..]) == HashCells(cellHash, old(env.state), row.cells)
    {
      assert row.cells[i..][1..] == row.cells[i + 1..];
      env.state := cellHash(env.state, row.cells[i]);
      i := i + 1;
    }
  }
}
