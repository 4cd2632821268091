/** The two ends of a row stream as seen by one stage. Blocking, buffering
    and end-of-stream on a dropped producer are not modelled: an input is the
    finite sequence of rows still to be received, and an output records what
    was sent and whether its receiver is still there. */
module Streams {
  import opened Data

  /** The sending end of a stream. */
  class OutputStream {
    /** Rows accepted so far, in send order. */
    var sent: seq<Row>
    /** Whether the receiving end still exists; sending fails once it is gone. */
    const open: bool

    constructor (open: bool)
      ensures sent == [] && this.open == open
    {
      sent := [];
      this.open := open;
    }

    /** `send`: appends the row, or fails when the receiver is gone. */
    method Send(row: Row) returns (r: Result<Unit>)
      modifies this
      ensures r == if open then Ok(Unit) else Err(SendError)
      ensures sent == if open then old(sent) + [row] else old(sent)
    {
      if open {
        sent := sent + [row];
        r := Ok(Unit);
      } else {
        r := Err(SendError);
      }
    }
  }

  /** The receiving end of a stream. */
  class InputStream {
    /** Rows not yet received, in send order. */
    var pending: seq<Row>

    constructor (rows: seq<Row>)
      ensures pending == rows
    {
      pending := rows;
    }

    /** `recv`: the next row, or `None` once the stream is exhausted. */
    method Recv() returns (r: Option<Row>)
      modifies this
      ensures old(pending) == [] ==> r == None && pending == []
      ensures old(pending) != [] ==> r == Some(old(pending)[0]) && pending == old(pending)[1..]
    {
      if pending == [] {
        r := None;
      } else {
        r := Some(pending[0]);
        pending := pending[1..];
      }
    }
  }
}
