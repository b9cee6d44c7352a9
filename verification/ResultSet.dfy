/**
  * Reading the rows of a resultset, synchronously and as coroutines that an executor resumes. What
  * `read_row` finds in the stream is given by a script of replies.
  */
module ResultSets {

  datatype Row = Row(values: seq<string>)

  /** An error_code that is not success, which is 0. */
  type Failure = c: int | c != 0 witness 1

  /** What one `read_row` finds. After a failure the output row is whatever it left there. */
  datatype Reply = Got(row: Row) | Ended | Failed(code: Failure, leftover: Row)

  /** read_row_result. */
  datatype RowResult = RowRead | EofRead | ErrorRead

  /** The rows a read delivers, its error code, and the resultset afterwards. */
  datatype Outcome = Outcome(rows: seq<Row>, err: int, eof: bool, position: nat)

  // ---------- What reading up to `count` rows means ----------

  function Reading(script: nat -> Reply, position: nat, eof: bool, count: nat): Outcome
    decreases count
  {
    if eof || count == 0 then Outcome([], 0, eof, position)
    else match script(position)
      case Got(row) => Prepend([row], Reading(script, position + 1, false, count - 1))
      case Ended => Outcome([], 0, true, position + 1)
      case Failed(code, _) => Outcome([], code, false, position + 1)
  }

  function Prepend(rows: seq<Row>, o: Outcome): Outcome {
    o.(rows := rows + o.rows)
  }

  lemma PrependTwice(a: seq<Row>, b: seq<Row>, o: Outcome)
    ensures Prepend(a, Prepend(b, o)) == Prepend(a + b, o)
  {
    assert a + (b + o.rows) == a + b + o.rows;
  }

  lemma PrependNothing(o: Outcome)
    ensures Prepend([], o) == o
  {
    assert [] + o.rows == o.rows;
  }

  /** The replies from `position` up to the next one that is no row, or up to `count` of them, are rows. */
  predicate RowsAt(script: nat -> Reply, position: nat, rows: seq<Row>) {
    forall i | 0 <= i < |rows| :: script(position + i) == Got(rows[i])
  }

  /**
    * The rows delivered are those next in the stream. Fewer than asked for come only at the end of
    * the stream or at a failure, and only that reply is consumed beyond them.
    */
  lemma {:induction false} ReadingDelivers(script: nat -> Reply, position: nat, eof: bool, count: nat)
    ensures var o := Reading(script, position, eof, count);
            var next := position + |o.rows|;
            && RowsAt(script, position, o.rows) && |o.rows| <= count
            && (eof ==> o == Outcome([], 0, true, position))
            && (!eof && |o.rows| == count ==> o.err == 0 && !o.eof && o.position == next)
            && (!eof && |o.rows| < count ==>
                  && o.position == next + 1
                  && (script(next) == Ended || script(next).Failed?)
                  && o.eof == (script(next) == Ended)
                  && o.err == if script(next).Failed? then script(next).code else 0)
    decreases count
  {
    if !eof && count > 0 && script(position).Got? {
      ReadingDelivers(script, position + 1, false, count - 1);
      var o := Reading(script, position + 1, false, count - 1);
      var rows := [script(position).row] + o.rows;
      forall i | 0 <= i < |rows| ensures script(position + i) == Got(rows[i]) {
        if i > 0 {
          assert script(position + 1 + (i - 1)) == Got(o.rows[i - 1]);
        }
      }
    }
  }

  /** There is one such result only: the properties of ReadingDelivers determine it. */
  lemma {:induction false} RowsDetermine(script: nat -> Reply, position: nat, count: nat, rows: seq<Row>)
    requires RowsAt(script, position, rows) && |rows| <= count
    requires |rows| < count ==> !script(position + |rows|).Got?
    ensures Reading(script, position, false, count).rows == rows
    decreases count
  {
    if count > 0 && rows != [] {
      assert script(position + 0) == Got(rows[0]);
      forall i | 0 <= i < |rows| - 1 ensures script(position + 1 + i) == Got(rows[1..][i]) {
        assert script(position + (i + 1)) == Got(rows[i + 1]);
      }
      RowsDetermine(script, position + 1, count - 1, rows[1..]);
    }
  }

  /** Unless the first read fails, reading `a` and then `b` rows is reading `a + b`. */
  lemma {:induction false} ReadingSplits(script: nat -> Reply, position: nat, eof: bool, a: nat, b: nat)
    ensures var first := Reading(script, position, eof, a);
            Reading(script, position, eof, a + b) ==
            if first.err != 0 then first
            else Prepend(first.rows, Reading(script, first.position, first.eof, b))
    decreases a
  {
    if eof || a == 0 {
      PrependNothing(Reading(script, position, eof, b));
    } else if script(position).Got? {
      var row := [script(position).row];
      var first := Reading(script, position + 1, false, a - 1);
      ReadingSplits(script, position + 1, false, a - 1, b);
      PrependTwice(row, first.rows, Reading(script, first.position, first.eof, b));
    } else {
      PrependNothing(Reading(script, position + 1, true, b));
    }
  }

  /** A client's reads one after the other, stopping at the first that fails. */
  function Batches(script: nat -> Reply, position: nat, eof: bool, counts: seq<nat>): Outcome
    decreases |counts|
  {
    if counts == [] then Outcome([], 0, eof, position)
    else
      var first := Reading(script, position, eof, counts[0]);
      if first.err != 0 then first
      else Prepend(first.rows, Batches(script, first.position, first.eof, counts[1..]))
  }

  function Sum(counts: seq<nat>): nat {
    if counts == [] then 0 else counts[0] + Sum(counts[1..])
  }

  /** However a client cuts its reads into batches, it gets the same rows, error and end. */
  lemma {:induction false} BatchingIsIrrelevant(script: nat -> Reply, position: nat, eof: bool, counts: seq<nat>)
    ensures Batches(script, position, eof, counts) == Reading(script, position, eof, Sum(counts))
    decreases |counts|
  {
    if counts != [] {
      var first := Reading(script, position, eof, counts[0]);
      ReadingSplits(script, position, eof, counts[0], Sum(counts[1..]));
      BatchingIsIrrelevant(script, first.position, first.eof, counts[1..]);
    }
  }

  /** Reading more than the stream holds delivers all of it. */
  lemma ReadsWholeStream(script: nat -> Reply, position: nat, rows: seq<Row>, count: nat)
    requires RowsAt(script, position, rows) && script(position + |rows|) == Ended && |rows| < count
    ensures Reading(script, position, false, count) == Outcome(rows, 0, true, position + |rows| + 1)
  {
    RowsDetermine(script, position, count, rows);
    ReadingDelivers(script, position, false, count);
  }

  // ---------- The synchronous functions ----------

  /** numeric_limits<size_t>::max() for 64 bits. */
  const SIZE_MAX: nat := 0xFFFF_FFFF_FFFF_FFFF

  /** The stream goes on with just these rows and its end, and they are fewer than 2^64 - 1. */
  predicate Holds(script: nat -> Reply, position: nat, rows: seq<Row>) {
    |rows| < 18446744073709551615 && RowsAt(script, position, rows) && script(position + |rows|) == Ended
  }

  lemma ReadsAll(script: nat -> Reply, position: nat, eof: bool)
    ensures forall all | !eof && Holds(script, position, all) ::
              Reading(script, position, eof, SIZE_MAX) == Outcome(all, 0, true, position + |all| + 1)
  {
    forall all | !eof && Holds(script, position, all)
      ensures Reading(script, position, eof, SIZE_MAX) == Outcome(all, 0, true, position + |all| + 1)
    {
      ReadsWholeStream(script, position, all, SIZE_MAX);
    }
  }

  class ResultSet {
    const script: nat -> Reply
    var position: nat
    var eofReceived: bool

    /** A resultset without rows is complete from the start. */
    constructor (script: nat -> Reply, position: nat, complete: bool)
      ensures this.script == script && this.position == position && eofReceived == complete
    {
      this.script := script;
      this.position := position;
      eofReceived := complete;
    }

    predicate Complete()
      reads this
    {
      eofReceived
    }

    function State(): Outcome
      reads this
    {
      Outcome([], 0, eofReceived, position)
    }

    function Coming(count: nat): Outcome
      reads this
    {
      Reading(script, position, eofReceived, count)
    }

    /** `read_row`: reading behind the end is what its precondition rules out for every caller. */
    method ReadRow() returns (result: RowResult, output: Row, err: int)
      requires !eofReceived
      modifies this`position
      ensures position == old(position) + 1
      ensures match script(old(position))
              case Got(row) => result == RowRead && output == row && err == 0
              case Ended => result == EofRead && output == Row([]) && err == 0
              case Failed(code, leftover) => result == ErrorRead && output == leftover && err == code
    {
      match script(position) {
        case Got(row) => result, output, err := RowRead, row, 0;
        case Ended => result, output, err := EofRead, Row([]), 0;
        case Failed(code, leftover) => result, output, err := ErrorRead, leftover, code;
      }
      position := position + 1;
    }

    /** Delivers what reading one row delivers; without a row or an error, the output is cleared. */
    method ReadOne() returns (more: bool, output: Row, err: int)
      modifies this
      ensures Outcome(if more then [output] else [], err, eofReceived, position) == old(Coming(1))
      ensures !more && err == 0 ==> output == Row([]) && eofReceived
    {
      err := 0;
      if Complete() {
        return false, Row([]), err;
      }
      assert Reading(script, position + 1, false, 0).rows == [];
      var result;
      result, output, err := ReadRow();
      eofReceived := result == EofRead;
      more := result == RowRead;
    }

    method ReadMany(count: nat) returns (rows: seq<Row>, err: int)
      modifies this
      ensures Outcome(rows, err, eofReceived, position) == old(Coming(count))
    {
      ghost var whole := Coming(count);
      rows, err := [], 0;
      PrependNothing(whole);
      for i := 0 to count
        invariant err == 0 && Prepend(rows, Coming(count - i)) == whole
      {
        ghost var ahead, before := Coming(count - i), rows;
        ReadingSplits(script, position, eofReceived, 1, count - i - 1);
        ghost var one := Coming(1);
        var more, r;
        more, r, err := ReadOne();
        OneRow(before, one, ahead, Coming(count - i - 1));
        if more {
          rows := rows + [r];
        } else {
          break;
        }
      }
    }

    /** Delivers the whole stream and its end if it has fewer than 2^64 - 1 rows. */
    method ReadAll() returns (rows: seq<Row>, err: int)
      modifies this
      ensures Outcome(rows, err, eofReceived, position) == old(Coming(SIZE_MAX))
      ensures forall all | !old(eofReceived) && Holds(script, old(position), all) ::
                rows == all && err == 0 && eofReceived && position == old(position) + |all| + 1
    {
      ReadsAll(script, position, eofReceived);
      rows, err := ReadMany(SIZE_MAX);
    }
  }

  lemma OneRow(before: seq<Row>, one: Outcome, ahead: Outcome, more: Outcome)
    requires ahead == if one.err != 0 then one else Prepend(one.rows, more)
    ensures one.err == 0 ==> Prepend(before, ahead) == Prepend(before + one.rows, more)
  {
    if one.err == 0 {
      PrependTwice(before, one.rows, more);
    }
  }
}
