/**
  * The asynchronous reads: coroutines that ask an executor for one thing at a time and are resumed
  * when it is done.
  */
module ReadOperations {
  import opened ResultSets

  /** What a resumed coroutine asks for before it returns: a read, to be posted, or its handler to be called. */
  datatype Request = StartRead | Post | CallHandler(err: int, rows: seq<Row>)

  /** Where the coroutine goes on when it is resumed. */
  datatype Point = AtStart | AfterRead | AfterPost | Finished

  /** `read_many_op` with its shared `impl_struct`. */
  class ReadManyOp {
    const parent: ResultSet
    var rows: seq<Row>
    var currentRow: Row
    var remaining: nat
    var cont: bool
    var at: Point

    constructor (parent: ResultSet, count: nat)
      ensures this.parent == parent && rows == [] && remaining == count && !cont && at == AtStart
    {
      this.parent := parent;
      rows, currentRow, remaining, cont, at := [], Row([]), count, false, AtStart;
    }

    /** A read is only under way when one was due; before the first one nothing was read. */
    predicate Valid()
      reads this, parent
    {
      && (at == AtStart ==> !cont && rows == [])
      && (at == AfterRead ==> cont && remaining > 0 && !parent.eofReceived)
      && (at == AfterPost ==> !cont)
    }

    /** All that will have been delivered in the end, if the coroutine is resumed now with these arguments. */
    ghost function Owed(err: int, result: RowResult): Outcome
      reads this, parent
      requires Valid() && at != Finished
    {
      match at
      case AtStart => parent.Coming(remaining)
      case AfterPost => parent.State().(rows := rows, err := err)
      case AfterRead =>
        match result
        case ErrorRead => parent.State().(rows := rows, err := err)
        case EofRead => parent.State().(rows := rows, eof := true)
        case RowRead => Prepend(rows + [currentRow], parent.Coming(remaining - 1))
    }

    /** All that will have been delivered in the end, if the read asked for is done now. */
    ghost function Promised(): Outcome
      reads this, parent
      requires Valid() && at == AfterRead
    {
      Prepend(rows, parent.Coming(remaining))
    }

    method RowReceived()
      requires remaining > 0
      modifies this`rows, this`currentRow, this`remaining
      ensures rows == old(rows) + [old(currentRow)] && remaining == old(remaining) - 1
    {
      rows := rows + [currentRow];
      currentRow := Row([]);
      remaining := remaining - 1;
    }

    /**
      * Each resumption keeps what is owed: it is delivered now, or promised for after a read, or
      * delivered after being posted. The handler is never called before the first suspension.
      */
    method Resume(err: int, result: RowResult) returns (request: Request)
      requires Valid() && at != Finished
      requires result != ErrorRead || at == AtStart ==> err == 0
      requires at == AfterPost ==> err == 0
      modifies this, parent`eofReceived
      ensures Valid() && (request.StartRead? ==> !parent.eofReceived)
      ensures (request.StartRead? <==> at == AfterRead) && (request.Post? <==> at == AfterPost)
      ensures request.CallHandler? <==> at == Finished
      ensures request.CallHandler? ==>
                && old(at) != AtStart
                && parent.State().(rows := request.rows, err := request.err) == old(Owed(err, result))
      ensures old(at) == AtStart ==> (request.Post? <==> old(parent.eofReceived || remaining == 0))
      ensures old(at) == AfterPost ==> request.CallHandler?
      ensures request.Post? ==>
                old(at) == AtStart && forall r :: Owed(err, r) == old(Owed(err, result))
      ensures request.StartRead? ==>
                && Promised() == old(Owed(err, result))
                && remaining == old(remaining) - (if old(at) == AtStart then 0 else 1)
    {
      ghost var owed := Owed(err, result);
      if at == AfterPost {
        request := CallHandler(err, rows);
        rows, at := [], Finished;
        return;
      }
      if at == AfterRead {
        if result == ErrorRead {
          request := CallHandler(err, rows);
          rows, at := [], Finished;
          return;
        } else if result == EofRead {
          parent.eofReceived := true;
        } else {
          RowReceived();
        }
      }
      assert Prepend(rows, parent.Coming(remaining)) == owed by {
        PrependNothing(parent.Coming(remaining));
      }
      if !parent.Complete() && remaining > 0 {
        cont := true;
        at := AfterRead;
        return StartRead;
      }
      if !cont {
        at := AfterPost;
        return Post;
      }
      request := CallHandler(err, rows);
      rows, at := [], Finished;
    }
  }

  /** Asking for `n` reads, one after the other. */
  function Starts(n: nat): seq<Request> {
    if n == 0 then [] else Starts(n - 1) + [StartRead]
  }

  /** The coroutine has asked for `request`, and whatever is done about it, `whole` is delivered in the end. */
  ghost predicate OnCourse(rs: ResultSet, op: ReadManyOp, request: Request, err: int, whole: Outcome)
    reads rs, op
  {
    && op.parent == rs && op.Valid()
    && match request
       case StartRead => op.at == AfterRead && op.Promised() == whole
       case Post => op.at == AfterPost && err == 0 && forall r :: op.Owed(0, r) == whole
       case CallHandler(e, rows) => op.at == Finished && rs.State().(rows := rows, err := e) == whole
  }

  /** Does what was asked for, and resumes the coroutine. */
  method Serve(rs: ResultSet, op: ReadManyOp, request: Request, err: int, ghost whole: Outcome)
    returns (request': Request, err': int)
    requires OnCourse(rs, op, request, err, whole) && !request.CallHandler?
    modifies rs, op
    ensures OnCourse(rs, op, request', err', whole) && !request'.Post?
    ensures request.Post? ==> request'.CallHandler?
    ensures request.StartRead? && request'.StartRead? ==> op.remaining == old(op.remaining) - 1
    ensures rs.position == old(rs.position) + if request.StartRead? then 1 else 0
  {
    var result;
    err' := err;
    if request.StartRead? {
      result, op.currentRow, err' := rs.ReadRow();
      RowPromised(op.rows, op.currentRow, op.remaining, old(rs.position), rs.script);
    } else {
      result := EofRead;
    }
    request' := op.Resume(err', result);
  }

  lemma RowPromised(rows: seq<Row>, row: Row, count: nat, position: nat, script: nat -> Reply)
    requires count > 0
    ensures script(position) == Got(row) ==>
              Prepend(rows, Reading(script, position, false, count))
              == Prepend(rows + [row], Reading(script, position + 1, false, count - 1))
    ensures !script(position).Got? ==>
              Prepend(rows, Reading(script, position, false, count))
              == Reading(script, position, false, count).(rows := rows)
  {
    PrependTwice(rows, [row], Reading(script, position + 1, false, count - 1));
    assert rows + [] == rows;
  }

  /**
    * The executor's part, until the handler is called. The handler gets what the synchronous
    * `ReadMany` returns and the resultset is left the same. It is called once, as the last thing,
    * and never inside the initiating call: before it come all the reads, or a post when there is
    * nothing to read. No read is started after the end of the rows.
    */
  method AsyncReadMany(rs: ResultSet, count: nat) returns (rows: seq<Row>, err: int, requests: seq<Request>)
    modifies rs
    ensures Outcome(rows, err, rs.eofReceived, rs.position) == old(rs.Coming(count))
    ensures old(rs.eofReceived) || count == 0 ==> requests == [Post, CallHandler(err, rows)]
    ensures !old(rs.eofReceived) && count > 0 ==>
              && rs.position > old(rs.position)
              && requests == Starts(rs.position - old(rs.position)) + [CallHandler(err, rows)]
  {
    ghost var whole := rs.Coming(count);
    ghost var nothing := rs.eofReceived || count == 0;
    var op := new ReadManyOp(rs, count);
    var request := op.Resume(0, ErrorRead);
    requests, err := [], 0;
    while !request.CallHandler?
      invariant fresh(op) && OnCourse(rs, op, request, err, whole)
      invariant nothing ==> !request.StartRead? && requests == if request.Post? then [] else [Post]
      invariant !nothing ==>
                  && !request.Post? && rs.position >= old(rs.position)
                  && (request.CallHandler? ==> rs.position > old(rs.position))
                  && requests == Starts(rs.position - old(rs.position))
      decreases if request.CallHandler? then 0 else if request.Post? then 1 else 2 + op.remaining
    {
      requests := requests + [request];
      request, err := Serve(rs, op, request, err, whole);
    }
    requests := requests + [request];
    rows, err := request.rows, request.err;
  }

  method AsyncReadAll(rs: ResultSet) returns (rows: seq<Row>, err: int, requests: seq<Request>)
    modifies rs
    ensures Outcome(rows, err, rs.eofReceived, rs.position) == old(rs.Coming(SIZE_MAX))
    ensures forall all | !old(rs.eofReceived) && Holds(rs.script, old(rs.position), all) ::
              rows == all && err == 0 && rs.eofReceived && rs.position == old(rs.position) + |all| + 1
    ensures old(rs.eofReceived) ==> requests == [Post, CallHandler(err, rows)]
    ensures !old(rs.eofReceived) ==>
              && rs.position > old(rs.position)
              && requests == Starts(rs.position - old(rs.position)) + [CallHandler(err, rows)]
  {
    hide Reading, Starts, Holds;
    ReadsAll(rs.script, rs.position, rs.eofReceived);
    rows, err, requests := AsyncReadMany(rs, SIZE_MAX);
  }

  // ---------- One row ----------

  datatype OneRequest = StartOne | PostOne | HandleOne(err: int, more: bool)

  /** `read_one_op`; `output` is the caller's row. */
  class ReadOneOp {
    const parent: ResultSet
    var output: Row
    var at: Point

    constructor (parent: ResultSet, output: Row)
      ensures this.parent == parent && this.output == output && at == AtStart
    {
      this.parent := parent;
      this.output := output;
      at := AtStart;
    }

    method Resume(err: int, result: RowResult) returns (request: OneRequest)
      requires at != Finished && (at == AfterRead ==> !parent.eofReceived)
      modifies this, parent`eofReceived
      ensures old(at) == AtStart ==>
                && parent.eofReceived == old(parent.eofReceived) && output == old(output)
                && (if parent.eofReceived then request == PostOne && at == AfterPost
                    else request == StartOne && at == AfterRead)
      ensures old(at) == AfterPost ==>
                && request == HandleOne(0, false) && at == Finished
                && output == Row([]) && parent.eofReceived == old(parent.eofReceived)
      ensures old(at) == AfterRead ==>
                && request == HandleOne(err, result == RowRead) && at == Finished
                && output == old(output) && parent.eofReceived == (result == EofRead)
    {
      match at
      case AtStart =>
        if parent.Complete() {
          at := AfterPost;
          return PostOne;
        }
        at := AfterRead;
        return StartOne;
      case AfterPost =>
        output := Row([]);
        at := Finished;
        return HandleOne(0, false);
      case AfterRead =>
        parent.eofReceived := result == EofRead;
        at := Finished;
        return HandleOne(err, result == RowRead);
    }
  }

  /** The handler gets what the synchronous `ReadOne` returns, always after one suspension. */
  method AsyncReadOne(rs: ResultSet, row: Row)
    returns (more: bool, output: Row, err: int, requests: seq<OneRequest>)
    modifies rs
    ensures Outcome(if more then [output] else [], err, rs.eofReceived, rs.position) == old(rs.Coming(1))
    ensures !more && err == 0 ==> output == Row([]) && rs.eofReceived
    ensures requests == [if old(rs.eofReceived) then PostOne else StartOne, HandleOne(err, more)]
  {
    assert Reading(rs.script, rs.position + 1, false, 0).rows == [];
    var op := new ReadOneOp(rs, row);
    var request := op.Resume(0, ErrorRead);
    requests := [request];
    var result := ErrorRead;
    err := 0;
    if request == StartOne {
      result, op.output, err := rs.ReadRow();
    }
    request := op.Resume(err, result);
    requests := requests + [request];
    err, more, output := request.err, request.more, op.output;
  }
}
