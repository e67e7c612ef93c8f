/** Prepared batches: a local queue of encoded rows, flushed to a server batch that is created
    on demand, executed and released. */
module Batch {
  import opened Bytes
  import opened Collections
  import opened ArraySlice
  import opened RowCodec

  const DEFAULT_FLUSH_SIZE := 131072

  type RowBytes = seq<byte>

  // --- the operations on the wire --------------------------------------------

  /** An operation sent to the server, and whether its responses were good. Freeing the
      statement stands for the whole exchange, with the commit behind it under autocommit. */
  datatype WireOp =
    | Create(ok: bool)
    | Message(rows: seq<RowBytes>, ok: bool)
    | Execute(ok: bool, rowErrors: bool)
    | Release(ok: bool)
    | EndTransaction(commit: bool, ok: bool)
    | FreeStatement(ok: bool)

  /** Whether a server batch exists after an operation, given whether one did before. */
  function ExistsAfter(before: bool, op: WireOp): bool {
    match op
    case Create(ok) => ok
    case Release(_) => false
    case _ => before
  }

  function Exists(log: seq<WireOp>): bool {
    if log == [] then false else ExistsAfter(Exists(log[..|log| - 1]), log[|log| - 1])
  }

  /** The operations on a server batch; the others go out when there is none. */
  predicate OnBatch(op: WireOp) {
    op.Message? || op.Execute? || op.Release?
  }

  /** A batch is filled, executed and released only between its creation and its release, and
      created, like the transaction ended and the statement freed, only outside of it. */
  predicate Orderly(log: seq<WireOp>) {
    log == [] ||
    (Orderly(log[..|log| - 1]) && (OnBatch(log[|log| - 1]) <==> Exists(log[..|log| - 1])))
  }

  function RowsIn(op: WireOp): seq<RowBytes> {
    if op.Message? then op.rows else []
  }

  /** The rows handed to the server, in order. */
  function Handed(log: seq<WireOp>): seq<RowBytes> {
    if log == [] then [] else Handed(log[..|log| - 1]) + RowsIn(log[|log| - 1])
  }

  lemma Appended(log: seq<WireOp>, op: WireOp)
    ensures Exists(log + [op]) == ExistsAfter(Exists(log), op)
    ensures Orderly(log + [op]) <==> Orderly(log) && (OnBatch(op) <==> Exists(log))
    ensures Handed(log + [op]) == Handed(log) + RowsIn(op)
  {
    assert (log + [op])[..|log|] == log;
  }

  /** What is known of the server: the rows in its current batch, those executed in the open
      transaction, those committed, and those in doubt, which a failed execution may have stored
      in part. A message that failed is not known to have stored its rows. */
  datatype Server = Server(buffer: seq<RowBytes>, executed: seq<RowBytes>, committed: seq<RowBytes>,
                           doubtful: seq<RowBytes>)

  const NOTHING := Server([], [], [], [])

  predicate Good(op: WireOp) {
    op.ok && (op.Execute? ==> !op.rowErrors) && (op.EndTransaction? ==> op.commit)
  }

  /** A commit makes permanent what was executed; a rollback undoes it, and what is in doubt
      with it. When either fails, what was executed is in doubt too. */
  function Then(before: Server, op: WireOp): Server {
    match op
    case Create(_) => before.(buffer := [])
    case Message(rows, ok) => if ok then before.(buffer := before.buffer + rows) else before
    case Execute(ok, rowErrors) =>
      if ok && !rowErrors then before.(buffer := [], executed := before.executed + before.buffer)
      else before.(buffer := [], doubtful := before.doubtful + before.buffer)
    case Release(_) => before.(buffer := [])
    case EndTransaction(commit, ok) =>
      if !ok then before.(executed := [], doubtful := before.doubtful + before.executed)
      else if commit then before.(executed := [], committed := before.committed + before.executed)
      else before.(executed := [], doubtful := [])
    case FreeStatement(_) => before
  }

  function View(log: seq<WireOp>): Server {
    if log == [] then NOTHING else Then(View(log[..|log| - 1]), log[|log| - 1])
  }

  /** Rows get lost in a message, an execution or a commit that fails, in a rollback, and in a
      release, or a creation, of a batch that still holds some. */
  predicate Loses(before: Server, op: WireOp) {
    match op
    case Create(_) => before.buffer != []
    case Message(rows, ok) => !ok && rows != []
    case Execute(_, _) => !Good(op) && before.buffer != []
    case Release(_) => before.buffer != []
    case EndTransaction(_, _) => !Good(op) && before.executed != []
    case FreeStatement(_) => false
  }

  predicate KeepsAll(log: seq<WireOp>) {
    log == [] || (KeepsAll(log[..|log| - 1]) && !Loses(View(log[..|log| - 1]), log[|log| - 1]))
  }

  function Known(server: Server): seq<RowBytes> {
    server.committed + server.executed + server.buffer
  }

  /** One operation keeps all rows known, and adds its own, exactly when it loses none. */
  lemma ThenKnown(before: Server, op: WireOp)
    ensures !Loses(before, op) ==> Known(Then(before, op)) == Known(before) + RowsIn(op)
    ensures Loses(before, op) ==> |Known(Then(before, op))| < |Known(before) + RowsIn(op)|
  {
    var c, e, b := before.committed, before.executed, before.buffer;
    if op.Message? {
      Regroup(c + e, b, op.rows);
    } else if op.Execute? {
      Regroup(c, e, b);
    }
  }

  /** The rows committed, those executed and those in the server's batch are all that were handed
      over, each once and in order, exactly when no operation lost any; and they are never more. */
  lemma {:induction false} ExecutedOnce(log: seq<WireOp>)
    ensures Known(View(log)) == Handed(log) <==> KeepsAll(log)
    ensures |Known(View(log))| <= |Handed(log)|
    ensures |Known(View(log))| == |Handed(log)| ==> KeepsAll(log)
  {
    if log != [] {
      var front, last := log[..|log| - 1], log[|log| - 1];
      ExecutedOnce(front);
      ThenKnown(View(front), last);
      hide Known, Then, Loses;
    }
  }

  /** Without a server batch none of the rows known is waiting in one. */
  lemma {:induction false} NothingWaits(log: seq<WireOp>)
    requires Orderly(log) && !Exists(log)
    ensures View(log).buffer == []
  {
    if log != [] {
      var front, last := log[..|log| - 1], log[|log| - 1];
      if !OnBatch(last) && !last.Create? {
        NothingWaits(front);
      }
    }
  }

  /** Every exchange was good, and every release follows an execution. */
  predicate Undisturbed(log: seq<WireOp>) {
    log == []
    || var n := |log| - 1;
       Undisturbed(log[..n]) && Good(log[n]) && (log[n].Release? ==> n > 0 && log[n - 1].Execute?)
  }

  lemma BehindExecution(log: seq<WireOp>)
    requires log != [] && log[|log| - 1].Execute?
    ensures View(log).buffer == []
  {
  }

  /** An orderly, undisturbed run loses no row. */
  lemma {:induction false} UndisturbedKeepsAll(log: seq<WireOp>)
    requires Orderly(log) && Undisturbed(log)
    ensures KeepsAll(log)
  {
    if log != [] {
      var front, last := log[..|log| - 1], log[|log| - 1];
      UndisturbedKeepsAll(front);
      if last.Release? {
        BehindExecution(front);
      } else if last.Create? {
        NothingWaits(front);
      }
      hide View;
    }
  }

  /** The rows of the messages that succeeded. */
  function Confirmed(log: seq<WireOp>): seq<RowBytes> {
    if log == [] then []
    else Confirmed(log[..|log| - 1]) + (if log[|log| - 1].ok then RowsIn(log[|log| - 1]) else [])
  }

  predicate NoRowsRefused(log: seq<WireOp>) {
    forall i | 0 <= i < |log| :: log[i].Message? && !log[i].ok ==> log[i].rows == []
  }

  lemma RefusedSnoc(front: seq<WireOp>, last: WireOp)
    ensures NoRowsRefused(front + [last])
            <==> NoRowsRefused(front) && (last.Message? && !last.ok ==> last.rows == [])
  {
    var log := front + [last];
    assert log[|front|] == last;
    assert forall i | 0 <= i < |front| :: log[i] == front[i];
  }

  /** All rows handed over are confirmed exactly when no message with rows failed. */
  lemma {:induction false} ConfirmedAll(log: seq<WireOp>)
    ensures Confirmed(log) == Handed(log) <==> NoRowsRefused(log)
    ensures |Confirmed(log)| <= |Handed(log)|
    ensures |Confirmed(log)| == |Handed(log)| ==> NoRowsRefused(log)
  {
    if log != [] {
      var front, last := log[..|log| - 1], log[|log| - 1];
      ConfirmedAll(front);
      RefusedSnoc(front, last);
      assert log == front + [last];
      hide NoRowsRefused;
    }
  }

  // --- sizes --------------------------------------------------------------------

  function Size(rows: seq<RowBytes>): nat {
    if rows == [] then 0 else Size(rows[..|rows| - 1]) + |rows[|rows| - 1]|
  }

  lemma SizeSnoc(rows: seq<RowBytes>, row: RowBytes)
    ensures Size(rows + [row]) == Size(rows) + |row|
  {
    assert (rows + [row])[..|rows|] == rows;
  }

  lemma {:induction false} SizeZero(rows: seq<RowBytes>)
    requires forall i | 0 <= i < |rows| :: |rows[i]| > 0
    ensures Size(rows) == 0 <==> rows == []
  {
    if rows != [] {
      assert |rows[|rows| - 1]| > 0;
    }
  }

  // --- the state of a batch -----------------------------------------------------

  /** The fields of a batch, whether its statement is open, and three ghosts: every operation
      sent so far, the length of that log at the last reset, and the rows accepted since. */
  datatype State = State(created: bool, closed: bool, stmtOpen: bool, rows: seq<RowBytes>, pending: nat,
                         log: seq<WireOp>, reset: nat, accepted: seq<RowBytes>)

  const BLANK := State(false, false, true, [], 0, [], 0, [])

  /** What has gone out since the last reset. */
  function Since(s: State): seq<WireOp>
    requires s.reset <= |s.log|
  {
    s.log[s.reset..]
  }

  /** Operations go out in order, also counted from the last reset, when there was no server
      batch. */
  predicate InOrder(s: State) {
    && s.reset <= |s.log|
    && Orderly(s.log) && (s.created <==> Exists(s.log))
    && Orderly(Since(s)) && (s.created <==> Exists(Since(s)))
  }

  /** The rows handed over since the last reset and those queued are the accepted ones, in
      order and without repeats; the pending bytes are exactly those queued, and within the
      limit unless a single row is queued. */
  ghost predicate Consistent(limit: int, s: State) {
    && InOrder(s)
    && (s.closed ==> !s.created && s.rows == [] && !s.stmtOpen)
    && Handed(Since(s)) + s.rows == s.accepted
    && s.pending == Size(s.rows)
    && (forall i | 0 <= i < |s.rows| :: |s.rows[i]| > 0)
    && (limit > 0 && |s.rows| > 1 ==> s.pending <= limit)
  }

  lemma BlankIsConsistent(limit: int)
    ensures Consistent(limit, BLANK)
  {
  }

  /** A queue without bytes is empty; nothing is queued, created or open once closed. */
  lemma Facts(limit: int, s: State)
    requires Consistent(limit, s)
    ensures s.pending == 0 <==> s.rows == []
    ensures s.closed ==> !s.created && s.rows == [] && !s.stmtOpen
    ensures s.reset <= |s.log|
    ensures s.rows == [] ==> s.accepted == Handed(Since(s))
  {
    SizeZero(s.rows);
  }

  function Queued(s: State, row: RowBytes): State {
    s.(rows := s.rows + [row], pending := s.pending + |row|, accepted := s.accepted + [row])
  }

  /** Queueing a row that fits, or a row on its own. */
  lemma Queues(limit: int, s: State, row: RowBytes)
    requires Consistent(limit, s) && !s.closed && |row| > 0
    requires s.rows == [] || limit <= 0 || s.pending + |row| <= limit
    ensures Consistent(limit, Queued(s, row))
  {
    SizeSnoc(s.rows, row);
    hide Size, Orderly, Exists, Handed;
    Regroup(Handed(Since(s)), s.rows, [row]);
  }

  /** One operation more in the log. */
  lemma OneMore(s: State, op: WireOp, t: State)
    requires InOrder(s) && (OnBatch(op) <==> s.created)
    requires t.log == s.log + [op] && t.reset == s.reset && t.created == ExistsAfter(s.created, op)
    ensures InOrder(t) && Handed(Since(t)) == Handed(Since(s)) + RowsIn(op)
  {
    hide Orderly, Exists, Handed;
    Appended(s.log, op);
    Appended(Since(s), op);
    assert Since(t) == Since(s) + [op];
  }

  function Handing(s: State, ok: bool): State {
    s.(rows := [], pending := 0, log := s.log + [Message(s.rows, ok)])
  }

  /** Sending the queue. */
  lemma Flushes(limit: int, s: State, ok: bool)
    requires Consistent(limit, s) && s.created
    ensures Consistent(limit, Handing(s, ok))
  {
    assert Size([]) == 0;
    hide Size, InOrder, Handed;
    OneMore(s, Message(s.rows, ok), Handing(s, ok));
    assert s.accepted + [] == s.accepted;
  }

  function Sent(s: State, op: WireOp): State {
    s.(created := ExistsAfter(s.created, op), log := s.log + [op])
  }

  /** Any other operation leaves the queue alone. */
  lemma Sends(limit: int, s: State, op: WireOp)
    requires Consistent(limit, s) && !op.Message? && (OnBatch(op) <==> s.created) && !(s.closed && op.Create?)
    ensures Consistent(limit, Sent(s, op))
  {
    assert s.reset <= |s.log|;
    hide Size, InOrder, Handed;
    OneMore(s, op, Sent(s, op));
    assert Handed(Since(s)) + [] == Handed(Since(s));
  }

  function Reset(s: State): State {
    s.(rows := [], pending := 0, reset := |s.log|, accepted := [])
  }

  /** Dropping the queue without a server batch starts a new count. */
  lemma Resets(limit: int, s: State)
    requires Consistent(limit, s) && !s.created
    ensures Consistent(limit, Reset(s))
  {
    assert Since(Reset(s)) == [];
    assert Handed([]) == [] && Size([]) == 0 && Orderly([]) && !Exists([]);
    hide Size, InOrder, Handed;
  }

  // --- what each call does ----------------------------------------------------------

  /** How the exchanges of one call go. */
  datatype Fate = Fate(create: bool, message: bool, execute: bool, completion: bool, rowErrors: bool,
                       release: bool, end: bool, free: bool)

  /** Creation is tried only when there is no server batch. */
  function AfterCreate(s: State, f: Fate): State {
    if s.closed || s.created then s else Sent(s, Create(f.create))
  }

  /** The queue goes out as one message and is empty then, even when the message fails. */
  function AfterFlush(s: State, f: Fate): State {
    if s.closed || s.rows == [] then s
    else
      var c := AfterCreate(s, f);
      if c.created then Handing(c, f.message) else c
  }

  predicate FlushGood(s: State, f: Fate) {
    !s.closed && (s.rows == [] || ((s.created || f.create) && f.message))
  }

  predicate Overflows(limit: int, s: State, size: nat) {
    limit > 0 && s.pending > 0 && s.pending + size > limit
  }

  /** A row is queued, behind a flush when it would take the queue past its limit; a failed
      flush refuses it. */
  function AfterQueue(limit: int, s: State, row: RowBytes, f: Fate): State {
    if !Overflows(limit, s, |row|) then Queued(s, row)
    else if FlushGood(s, f) then Queued(AfterFlush(s, f), row)
    else AfterFlush(s, f)
  }

  /** The arguments of a row are checked and encoded first. */
  function AfterAdd(limit: int, s: State, row: Option<RowBytes>, f: Fate): State {
    if s.closed || row == None then s else AfterQueue(limit, s, row.value, f)
  }

  /** Execution and release, unless the request itself could not be sent; under autocommit the
      transaction is rolled back when a row failed and committed otherwise. */
  function AfterRun(s: State, auto: bool, f: Fate): State {
    if !s.created then s
    else if !f.execute then Sent(s, Execute(false, false))
    else
      var r := Sent(Sent(s, Execute(f.completion, f.completion && f.rowErrors)), Release(f.release));
      if f.completion && auto then Sent(r, EndTransaction(!f.rowErrors, f.end)) else r
  }

  datatype Result = Refused | Aborted | Nothing | Executed | RowErrors | CommitFailed

  function AfterExec(s: State, auto: bool, f: Fate): State {
    if FlushGood(s, f) then AfterRun(AfterFlush(s, f), auto, f) else AfterFlush(s, f)
  }

  function AfterRelease(s: State, f: Fate): State {
    if s.created then Sent(s, Release(f.release)) else s
  }

  function AfterCancel(s: State, f: Fate): State {
    if s.closed then s else Reset(AfterRelease(s, f))
  }

  /** The statement is freed once. */
  function AfterFree(s: State, f: Fate): State {
    if s.stmtOpen then Sent(s, FreeStatement(f.free)).(stmtOpen := false) else s
  }

  function AfterClose(s: State, f: Fate): State {
    if s.closed then s else AfterFree(AfterCancel(s, f), f).(closed := true)
  }

  /** Closing the statement releases the server batch before it. */
  function AfterCloseStatement(s: State, f: Fate): State {
    if s.stmtOpen then AfterFree(AfterRelease(s, f), f) else s
  }

  lemma CreateKeeps(limit: int, s: State, f: Fate)
    requires Consistent(limit, s)
    ensures Consistent(limit, AfterCreate(s, f))
  {
    hide Consistent;
    if !s.closed && !s.created {
      Sends(limit, s, Create(f.create));
    }
  }

  lemma FlushKeeps(limit: int, s: State, f: Fate)
    requires Consistent(limit, s)
    ensures Consistent(limit, AfterFlush(s, f))
    ensures FlushGood(s, f) ==> AfterFlush(s, f).rows == [] && !AfterFlush(s, f).closed
    ensures s.closed ==> !FlushGood(s, f) && AfterFlush(s, f) == s
  {
    hide Consistent;
    CreateKeeps(limit, s, f);
    if !s.closed && s.rows != [] && AfterCreate(s, f).created {
      Flushes(limit, AfterCreate(s, f), f.message);
    }
  }

  lemma QueueKeeps(limit: int, s: State, row: RowBytes, f: Fate)
    requires Consistent(limit, s) && !s.closed && |row| > 0
    ensures Consistent(limit, AfterQueue(limit, s, row, f))
  {
    hide Consistent;
    Facts(limit, s);
    FlushKeeps(limit, s, f);
    if !Overflows(limit, s, |row|) {
      Queues(limit, s, row);
    } else if FlushGood(s, f) {
      Queues(limit, AfterFlush(s, f), row);
    }
  }

  lemma RunKeeps(limit: int, s: State, auto: bool, f: Fate)
    requires Consistent(limit, s) && !s.closed
    ensures Consistent(limit, AfterRun(s, auto, f))
  {
    hide Consistent;
    if s.created {
      var executed := Execute(f.execute && f.completion, f.execute && f.completion && f.rowErrors);
      Sends(limit, s, executed);
      if f.execute {
        Sends(limit, Sent(s, executed), Release(f.release));
        var r := Sent(Sent(s, executed), Release(f.release));
        if f.completion && auto {
          Sends(limit, r, EndTransaction(!f.rowErrors, f.end));
        }
      }
    }
  }

  lemma ExecKeeps(limit: int, s: State, auto: bool, f: Fate)
    requires Consistent(limit, s)
    ensures Consistent(limit, AfterExec(s, auto, f))
  {
    hide Consistent;
    FlushKeeps(limit, s, f);
    if FlushGood(s, f) {
      RunKeeps(limit, AfterFlush(s, f), auto, f);
    }
  }

  lemma ReleaseKeeps(limit: int, s: State, f: Fate)
    requires Consistent(limit, s)
    ensures Consistent(limit, AfterRelease(s, f)) && !AfterRelease(s, f).created
  {
    hide Consistent;
    if s.created {
      Sends(limit, s, Release(f.release));
    }
  }

  lemma CancelKeeps(limit: int, s: State, f: Fate)
    requires Consistent(limit, s)
    ensures Consistent(limit, AfterCancel(s, f)) && !AfterCancel(s, f).created && AfterCancel(s, f).rows == []
    ensures AfterCancel(s, f).stmtOpen == s.stmtOpen
  {
    hide Consistent;
    Facts(limit, s);
    ReleaseKeeps(limit, s, f);
    if !s.closed {
      Resets(limit, AfterRelease(s, f));
    }
  }

  lemma FreeKeeps(limit: int, s: State, f: Fate)
    requires Consistent(limit, s) && !s.created
    ensures Consistent(limit, AfterFree(s, f)) && !AfterFree(s, f).created
    ensures s.rows == [] ==> Consistent(limit, AfterFree(s, f).(closed := true))
  {
    if s.stmtOpen {
      Sends(limit, s, FreeStatement(f.free));
    }
    hide Size, InOrder, Handed;
  }

  lemma CloseKeeps(limit: int, s: State, f: Fate)
    requires Consistent(limit, s)
    ensures Consistent(limit, AfterClose(s, f))
  {
    hide Consistent;
    CancelKeeps(limit, s, f);
    FreeKeeps(limit, AfterCancel(s, f), f);
  }

  lemma CloseStatementKeeps(limit: int, s: State, f: Fate)
    requires Consistent(limit, s)
    ensures Consistent(limit, AfterCloseStatement(s, f))
  {
    hide Consistent;
    ReleaseKeeps(limit, s, f);
    FreeKeeps(limit, AfterRelease(s, f), f);
  }

  // --- runs -----------------------------------------------------------------------

  /** A call on a batch; a row is what its arguments encode to, if they do. */
  datatype Call = Add(row: Option<RowBytes>) | Flush | Exec | Cancel | Close | CloseStatement

  function After(limit: int, auto: bool, s: State, call: Call, f: Fate): State {
    match call
    case Add(row) => AfterAdd(limit, s, row, f)
    case Flush => AfterFlush(s, f)
    case Exec => AfterExec(s, auto, f)
    case Cancel => AfterCancel(s, f)
    case Close => AfterClose(s, f)
    case CloseStatement => AfterCloseStatement(s, f)
  }

  /** A run of calls, each with its own fate. */
  function Run(limit: int, auto: bool, s: State, calls: seq<(Call, Fate)>): State
    decreases |calls|
  {
    if calls == [] then s
    else Run(limit, auto, After(limit, auto, s, calls[0].0, calls[0].1), calls[1..])
  }

  predicate RowsNotEmpty(calls: seq<(Call, Fate)>) {
    forall c | c in calls :: c.0.Add? && c.0.row.Some? ==> |c.0.row.value| > 0
  }

  /** Over every run of calls, whatever fails, the state of a batch stays consistent. */
  lemma {:induction false} RunConsistent(limit: int, auto: bool, s: State, calls: seq<(Call, Fate)>)
    requires Consistent(limit, s) && RowsNotEmpty(calls)
    ensures Consistent(limit, Run(limit, auto, s, calls))
    decreases |calls|
  {
    hide Consistent;
    if calls != [] {
      var (call, f) := calls[0];
      assert calls[0] in calls;
      match call {
        case Add(row) =>
          if !s.closed && row.Some? {
            QueueKeeps(limit, s, row.value, f);
          }
        case Flush => FlushKeeps(limit, s, f);
        case Exec => ExecKeeps(limit, s, auto, f);
        case Cancel => CancelKeeps(limit, s, f);
        case Close => CloseKeeps(limit, s, f);
        case CloseStatement => CloseStatementKeeps(limit, s, f);
      }
      RunConsistent(limit, auto, After(limit, auto, s, call, f), calls[1..]);
    }
  }

  /** Once a batch is closed no sequence of calls sends anything or changes its state. */
  lemma {:induction false} ClosedForEver(limit: int, auto: bool, s: State, f: Fate, calls: seq<(Call, Fate)>)
    requires Consistent(limit, s)
    ensures var closed := AfterClose(s, f); Run(limit, auto, closed, calls) == closed
    decreases |calls|
  {
    var closed := AfterClose(s, f);
    CloseKeeps(limit, s, f);
    Facts(limit, closed);
    hide Consistent, Handed, AfterClose;
    ClosedStays(limit, auto, closed, calls);
  }

  lemma {:induction false} ClosedStays(limit: int, auto: bool, s: State, calls: seq<(Call, Fate)>)
    requires s.closed && !s.stmtOpen
    ensures Run(limit, auto, s, calls) == s
    decreases |calls|
  {
    if calls != [] {
      ClosedStays(limit, auto, s, calls[1..]);
    }
  }

  lemma CancelTail<T>(a: seq<T>, b: seq<T>, tail: seq<T>)
    ensures a + tail == b + tail <==> a == b
  {
    if a + tail == b + tail {
      assert |a| == |b|;
      assert (a + tail)[..|a|] == a && (b + tail)[..|b|] == b;
    }
  }

  /** In every consistent state the rows committed, those executed, those in the server's batch and those queued
      are the accepted ones, in order and without repeats, exactly when no operation since the
      last reset lost a row; without a server batch every one of them is executed or queued. */
  lemma Conservation(limit: int, s: State)
    requires Consistent(limit, s)
    ensures Known(View(Since(s))) + s.rows == s.accepted <==> KeepsAll(Since(s))
    ensures !s.created ==> View(Since(s)).buffer == []
  {
    ExecutedOnce(Since(s));
    CancelTail(Known(View(Since(s))), Handed(Since(s)), s.rows);
    if !s.created {
      NothingWaits(Since(s));
    }
  }

  /** The rows of good messages and those queued are the accepted ones exactly when no message
      with rows failed since the last reset. */
  lemma ConfirmedOrQueued(limit: int, s: State)
    requires Consistent(limit, s)
    ensures Confirmed(Since(s)) + s.rows == s.accepted <==> NoRowsRefused(Since(s))
  {
    ConfirmedAll(Since(s));
    CancelTail(Confirmed(Since(s)), Handed(Since(s)), s.rows);
  }

  // --- the end of a transaction ---------------------------------------------------

  /** How an execution ends for the caller. */
  function ExecResult(s: State, auto: bool, f: Fate): Result {
    if s.closed then Refused
    else if !FlushGood(s, f) then Aborted
    else if !AfterFlush(s, f).created then Nothing
    else if !f.execute || !f.completion then Aborted
    else if auto && !f.rowErrors && !f.end then CommitFailed
    else if f.rowErrors then RowErrors
    else Executed
  }

  function RowsBefore(s: State): seq<RowBytes>
    requires s.reset <= |s.log|
  {
    View(Since(s)).buffer + s.rows
  }

  lemma SentView(s: State, op: WireOp)
    requires s.reset <= |s.log|
    ensures Since(Sent(s, op)) == Since(s) + [op] && View(Since(Sent(s, op))) == Then(View(Since(s)), op)
  {
    ViewSnoc(Since(s), op);
    hide View, Confirmed, Then;
  }

  lemma HandingView(s: State, ok: bool)
    requires s.reset <= |s.log|
    ensures Since(Handing(s, ok)) == Since(s) + [Message(s.rows, ok)]
    ensures View(Since(Handing(s, ok))) == Then(View(Since(s)), Message(s.rows, ok))
  {
    ViewSnoc(Since(s), Message(s.rows, ok));
    hide View, Confirmed, Then;
  }

  /** A good flush only moves the queue into the server's batch. */
  lemma FlushedView(limit: int, s: State, f: Fate)
    requires Consistent(limit, s) && FlushGood(s, f)
    ensures var t := AfterFlush(s, f);
            && t.reset == s.reset <= |t.log| && t.rows == []
            && View(Since(t)) == View(Since(s)).(buffer := RowsBefore(s))
  {
    hide View, Consistent, Since;
    Facts(limit, s);
    if s.rows == [] {
      assert View(Since(s)).buffer + [] == View(Since(s)).buffer;
    } else if s.created {
      HandingView(s, true);
    } else {
      SentView(s, Create(true));
      HandingView(Sent(s, Create(true)), true);
      BufferEmpty(limit, s);
    }
  }

  lemma BufferEmpty(limit: int, s: State)
    requires Consistent(limit, s) && !s.created
    ensures s.reset <= |s.log| && View(Since(s)).buffer == []
  {
    NothingWaits(Since(s));
  }

  /** What Exec does to the rows of the server. Under autocommit an execution that returns
      normally commits everything executed, and one with failed rows undoes it all; without
      autocommit neither happens. */
  lemma ExecEnds(limit: int, s: State, auto: bool, f: Fate)
    requires Consistent(limit, s)
    ensures s.reset == AfterExec(s, auto, f).reset <= |s.log| && s.reset <= |AfterExec(s, auto, f).log|
    ensures var t, r := AfterExec(s, auto, f), ExecResult(s, auto, f);
            var v, w := View(Since(s)), View(Since(t));
            && (r == Executed && auto ==> w == Server([], [], v.committed + (v.executed + RowsBefore(s)), v.doubtful))
            && (r == Executed && !auto ==> w == Server([], v.executed + RowsBefore(s), v.committed, v.doubtful))
            && (r == RowErrors && auto && f.end ==> w == Server([], [], v.committed, []))
            && (r == RowErrors && auto && !f.end ==>
                  w == Server([], [], v.committed, (v.doubtful + RowsBefore(s)) + v.executed))
            && (r == RowErrors && !auto ==> w == Server([], v.executed, v.committed, v.doubtful + RowsBefore(s)))
            && (r == CommitFailed ==> w == Server([], [], v.committed, v.doubtful + (v.executed + RowsBefore(s))))
            && (r == Aborted ==> w.committed == v.committed && w.executed == v.executed)
            && (r == Nothing || r == Refused ==> t == s)
  {
    hide View, RowsBefore, Consistent;
    Facts(limit, s);
    if FlushGood(s, f) {
      FlushedView(limit, s, f);
      if AfterFlush(s, f).created {
        RunView(AfterFlush(s, f), auto, f);
      } else {
        NothingSent(s, f);
      }
    } else if !s.closed {
      FlushFails(limit, s, f);
    }
  }

  lemma NothingSent(s: State, f: Fate)
    requires FlushGood(s, f) && !AfterFlush(s, f).created
    ensures AfterFlush(s, f) == s
  {
  }

  lemma FlushFails(limit: int, s: State, f: Fate)
    requires Consistent(limit, s) && !s.closed && !FlushGood(s, f)
    ensures var t := AfterFlush(s, f);
            && t.reset == s.reset <= |s.log| && s.reset <= |t.log|
            && View(Since(t)).committed == View(Since(s)).committed
            && View(Since(t)).executed == View(Since(s)).executed
  {
    hide View, Consistent, Since;
    Facts(limit, s);
    SentView(s, Create(f.create));
    HandingView(AfterCreate(s, f), f.message);
  }

  lemma RunView(s: State, auto: bool, f: Fate)
    requires s.reset <= |s.log| && s.created
    ensures var t := AfterRun(s, auto, f);
            var v, w := View(Since(s)), View(Since(t));
            && t.reset == s.reset <= |t.log|
            && (!f.execute ==> w == v.(buffer := [], doubtful := v.doubtful + v.buffer))
            && (f.execute && !f.completion ==> w == v.(buffer := [], doubtful := v.doubtful + v.buffer))
            && (f.execute && f.completion ==>
                  var e := if f.rowErrors then v.(buffer := [], doubtful := v.doubtful + v.buffer)
                           else v.(buffer := [], executed := v.executed + v.buffer);
                  w == if !auto then e
                       else if !f.end then e.(executed := [], doubtful := e.doubtful + e.executed)
                       else if f.rowErrors then e.(executed := [], doubtful := [])
                       else e.(executed := [], committed := e.committed + e.executed))
  {
    hide View;
    if !f.execute {
      SentView(s, Execute(false, false));
    } else {
      var executed := Execute(f.completion, f.completion && f.rowErrors);
      SentView(s, executed);
      SentView(Sent(s, executed), Release(f.release));
      SentView(Sent(Sent(s, executed), Release(f.release)), EndTransaction(!f.rowErrors, f.end));
    }
  }

  /** Under autocommit, from a state with nothing executed and not committed, an execution that
      returns normally has committed every row accepted since the last reset, unless one was lost
      before. */
  lemma ExecCommits(limit: int, s: State, f: Fate)
    requires Consistent(limit, s) && ExecResult(s, true, f) == Executed
    requires s.reset <= |s.log| && View(Since(s)).executed == [] && KeepsAll(Since(s))
    ensures var t := AfterExec(s, true, f);
            s.reset <= |t.log| && View(Since(t)).committed == t.accepted == s.accepted && View(Since(t)).executed == []
  {
    ExecEnds(limit, s, true, f);
    Conservation(limit, s);
    hide View, KeepsAll, Consistent;
    var v := View(Since(s));
    Regroup(v.committed, v.buffer, s.rows);
    assert v.committed + [] == v.committed && [] + RowsBefore(s) == RowsBefore(s);
  }

  /** Without autocommit an execution neither commits nor rolls back. */
  lemma NoEndWithoutAutocommit(limit: int, s: State, f: Fate)
    ensures var t := AfterExec(s, false, f);
            |t.log| >= |s.log| && forall i | |s.log| <= i < |t.log| :: !t.log[i].EndTransaction?
  {
  }

  /** A row is queued without anything sent exactly when there is no limit, nothing is queued, or
      the row fits behind what is. */
  lemma FlushOnlyWhenFull(limit: int, s: State, row: RowBytes, f: Fate)
    requires Consistent(limit, s) && !s.closed
    ensures AfterQueue(limit, s, row, f).log == s.log <==> limit <= 0 || s.rows == [] || s.pending + |row| <= limit
  {
    Facts(limit, s);
    hide Consistent;
  }

  // --- the statement ------------------------------------------------------------------

  function Frees(log: seq<WireOp>): nat {
    if log == [] then 0 else Frees(log[..|log| - 1]) + (if log[|log| - 1].FreeStatement? then 1 else 0)
  }

  /** The statement was freed once if it is closed, and not at all while it is open. */
  predicate FreedOnce(s: State) {
    Frees(s.log) == if s.stmtOpen then 0 else 1
  }

  lemma FreesSnoc(log: seq<WireOp>, op: WireOp)
    ensures Frees(log + [op]) == Frees(log) + (if op.FreeStatement? then 1 else 0)
  {
    assert (log + [op])[..|log|] == log;
  }

  lemma CreateFrees(s: State, f: Fate)
    ensures var t := AfterCreate(s, f); Frees(t.log) == Frees(s.log) && t.stmtOpen == s.stmtOpen
  {
    FreesSnoc(s.log, Create(f.create));
  }

  lemma FlushFrees(s: State, f: Fate)
    ensures var t := AfterFlush(s, f); Frees(t.log) == Frees(s.log) && t.stmtOpen == s.stmtOpen
  {
    hide Frees;
    CreateFrees(s, f);
    FreesSnoc(AfterCreate(s, f).log, Message(AfterCreate(s, f).rows, f.message));
  }

  lemma RunFrees(s: State, auto: bool, f: Fate)
    ensures var t := AfterRun(s, auto, f); Frees(t.log) == Frees(s.log) && t.stmtOpen == s.stmtOpen
  {
    hide Frees;
    var executed := Execute(f.execute && f.completion, f.execute && f.completion && f.rowErrors);
    FreesSnoc(s.log, executed);
    FreesSnoc(s.log + [executed], Release(f.release));
    FreesSnoc(s.log + [executed] + [Release(f.release)], EndTransaction(!f.rowErrors, f.end));
  }

  lemma ReleaseFrees(s: State, f: Fate)
    ensures var t := AfterRelease(s, f); Frees(t.log) == Frees(s.log) && t.stmtOpen == s.stmtOpen
  {
    FreesSnoc(s.log, Release(f.release));
  }

  lemma FreeFrees(s: State, f: Fate)
    requires FreedOnce(s)
    ensures FreedOnce(AfterFree(s, f)) && !AfterFree(s, f).stmtOpen
  {
    FreesSnoc(s.log, FreeStatement(f.free));
  }

  lemma {:induction false} RunStaysFreedOnce(limit: int, auto: bool, s: State, calls: seq<(Call, Fate)>)
    requires FreedOnce(s)
    ensures FreedOnce(Run(limit, auto, s, calls))
    decreases |calls|
  {
    if calls != [] {
      CallFreesOnce(limit, auto, s, calls[0].0, calls[0].1);
      hide After, FreedOnce;
      RunStaysFreedOnce(limit, auto, After(limit, auto, s, calls[0].0, calls[0].1), calls[1..]);
    }
  }

  /** Over every run of calls on a new batch the statement is freed once when it has been closed,
      and never before. */
  lemma RunFreesOnce(limit: int, auto: bool, calls: seq<(Call, Fate)>)
    ensures var s := Run(limit, auto, BLANK, calls);
            Frees(s.log) == if s.stmtOpen then 0 else 1
  {
    assert FreedOnce(BLANK);
    RunStaysFreedOnce(limit, auto, BLANK, calls);
    hide Run, Frees;
  }

  lemma CallFreesOnce(limit: int, auto: bool, s: State, call: Call, f: Fate)
    requires FreedOnce(s)
    ensures FreedOnce(After(limit, auto, s, call, f))
    ensures (call.Close? && !s.closed) || call.CloseStatement? ==> !After(limit, auto, s, call, f).stmtOpen
  {
    hide Frees, AfterFlush, AfterRun, AfterRelease, AfterFree;
    FlushFrees(s, f);
    RunFrees(AfterFlush(s, f), auto, f);
    ReleaseFrees(s, f);
    FreeFrees(AfterRelease(s, f), f);
    FreeFrees(AfterCancel(s, f), f);
  }

  // --- witnesses --------------------------------------------------------------------

  const ALL_GOOD := Fate(true, true, true, true, false, true, true, true)

  /** A message that fails: its row is accepted, and neither queued nor known to be stored. */
  lemma FailedMessageLosesRow(row: RowBytes)
    ensures var calls := [(Add(Some(row)), ALL_GOOD), (Flush, ALL_GOOD.(message := false))];
            var s := Run(0, false, BLANK, calls);
            s.reset == 0 && s.accepted == [row] && s.rows == []
            && Confirmed(Since(s)) == [] && View(Since(s)) == NOTHING
  {
    var f := ALL_GOOD.(message := false);
    var queued := Queued(BLANK, row);
    var log := [Create(true)] + [Message([row], false)];
    var s := queued.(created := true, rows := [], pending := 0, log := log);
    assert queued.rows == [row];
    assert After(0, false, BLANK, Add(Some(row)), ALL_GOOD) == queued && After(0, false, queued, Flush, f) == s;
    RunOfTwo(0, false, BLANK, (Add(Some(row)), ALL_GOOD), (Flush, f));
    assert Since(s) == log && [] + [Create(true)] == [Create(true)];
    hide Run, After, View, Confirmed;
    ViewSnoc([], Create(true));
    ViewSnoc([Create(true)], Message([row], false));
    NothingYet();
  }

  /** Closing the statement before the rows were executed: every exchange is good and nothing is
      reset, and the row is lost with the batch that is released. */
  lemma ReleaseLosesRow(row: RowBytes)
    ensures var calls := [(Add(Some(row)), ALL_GOOD), (Flush, ALL_GOOD), (CloseStatement, ALL_GOOD)];
            var s := Run(0, false, BLANK, calls);
            s.reset == 0 && s.accepted == [row] && s.rows == []
            && Confirmed(Since(s)) == [row] && View(Since(s)) == NOTHING
  {
    ReleaseRun(row);
    hide *;
    ViewOfRelease(row);
  }

  function ReleasedLog(row: RowBytes): seq<WireOp> {
    [Create(true)] + [Message([row], true)] + [Release(true)] + [FreeStatement(true)]
  }

  lemma ReleaseRun(row: RowBytes)
    ensures var calls := [(Add(Some(row)), ALL_GOOD), (Flush, ALL_GOOD), (CloseStatement, ALL_GOOD)];
            var s := Run(0, false, BLANK, calls);
            s.reset == 0 && s.accepted == [row] && s.rows == [] && Since(s) == ReleasedLog(row)
  {
    hide Handed, Orderly, View, Confirmed, Size;
    var calls := [(Add(Some(row)), ALL_GOOD), (Flush, ALL_GOOD), (CloseStatement, ALL_GOOD)];
    var queued := Queued(BLANK, row);
    var flushed := queued.(created := true, rows := [], pending := 0, log := [Create(true)] + [Message([row], true)]);
    var s := flushed.(created := false, stmtOpen := false, log := ReleasedLog(row));
    assert queued.rows == [row];
    assert After(0, false, BLANK, Add(Some(row)), ALL_GOOD) == queued;
    assert After(0, false, queued, Flush, ALL_GOOD) == flushed;
    assert After(0, false, flushed, CloseStatement, ALL_GOOD) == s;
    assert calls[1..] == [(Flush, ALL_GOOD), (CloseStatement, ALL_GOOD)];
    hide After, ReleasedLog;
    RunOfTwo(0, false, queued, (Flush, ALL_GOOD), (CloseStatement, ALL_GOOD));
  }

  lemma ViewOfRelease(row: RowBytes)
    ensures Confirmed(ReleasedLog(row)) == [row] && View(ReleasedLog(row)) == NOTHING
  {
    hide View, Confirmed;
    var sent := [Create(true)] + [Message([row], true)];
    assert [] + [Create(true)] == [Create(true)];
    ViewSnoc([], Create(true));
    ViewSnoc([Create(true)], Message([row], true));
    ViewSnoc(sent, Release(true));
    ViewSnoc(sent + [Release(true)], FreeStatement(true));
    NothingYet();
  }

  lemma NothingYet()
    ensures View([]) == NOTHING && Confirmed([]) == []
  {
  }

  lemma ViewSnoc(front: seq<WireOp>, op: WireOp)
    ensures View(front + [op]) == Then(View(front), op)
    ensures Confirmed(front + [op]) == Confirmed(front) + (if op.ok then RowsIn(op) else [])
  {
    assert (front + [op])[..|front|] == front;
  }

  lemma RunOfTwo(limit: int, auto: bool, s: State, a: (Call, Fate), b: (Call, Fate))
    ensures Run(limit, auto, s, [a, b]) == After(limit, auto, After(limit, auto, s, a.0, a.1), b.0, b.1)
  {
    var t := After(limit, auto, s, a.0, a.1);
    assert [a, b][1..] == [b] && [b][1..] == [];
    hide After;
    assert Run(limit, auto, t, [b]) == After(limit, auto, t, b.0, b.1);
  }

  // --- the batch ------------------------------------------------------------------

  class PreparedBatch {
    const xs: seq<Column>
    const autoFlushSize: int
    const isAutocommit: bool
    var created: bool
    var closed: bool
    var stmtOpen: bool
    var encodedRows: seq<RowBytes>
    var pendingBytes: nat
    ghost var log: seq<WireOp>
    ghost var reset: nat
    ghost var accepted: seq<RowBytes>

    ghost function Now(): State
      reads this
    {
      State(created, closed, stmtOpen, encodedRows, pendingBytes, log, reset, accepted)
    }

    ghost predicate Valid()
      reads this
    {
      |xs| > 0 && Consistent(autoFlushSize, Now())
    }

    constructor (xs: seq<Column>, isAutocommit: bool, autoFlushSize: int := DEFAULT_FLUSH_SIZE)
      requires |xs| > 0
      ensures Valid() && Now() == BLANK
      ensures this.xs == xs && this.autoFlushSize == autoFlushSize && this.isAutocommit == isAutocommit
    {
      this.xs := xs;
      this.autoFlushSize := autoFlushSize;
      this.isAutocommit := isAutocommit;
      created, closed, stmtOpen := false, false, true;
      encodedRows := [];
      pendingBytes := 0;
      log := [];
      reset := 0;
      accepted := [];
      new;
      hide Consistent;
      BlankIsConsistent(autoFlushSize);
    }

    /** Creates the server batch unless there is one. */
    method EnsureCreated(f: Fate) returns (ok: bool)
      requires Valid()
      modifies `created, `log
      ensures Valid() && Now() == AfterCreate(old(Now()), f)
      ensures ok <==> !closed && created
      ensures log == old(log) + (if old(closed || created) then [] else [Create(f.create)])
      ensures created == (old(created) || (!closed && f.create))
    {
      hide Consistent;
      CreateKeeps(autoFlushSize, Now(), f);
      if closed {
        return false;
      }
      if created {
        return true;
      }
      log := log + [Create(f.create)];
      if !f.create {
        return false;
      }
      created := true;
      return true;
    }

    /** Sends the queued rows. The queue is emptied before the message goes out, so when the
        message fails its rows are not queued any more. */
    method Flush(f: Fate) returns (ok: bool)
      requires Valid()
      modifies this
      ensures Valid() && Now() == AfterFlush(old(Now()), f)
      ensures ok <==> FlushGood(old(Now()), f)
      ensures ok <==> !old(closed) && (old(encodedRows) == [] || ((old(created) || f.create) && f.message))
      ensures old(closed) || old(encodedRows) == [] ==> Now() == old(Now())
      ensures !old(closed) && old(encodedRows) != [] ==>
                var tried := if old(created) then [] else [Create(f.create)];
                var sent := old(created) || f.create;
                && log == old(log) + tried + (if sent then [Message(old(encodedRows), f.message)] else [])
                && encodedRows == (if sent then [] else old(encodedRows))
    {
      hide Consistent;
      FlushKeeps(autoFlushSize, Now(), f);
      if closed {
        return false;
      }
      if |encodedRows| == 0 {
        return true;
      }
      ok := EnsureCreated(f);
      if ok {
        var rows := encodedRows;
        encodedRows, pendingBytes := [], 0;
        log := log + [Message(rows, f.message)];
        ok := f.message;
      }
    }

    /** Queues one row. Its arguments must convert and no column may be a BLOB or an array; it
        is refused when the batch is closed, or when it needs a flush that fails. */
    method Add(args: seq<Option<Element>>, f: Fate) returns (row: Option<RowBytes>, ok: bool)
      requires Valid()
      modifies this
      ensures Valid() && Now() == AfterAdd(autoFlushSize, old(Now()), row, f)
      ensures row.Some? <==> !old(closed) && Converts(xs, args) && NoBlobs(xs)
      ensures row.Some? ==> EncodesTo(xs, args, row.value)
      ensures ok <==> row.Some? && (Overflows(autoFlushSize, old(Now()), |row.value|) ==> FlushGood(old(Now()), f))
    {
      hide Consistent, Converts, IsBitmap, Body, Fields, AfterQueue, FlushGood;
      if closed {
        return None, false;
      }
      if |args| != |xs| {
        NotConverted(xs, args);
        return None, false;
      }
      for i := 0 to |xs|
        invariant forall k | 0 <= k < i :: xs[k].sqlType != BLOB && xs[k].sqlType != ARRAY
      {
        if xs[i].sqlType == BLOB || xs[i].sqlType == ARRAY {
          return None, false;
        }
      }
      row := EncodeBatchRow(xs, args);
      if row == None {
        return None, false;
      }
      RowNotEmpty(xs, args, row.value);
      ok := QueueRow(row.value, f);
    }

    /** The queueing part of Add. */
    method QueueRow(row: RowBytes, f: Fate) returns (ok: bool)
      requires Valid() && !closed && |row| > 0
      modifies this
      ensures Valid() && Now() == AfterQueue(autoFlushSize, old(Now()), row, f)
      ensures ok <==> (Overflows(autoFlushSize, old(Now()), |row|) ==> FlushGood(old(Now()), f))
    {
      hide Consistent, AfterFlush, FlushGood;
      QueueKeeps(autoFlushSize, Now(), row, f);
      ok := true;
      if autoFlushSize > 0 && pendingBytes > 0 && pendingBytes + |row| > autoFlushSize {
        ok := Flush(f);
      }
      if ok {
        encodedRows, pendingBytes, accepted := encodedRows + [row], pendingBytes + |row|, accepted + [row];
      }
    }

    /** Flushes, executes, releases and ends an autocommit transaction. When it returns normally
        every accepted row has been handed over, and no server batch is left. */
    method Exec(f: Fate) returns (r: Result)
      requires Valid()
      modifies this
      ensures Valid() && Now() == AfterExec(old(Now()), isAutocommit, f)
      ensures r == ExecResult(old(Now()), isAutocommit, f)
      ensures r != Refused && r != Aborted ==> reset <= |log| && accepted == Handed(log[reset..]) && !created
    {
      hide Consistent, Handed, AfterFlush, FlushGood;
      ExecKeeps(autoFlushSize, Now(), isAutocommit, f);
      FlushKeeps(autoFlushSize, Now(), f);
      if closed {
        return Refused;
      }
      var flushed := Flush(f);
      if !flushed {
        return Aborted;
      }
      if created {
        r := RunBatch(f);
      } else {
        r := Nothing;
      }
      Facts(autoFlushSize, Now());
    }

    /** The execution of a created batch. */
    method RunBatch(f: Fate) returns (r: Result)
      requires Valid() && created && !closed
      modifies `created, `log
      ensures Valid() && Now() == AfterRun(old(Now()), isAutocommit, f)
      ensures r == if !f.execute || !f.completion then Aborted
                   else if isAutocommit && !f.rowErrors && !f.end then CommitFailed
                   else if f.rowErrors then RowErrors
                   else Executed
      ensures !f.execute ==> log == old(log) + [Execute(false, false)]
      ensures f.execute ==>
                log == old(log) + [Execute(f.completion, f.completion && f.rowErrors), Release(f.release)]
                       + if f.completion && isAutocommit then [EndTransaction(!f.rowErrors, f.end)] else []
    {
      hide Consistent;
      RunKeeps(autoFlushSize, Now(), isAutocommit, f);
      if !f.execute {
        log := log + [Execute(false, false)];
        return Aborted;
      }
      log := log + [Execute(f.completion, f.completion && f.rowErrors)] + [Release(f.release)];
      created := false;
      if !f.completion {
        return Aborted;
      }
      r := if f.rowErrors then RowErrors else Executed;
      if isAutocommit {
        log := log + [EndTransaction(!f.rowErrors, f.end)];
        if !f.rowErrors && !f.end {
          r := CommitFailed;
        }
      }
    }

    /** Clears the queue and releases the server batch: a reset. */
    method Cancel(f: Fate) returns (ok: bool)
      requires Valid()
      modifies this
      ensures Valid() && Now() == AfterCancel(old(Now()), f)
      ensures ok <==> old(closed) || !old(created) || f.release
      ensures !old(closed) ==> encodedRows == [] && accepted == [] && !created && reset == |log|
      ensures log == old(log) + if old(created) then [Release(f.release)] else []
    {
      hide Consistent;
      CancelKeeps(autoFlushSize, Now(), f);
      ok := true;
      if closed {
        return;
      }
      encodedRows, pendingBytes, accepted := [], 0, [];
      if created {
        log, created := log + [Release(f.release)], false;
        ok := f.release;
      }
      reset := |log|;
    }

    /** Releases everything and frees the statement; later calls send nothing. Only the error of
        freeing the statement is reported. */
    method Close(f: Fate) returns (ok: bool)
      requires Valid()
      modifies this
      ensures Valid() && Now() == AfterClose(old(Now()), f)
      ensures ok <==> old(closed) || !old(stmtOpen) || f.free
      ensures closed && encodedRows == [] && !created && !stmtOpen
      ensures log == old(log) + (if old(created) then [Release(f.release)] else [])
                     + (if old(stmtOpen) then [FreeStatement(f.free)] else [])
    {
      hide Consistent, AfterCancel;
      Facts(autoFlushSize, Now());
      CloseKeeps(autoFlushSize, Now(), f);
      CancelKeeps(autoFlushSize, Now(), f);
      ok := true;
      if closed {
        return;
      }
      var _ := Cancel(f);
      closed := true;
      if stmtOpen {
        log := log + [FreeStatement(f.free)];
        stmtOpen := false;
        ok := f.free;
      }
    }

    /** Releases the server batch when its statement is freed, leaving the queue alone. */
    method ReleaseBeforeFree(f: Fate)
      requires Valid()
      modifies `created, `log
      ensures Valid() && Now() == AfterRelease(old(Now()), f)
      ensures !created && log == old(log) + if old(created) then [Release(f.release)] else []
    {
      hide Consistent;
      ReleaseKeeps(autoFlushSize, Now(), f);
      if !created {
        return;
      }
      log := log + [Release(f.release)];
      created := false;
    }

    /** Closes the statement under the batch. */
    method CloseStatement(f: Fate) returns (ok: bool)
      requires Valid()
      modifies `created, `log, `stmtOpen
      ensures Valid() && Now() == AfterCloseStatement(old(Now()), f)
      ensures ok <==> !old(stmtOpen) || f.free
      ensures !stmtOpen && (old(stmtOpen) ==> !created)
      ensures log == old(log) + if !old(stmtOpen) then []
                                else (if old(created) then [Release(f.release)] else []) + [FreeStatement(f.free)]
    {
      hide Consistent;
      CloseStatementKeeps(autoFlushSize, Now(), f);
      ok := true;
      if !stmtOpen {
        return;
      }
      ReleaseBeforeFree(f);
      log := log + [FreeStatement(f.free)];
      stmtOpen := false;
      ok := f.free;
    }
  }

  ghost predicate EncodesTo(xs: seq<Column>, args: seq<Option<Element>>, row: RowBytes) {
    |args| == |xs|
    && exists nulls :: IsBitmap(nulls, Fields(xs, args)) && row == nulls + Body(xs, Fields(xs, args), |xs|)
  }

  predicate NoBlobs(xs: seq<Column>) {
    forall i | 0 <= i < |xs| :: xs[i].sqlType != BLOB && xs[i].sqlType != ARRAY
  }

  /** A row of at least one column has at least its bitmap. */
  lemma RowNotEmpty(xs: seq<Column>, args: seq<Option<Element>>, row: RowBytes)
    requires |xs| == |args| > 0
    requires EncodesTo(xs, args, row)
    ensures |row| > 0
  {
    hide Body;
  }
}
