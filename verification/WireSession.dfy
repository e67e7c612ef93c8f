/** Requests and responses on one connection, when the driver defers reading some of the
    responses and keeps only their number.

    The wire is the queue of frames the server has sent and the client has not read. Every
    frame carries the number of the request it answers; the client never looks at it, the
    theorems do. An operation takes the server's answers as arguments, so a theorem about
    all arguments is one about every server that answers requests in order. */
module WireSession {
  import opened Bytes
  import opened Collections

  datatype Frame =
    | Dummy                                              // op_dummy: an opcode, no body
    | Response(answers: nat, handle: int, ok: bool)      // op_response; not ok: an error status vector
    | InlineBlob                                         // op_inline_blob
    | SqlResponse(answers: nat)                          // op_sql_response
    | Rows(answers: nat)                                 // op_fetch_response and the rows behind it
    | Completion(answers: nat)                           // op_batch_cs
    | Slice(answers: nat)                                // op_slice_response
    | Torn                                               // the body of a frame whose opcode was consumed

  /** The unread frames, lazyResponseCount, and how many requests were sent. */
  datatype Session = Session(inbox: seq<Frame>, deferred: nat, sent: nat)

  datatype Outcome =
    | Got(frame: Frame)          // the frame was read to its end
    | Unexpected(frame: Frame)   // its opcode was read and refused
    | Starved                    // nothing to read

  /** What a call read, and the number of the request it was reading for. */
  datatype Reading = Reading(request: nat, outcome: Outcome)

  datatype Body =
    | Reply(handle: int, ok: bool)
    | ResultRow(blobs: nat)      // after this many inline blobs
    | RowStream(blobs: nat)
    | Completed
    | SliceData

  /** A server's answer to one request, behind some keep-alive packets. */
  datatype Answer = Answer(dummies: nat, body: Body)

  /** The answer to a get-segment request, and whether the data in it is whole segments. */
  datatype Segment = Segment(answer: Answer, whole: bool)

  // --- readers ----------------------------------------------------------

  function SkipDummies(q: seq<Frame>): seq<Frame> {
    if q != [] && q[0].Dummy? then SkipDummies(q[1..]) else q
  }

  function SkipBlobs(q: seq<Frame>): seq<Frame> {
    if q != [] && q[0].InlineBlob? then SkipBlobs(q[1..]) else q
  }

  /** The deferred responses at the front are read and dropped, one per count. */
  function Drain(s: Session): Session
    decreases s.deferred
  {
    if s.inbox != [] && s.inbox[0].Response? && s.deferred > 0
    then Drain(s.(inbox := s.inbox[1..], deferred := s.deferred - 1))
    else s
  }

  /** What refusing a frame leaves of it. */
  function Remains(f: Frame): seq<Frame> {
    if f.Dummy? then [] else [Torn]
  }

  /** Reads the front frame to its end if it is `wanted`; otherwise only its opcode. */
  function Accept(s: Session, wanted: bool): (Session, Outcome) {
    if s.inbox == [] then (s, Starved)
    else if wanted then (s.(inbox := s.inbox[1..]), Got(s.inbox[0]))
    else (s.(inbox := Remains(s.inbox[0]) + s.inbox[1..]), Unexpected(s.inbox[0]))
  }

  function Front(s: Session): Frame {
    if s.inbox == [] then Torn else s.inbox[0]
  }

  function Ready(s: Session): Session {
    Drain(s.(inbox := SkipDummies(s.inbox)))
  }

  function PastBlobs(s: Session): Session {
    s.(inbox := SkipBlobs(s.inbox))
  }

  function ReadResponse(s: Session): (Session, Outcome) {
    var t := Ready(s);
    Accept(t, Front(t).Response?)
  }

  /** An op_response here is refused after its opcode. */
  function ReadSqlResponse(s: Session): (Session, Outcome) {
    var t := PastBlobs(Ready(s));
    Accept(t, Front(t).SqlResponse?)
  }

  /** An op_response here is parsed and reported. */
  function ReadRows(s: Session): (Session, Outcome) {
    var t := PastBlobs(Ready(s));
    Accept(t, Front(t).Rows? || Front(t).Response?)
  }

  function ReadCompletion(s: Session): (Session, Outcome) {
    var t := Ready(s);
    Accept(t, Front(t).Completion? || Front(t).Response?)
  }

  /** The one reader that does not drain. */
  function ReadSlice(s: Session): (Session, Outcome) {
    var t := s.(inbox := SkipDummies(s.inbox));
    Accept(t, Front(t).Slice? || Front(t).Response?)
  }

  // --- requests ---------------------------------------------------------

  function Contents(id: nat, b: Body): seq<Frame> {
    match b
    case Reply(handle, ok) => [Response(id, handle, ok)]
    case ResultRow(blobs) => Copies(InlineBlob, blobs) + [SqlResponse(id)]
    case RowStream(blobs) => Copies(InlineBlob, blobs) + [Rows(id)]
    case Completed => [Completion(id)]
    case SliceData => [Slice(id)]
  }

  function Frames(id: nat, a: Answer): seq<Frame> {
    Copies(Dummy, a.dummies) + Contents(id, a.body)
  }

  function Send(s: Session, a: Answer): Session {
    s.(inbox := s.inbox + Frames(s.sent, a), sent := s.sent + 1)
  }

  /** One request, one response, read at once. */
  function Ask(s: Session, a: Answer): (Session, Outcome) {
    ReadResponse(Send(s, a))
  }

  function Defer(s: Session, a: Answer): Session {
    var t := Send(s, a);
    t.(deferred := t.deferred + 1)
  }

  function HandleOf(o: Outcome): int {
    if o.Got? && o.frame.Response? then o.frame.handle else 0
  }

  predicate Failed(o: Outcome) {
    !o.Got? || !o.frame.Response? || !o.frame.ok
  }

  // --- operations -------------------------------------------------------

  datatype Op =
    | Simple(a: Answer)                                        // execute, info, begin, commit, rollback
    | Prepare(alloc: Answer, prep: Answer)
    | Free(free: Answer, commit: Option<Answer>)               // with the autocommit's commit-retaining
    | ReadBlob(cached: bool, open: Answer, segments: seq<Segment>, close: Answer)
    | WriteBlob(create: Answer, puts: seq<Answer>, close: Answer)
    | Procedure(row: Answer, tail: Answer)                     // one request, two frames
    | Fetch(a: Answer)
    | BatchPair(first: Answer, ping: Answer)                   // batch create, message or release
    | BatchExec(a: Answer)
    | GetSlice(a: Answer)

  function PrepareStep(lazy: bool, s: Session, alloc: Answer, prep: Answer): (Session, seq<Reading>) {
    if lazy then
      var t := Send(Defer(s, alloc), prep);
      var (u, o1) := ReadResponse(t.(deferred := t.deferred - 1));
      var (v, o2) := ReadResponse(u);
      (v, [Reading(s.sent, o1), Reading(s.sent + 1, o2)])
    else
      var (t, o1) := Ask(s, alloc);
      if Failed(o1) then (t, [Reading(s.sent, o1)])
      else
        var (u, o2) := Ask(t, prep);
        (u, [Reading(s.sent, o1), Reading(t.sent, o2)])
  }

  function FreeStep(lazy: bool, s: Session, free: Answer, commit: Option<Answer>): (Session, seq<Reading>) {
    var (t, r) := if lazy then (Defer(s, free), [])
                  else var (t, o) := Ask(s, free); (t, [Reading(s.sent, o)]);
    if commit.None? then (t, r)
    else var (u, o) := Ask(t, commit.value); (u, r + [Reading(t.sent, o)])
  }

  /** The get-segment loop: until a response says 2, reports an error or holds a segment that
      is cut off; the flag tells whether the loop ended as it should. */
  function SegmentsStep(s: Session, segments: seq<Segment>): (Session, seq<Reading>, bool)
    decreases |segments|
  {
    if segments == [] then (s, [], true)
    else
      var (t, o) := Ask(s, segments[0].answer);
      if Failed(o) || !segments[0].whole then (t, [Reading(s.sent, o)], false)
      else if HandleOf(o) == 2 then (t, [Reading(s.sent, o)], true)
      else
        var (u, r, done) := SegmentsStep(t, segments[1..]);
        (u, [Reading(s.sent, o)] + r, done)
  }

  /** A BLOB found in the cache takes no request. One that ends early stays open. */
  function ReadBlobStep(lazy: bool, s: Session, cached: bool, open: Answer, segments: seq<Segment>, close: Answer)
    : (Session, seq<Reading>)
  {
    if cached then (s, [])
    else ReadOpened(lazy, s, open, segments, close)
  }

  function ReadOpened(lazy: bool, s: Session, open: Answer, segments: seq<Segment>, close: Answer)
    : (Session, seq<Reading>)
  {
    var (t, o) := Ask(s, open);
    if Failed(o) then (t, [Reading(s.sent, o)])
    else
      var (u, r, done) := SegmentsStep(t, segments);
      if !done then (u, [Reading(s.sent, o)] + r)
      else if lazy then (Defer(u, close), [Reading(s.sent, o)] + r)
      else var (v, c) := Ask(u, close); (v, [Reading(s.sent, o)] + r + [Reading(u.sent, c)])
  }

  /** The put-segment loop: one round trip each, until the value is written or one fails. */
  function PutsStep(s: Session, puts: seq<Answer>): (Session, seq<Reading>, bool)
    decreases |puts|
  {
    if puts == [] then (s, [], true)
    else
      var (t, o) := Ask(s, puts[0]);
      if Failed(o) then (t, [Reading(s.sent, o)], false)
      else
        var (u, r, done) := PutsStep(t, puts[1..]);
        (u, [Reading(s.sent, o)] + r, done)
  }

  /** Closing a written BLOB is never deferred. */
  function WriteBlobStep(s: Session, create: Answer, puts: seq<Answer>, close: Answer): (Session, seq<Reading>) {
    var (t, o) := Ask(s, create);
    if Failed(o) then (t, [Reading(s.sent, o)])
    else
      var (u, r, done) := PutsStep(t, puts);
      if !done then (u, [Reading(s.sent, o)] + r)
      else var (v, c) := Ask(u, close); (v, [Reading(s.sent, o)] + r + [Reading(u.sent, c)])
  }

  function ProcedureStep(s: Session, row: Answer, tail: Answer): (Session, seq<Reading>) {
    var t := s.(inbox := s.inbox + Frames(s.sent, row) + (if row.body.Reply? then [] else Frames(s.sent, tail)),
                sent := s.sent + 1);
    var (u, o1) := ReadSqlResponse(t);
    if !o1.Got? then (u, [Reading(s.sent, o1)])
    else var (v, o2) := ReadResponse(u); (v, [Reading(s.sent, o1), Reading(s.sent, o2)])
  }

  /** Two requests are sent before either response is read; an error in the first ends the
      reading. */
  function BatchPairStep(s: Session, first: Answer, ping: Answer): (Session, seq<Reading>) {
    ReadTwo(Send(Send(s, first), ping), s.sent)
  }

  function ReadTwo(s: Session, id: nat): (Session, seq<Reading>) {
    var (t, o1) := ReadResponse(s);
    if Failed(o1) then (t, [Reading(id, o1)])
    else var (u, o2) := ReadResponse(t); (u, [Reading(id, o1), Reading(id + 1, o2)])
  }

  function Step(lazy: bool, s: Session, op: Op): (Session, seq<Reading>) {
    match op
    case Simple(a) => var (t, o) := Ask(s, a); (t, [Reading(s.sent, o)])
    case Prepare(alloc, prep) => PrepareStep(lazy, s, alloc, prep)
    case Free(free, commit) => FreeStep(lazy, s, free, commit)
    case ReadBlob(cached, open, segments, close) => ReadBlobStep(lazy, s, cached, open, segments, close)
    case WriteBlob(create, puts, close) => WriteBlobStep(s, create, puts, close)
    case Procedure(row, tail) => ProcedureStep(s, row, tail)
    case Fetch(a) => var (t, o) := ReadRows(Send(s, a)); (t, [Reading(s.sent, o)])
    case BatchPair(first, ping) => BatchPairStep(s, first, ping)
    case BatchExec(a) => var (t, o) := ReadCompletion(Send(s, a)); (t, [Reading(s.sent, o)])
    case GetSlice(a) => var (t, o) := ReadSlice(Send(s, a)); (t, [Reading(s.sent, o)])
  }

  function Run(lazy: bool, s: Session, ops: seq<Op>): (Session, seq<Reading>)
    decreases |ops|
  {
    if ops == [] then (s, [])
    else
      var (t, r) := Step(lazy, s, ops[0]);
      var (u, rs) := Run(lazy, t, ops[1..]);
      (u, r + rs)
  }

  // --- the invariant ----------------------------------------------------

  /** Between calls: behind keep-alives, the unread frames are exactly the deferred responses,
      each to an earlier request. */
  ghost predicate Synced(s: Session) {
    var q := SkipDummies(s.inbox);
    && |q| == s.deferred
    && forall i | 0 <= i < |q| :: q[i].Response? && q[i].answers < s.sent
  }

  predicate Matched(r: Reading) {
    r.outcome.Got? && match r.outcome.frame
                      case Response(id, _, _) => id == r.request
                      case SqlResponse(id) => id == r.request
                      case Rows(id) => id == r.request
                      case Completion(id) => id == r.request
                      case Slice(id) => id == r.request
                      case _ => false
  }

  ghost predicate AllMatched(rs: seq<Reading>) {
    forall r | r in rs :: Matched(r)
  }

  /** Keep-alives may stand before the first deferred response, not behind one. */
  predicate Permitted(s: Session, a: Answer) {
    a.dummies == 0 || s.deferred == 0
  }

  predicate IsReply(a: Answer) {
    a.body.Reply?
  }

  predicate AllReplies(puts: seq<Answer>) {
    forall i | 0 <= i < |puts| :: IsReply(puts[i])
  }

  predicate EndsLoop(segment: Segment) {
    var body := segment.answer.body;
    body.Reply? && (!body.ok || !segment.whole || body.handle == 2)
  }

  /** The get-segment answers: the last one, and only it, says 2, reports an error or is cut
      off. */
  predicate EndsReading(segments: seq<Segment>) {
    && segments != []
    && forall i | 0 <= i < |segments| ::
         IsReply(segments[i].answer) && (i == |segments| - 1 <==> EndsLoop(segments[i]))
  }

  /** The server answers each request with the kinds of frame the protocol allows. */
  predicate WellFormed(op: Op) {
    match op
    case Simple(a) => IsReply(a)
    case Prepare(alloc, prep) => IsReply(alloc) && IsReply(prep)
    case Free(free, commit) => IsReply(free) && (commit.Some? ==> IsReply(commit.value))
    case ReadBlob(_, open, segments, close) => IsReply(open) && EndsReading(segments) && IsReply(close)
    case WriteBlob(create, puts, close) => IsReply(create) && AllReplies(puts) && IsReply(close)
    case Procedure(row, tail) => (row.body.ResultRow? || IsReply(row)) && IsReply(tail)
    case Fetch(a) => a.body.RowStream? || IsReply(a)
    case BatchPair(first, ping) => IsReply(first) && IsReply(ping)
    case BatchExec(a) => a.body.Completed? || IsReply(a)
    case GetSlice(a) => a.body.SliceData? || IsReply(a)
  }

  /** The condition under which an operation leaves the connection in step. */
  predicate Harmless(lazy: bool, s: Session, op: Op) {
    match op
    case Simple(a) => Permitted(s, a)
    case Prepare(alloc, _) => Permitted(s, alloc)
    case Free(free, commit) => Permitted(s, free) && (lazy && commit.Some? ==> commit.value.dummies == 0)
    case ReadBlob(cached, open, _, _) => cached || Permitted(s, open)
    case WriteBlob(create, _, _) => Permitted(s, create)
    case Procedure(row, _) => Permitted(s, row) && row.body.ResultRow?
    case Fetch(a) => Permitted(s, a)
    case BatchPair(first, _) => Permitted(s, first) && first.body.Reply? && first.body.ok
    case BatchExec(a) => Permitted(s, a)
    case GetSlice(_) => s.deferred == 0
  }

  predicate HarmlessRun(lazy: bool, s: Session, ops: seq<Op>)
    decreases |ops|
  {
    ops == [] || (Harmless(lazy, s, ops[0]) && HarmlessRun(lazy, Step(lazy, s, ops[0]).0, ops[1..]))
  }

  // --- reading behind a synced queue ------------------------------------

  lemma {:induction false} SkipDummiesAppend(q: seq<Frame>, tail: seq<Frame>)
    ensures SkipDummies(q + tail) == if SkipDummies(q) == [] then SkipDummies(tail) else SkipDummies(q) + tail
  {
    if q == [] {
      assert q + tail == tail;
    } else if q[0].Dummy? {
      assert (q + tail)[1..] == q[1..] + tail;
      SkipDummiesAppend(q[1..], tail);
    }
  }

  lemma {:induction false} SkipLeading(n: nat, tail: seq<Frame>)
    ensures SkipDummies(Copies(Dummy, n) + tail) == SkipDummies(tail)
    ensures SkipBlobs(Copies(InlineBlob, n) + tail) == SkipBlobs(tail)
  {
    if n == 0 {
      assert Copies(Dummy, 0) + tail == tail && Copies(InlineBlob, 0) + tail == tail;
    } else {
      assert (Copies(Dummy, n) + tail)[1..] == Copies(Dummy, n - 1) + tail;
      assert (Copies(InlineBlob, n) + tail)[1..] == Copies(InlineBlob, n - 1) + tail;
      SkipLeading(n - 1, tail);
    }
  }

  lemma {:induction false} DrainAll(q: seq<Frame>, tail: seq<Frame>, n: nat)
    requires forall i | 0 <= i < |q| :: q[i].Response?
    ensures Drain(Session(q + tail, |q|, n)) == Session(tail, 0, n)
  {
    if q == [] {
      assert q + tail == tail;
    } else {
      assert (q + tail)[1..] == q[1..] + tail;
      DrainAll(q[1..], tail, n);
    }
  }

  /** Getting ready drops the deferred responses and nothing else; keep-alives of the next
      answer are skipped only when no response was deferred. */
  lemma ReadyBehind(s: Session, tail: seq<Frame>, n: nat)
    requires Synced(s)
    ensures Ready(Session(s.inbox + tail, s.deferred, n))
         == Session(if s.deferred == 0 then SkipDummies(tail) else tail, 0, n)
  {
    var q := SkipDummies(s.inbox);
    SkipDummiesAppend(s.inbox, tail);
    DrainAll(q, tail, n);
  }

  lemma SkipDummiesOf(n: nat, contents: seq<Frame>)
    requires contents != [] && !contents[0].Dummy?
    ensures SkipDummies(Copies(Dummy, n) + contents) == contents
  {
    SkipLeading(n, contents);
  }

  lemma ContentsFirst(id: nat, b: Body)
    ensures Contents(id, b) != [] && !Contents(id, b)[0].Dummy?
  {
  }

  /** The front of the queue once a reader for this answer is ready. */
  lemma ReadyForAnswer(s: Session, a: Answer, more: seq<Frame>, n: nat)
    requires Synced(s)
    ensures var t := Ready(Session(s.inbox + Frames(s.sent, a) + more, s.deferred, n));
            && t.deferred == 0 && t.sent == n
            && (Permitted(s, a) ==> t.inbox == Contents(s.sent, a.body) + more)
            && (!Permitted(s, a) ==> t.inbox != [] && t.inbox[0] == Dummy)
  {
    hide Ready, SkipDummies, Synced;
    var tail := Frames(s.sent, a) + more;
    Regroup(s.inbox, Frames(s.sent, a), more);
    ReadyBehind(s, tail, n);
    Regroup(Copies(Dummy, a.dummies), Contents(s.sent, a.body), more);
    ContentsFirst(s.sent, a.body);
    SkipDummiesOf(a.dummies, Contents(s.sent, a.body) + more);
  }

  /** A response is read by its own request exactly when no keep-alive stands between a
      deferred response and it; then nothing stays unread. */
  lemma AskExact(s: Session, a: Answer)
    requires Synced(s) && IsReply(a)
    ensures Permitted(s, a) ==>
              Ask(s, a) == (Session([], 0, s.sent + 1), Got(Response(s.sent, a.body.handle, a.body.ok)))
    ensures !Permitted(s, a) ==> Ask(s, a).1 == Unexpected(Dummy)
  {
    ReadyForAnswer(s, a, [], s.sent + 1);
    assert s.inbox + Frames(s.sent, a) + [] == s.inbox + Frames(s.sent, a);
  }

  /** Deferring a response keeps the count exact, under the same condition. */
  lemma DeferExact(s: Session, a: Answer)
    requires Synced(s) && IsReply(a)
    ensures Synced(Defer(s, a)) <==> Permitted(s, a)
  {
    var q := SkipDummies(s.inbox);
    var r := Response(s.sent, a.body.handle, a.body.ok);
    SkipDummiesAppend(s.inbox, Frames(s.sent, a));
    SkipDummiesOf(a.dummies, [r]);
    if s.deferred > 0 {
      var all := q + Frames(s.sent, a);
      assert SkipDummies(Defer(s, a).inbox) == all;
      assert all == q + Copies(Dummy, a.dummies) + [r];
      if a.dummies > 0 {
        assert all[|q|] == Dummy;
      }
    }
  }

  // --- operations -------------------------------------------------------

  /** The allocate handle is the one the server gave to the allocate request, in either mode
      and whatever was deferred before. */
  lemma PrepareExact(lazy: bool, s: Session, alloc: Answer, prep: Answer)
    requires Synced(s) && IsReply(alloc) && IsReply(prep)
    ensures var (t, r) := PrepareStep(lazy, s, alloc, prep);
            if Permitted(s, alloc)
            then t.inbox == [] && t.deferred == 0 && |r| >= 1
                 && r[0] == Reading(s.sent, Got(Response(s.sent, alloc.body.handle, alloc.body.ok)))
                 && HandleOf(r[0].outcome) == alloc.body.handle
                 && (lazy || alloc.body.ok ==>
                       r[1..] == [Reading(s.sent + 1, Got(Response(s.sent + 1, prep.body.handle, prep.body.ok)))])
                 && (!lazy && !alloc.body.ok ==> |r| == 1)
            else |r| >= 1 && r[0].outcome == Unexpected(Dummy)
  {
    if lazy {
      var both := Session(s.inbox + Frames(s.sent, alloc) + Frames(s.sent + 1, prep), s.deferred, s.sent + 2);
      ReadyForAnswer(s, alloc, Frames(s.sent + 1, prep), s.sent + 2);
      if Permitted(s, alloc) {
        var u := Session(Frames(s.sent + 1, prep), 0, s.sent + 2);
        assert Ready(both).inbox[1..] == u.inbox;
        SkipDummiesOf(prep.dummies, Contents(s.sent + 1, prep.body));
      }
    } else {
      AskExact(s, alloc);
      if Permitted(s, alloc) && alloc.body.ok {
        AskExact(Session([], 0, s.sent + 1), prep);
      }
    }
  }

  /** What the caller wants of a call: the connection in step and every response its own. */
  ghost predicate InStep(r: (Session, seq<Reading>)) {
    Synced(r.0) && AllMatched(r.1)
  }

  /** Leftovers of earlier requests: keep-alives and their responses. */
  predicate Stale(f: Frame, n: nat) {
    f.Dummy? || (f.Response? && f.answers < n)
  }

  /** More leftovers are unread than the driver counts, or it cannot get past one of them. */
  ghost predicate Doomed(s: Session) {
    var q := SkipDummies(s.inbox);
    && (forall f | f in q :: Stale(f, s.sent))
    && (|q| > s.deferred || Dummy in q)
  }

  /** A call that cannot be made good: a response was taken by another request, or the next
      reader is bound to take one. */
  ghost predicate Lost(r: (Session, seq<Reading>)) {
    !AllMatched(r.1) || Doomed(r.0)
  }

  lemma UnmatchedFirst(r: (Session, seq<Reading>))
    requires r.1 != [] && !Matched(r.1[0])
    ensures !InStep(r) && Lost(r)
  {
    assert r.1[0] in r.1;
  }

  lemma PrepareInStep(lazy: bool, s: Session, alloc: Answer, prep: Answer)
    requires Synced(s) && IsReply(alloc) && IsReply(prep)
    ensures var r := PrepareStep(lazy, s, alloc, prep); (InStep(r) <==> Permitted(s, alloc)) && (InStep(r) || Lost(r))
  {
    hide PrepareStep, Doomed;
    PrepareExact(lazy, s, alloc, prep);
    var (t, r) := PrepareStep(lazy, s, alloc, prep);
    if Permitted(s, alloc) {
      assert r == [r[0]] + r[1..];
    } else {
      UnmatchedFirst((t, r));
    }
  }

  lemma FreeExact(lazy: bool, s: Session, free: Answer, commit: Option<Answer>)
    requires Synced(s) && WellFormed(Free(free, commit))
    ensures var r := FreeStep(lazy, s, free, commit);
            (InStep(r) <==> Harmless(lazy, s, Free(free, commit))) && (InStep(r) || Lost(r))
  {
    if lazy {
      DeferExact(s, free);
      if commit.Some? {
        if Permitted(s, free) {
          AskExact(Defer(s, free), commit.value);
        } else {
          CommitBehindTorn(s, free, commit.value);
        }
        if !Harmless(lazy, s, Free(free, commit)) {
          UnmatchedFirst(FreeStep(lazy, s, free, commit));
        }
      } else if !Permitted(s, free) {
        BlockedIsDoomed(s, free);
      }
    } else {
      AskExact(s, free);
      if Permitted(s, free) && commit.Some? {
        AskExact(Session([], 0, s.sent + 1), commit.value);
      }
      if !Permitted(s, free) {
        UnmatchedFirst(FreeStep(lazy, s, free, commit));
      }
    }
  }

  lemma BlockedIsDoomed(s: Session, a: Answer)
    requires Synced(s) && !Permitted(s, a) && IsReply(a)
    ensures Doomed(Defer(s, a))
  {
    var q := SkipDummies(s.inbox);
    SkipDummiesAppend(s.inbox, Frames(s.sent, a));
    var all := q + Frames(s.sent, a);
    assert Frames(s.sent, a)[0] == Dummy && all[|q|] == Dummy;
    forall f | f in all
      ensures Stale(f, s.sent + 1)
    {
      assert f in q || f in Frames(s.sent, a);
    }
  }

  /** A keep-alive behind a deferred response makes the next reader refuse it. */
  lemma CommitBehindTorn(s: Session, free: Answer, commit: Answer)
    requires Synced(s) && !Permitted(s, free) && IsReply(free)
    ensures Ask(Defer(s, free), commit).1 == Unexpected(Dummy)
  {
    var more := Frames(s.sent + 1, commit);
    ReadyBlocked(s, free, more, s.sent + 2);
    assert Send(Defer(s, free), commit).inbox == s.inbox + Frames(s.sent, free) + more;
  }

  lemma ReadyBlocked(s: Session, a: Answer, more: seq<Frame>, n: nat)
    requires Synced(s) && !Permitted(s, a)
    ensures var t := Ready(Session(s.inbox + Frames(s.sent, a) + more, s.deferred + 1, n));
            t.inbox != [] && t.inbox[0] == Dummy
  {
    var q := SkipDummies(s.inbox);
    var tail := Frames(s.sent, a) + more;
    assert s.inbox + Frames(s.sent, a) + more == s.inbox + tail;
    SkipDummiesAppend(s.inbox, tail);
    DrainStops(q, tail, s.deferred + 1, n);
  }

  lemma {:induction false} DrainStops(q: seq<Frame>, tail: seq<Frame>, k: nat, n: nat)
    requires (forall i | 0 <= i < |q| :: q[i].Response?) && tail != [] && !tail[0].Response? && |q| <= k
    ensures Drain(Session(q + tail, k, n)) == Session(tail, k - |q|, n)
  {
    if q == [] {
      assert q + tail == tail;
    } else {
      assert (q + tail)[1..] == q[1..] + tail;
      DrainStops(q[1..], tail, k - 1, n);
    }
  }

  // --- what an operation sends and reads ----------------------------------

  /** The reading of a response by the request it answers. */
  function ReadingOf(id: nat, a: Answer): Reading
    requires IsReply(a)
  {
    Reading(id, Got(Response(id, a.body.handle, a.body.ok)))
  }

  function SegmentReadings(n: nat, segments: seq<Segment>): (r: seq<Reading>)
    requires EndsReading(segments)
    ensures |r| == |segments| && forall i | 0 <= i < |r| :: r[i] == ReadingOf(n + i, segments[i].answer)
  {
    seq(|segments|, i requires 0 <= i < |segments| => ReadingOf(n + i, segments[i].answer))
  }

  predicate Complete(segments: seq<Segment>)
    requires EndsReading(segments)
  {
    var last := segments[|segments| - 1];
    last.whole && last.answer.body.ok
  }

  /** The get-segment loop sends one request per segment, up to the one that ends the reading,
      and reads each response by its own request; it ends as it should exactly when the last
      segment is whole and no error. */
  lemma {:induction false} SegmentsExact(n: nat, segments: seq<Segment>)
    requires EndsReading(segments)
    ensures SegmentsStep(Session([], 0, n), segments)
         == (Session([], 0, n + |segments|), SegmentReadings(n, segments), Complete(segments))
    decreases |segments|
  {
    hide Ask, Synced, EndsReading, SegmentReadings, Complete;
    FirstSegment(n, segments);
    EmptyInStep(n);
    AskExact(Session([], 0, n), segments[0].answer);
    if |segments| > 1 {
      SegmentsExact(n + 1, segments[1..]);
    }
  }

  /** What the first segment of a reading is, and what is left behind it. */
  lemma FirstSegment(n: nat, segments: seq<Segment>)
    requires EndsReading(segments)
    ensures segments != [] && IsReply(segments[0].answer) && (|segments| == 1 <==> EndsLoop(segments[0]))
    ensures |segments| == 1 ==>
              && SegmentReadings(n, segments) == [ReadingOf(n, segments[0].answer)]
              && (Complete(segments) <==> segments[0].whole && segments[0].answer.body.ok)
    ensures |segments| > 1 ==>
              && EndsReading(segments[1..]) && (Complete(segments) <==> Complete(segments[1..]))
              && SegmentReadings(n, segments)
                 == [ReadingOf(n, segments[0].answer)] + SegmentReadings(n + 1, segments[1..])
  {
  }

  /** How many puts are sent: all of them, or those up to the first that fails. */
  function Attempted(puts: seq<Answer>): (k: nat)
    requires AllReplies(puts)
    ensures k <= |puts| && (forall i | 0 <= i < k - 1 :: puts[i].body.ok)
    ensures k < |puts| ==> k > 0 && !puts[k - 1].body.ok
    ensures k == 0 ==> puts == []
    decreases |puts|
  {
    if puts == [] then 0
    else if !puts[0].body.ok then 1
    else 1 + Attempted(puts[1..])
  }

  predicate AllOk(puts: seq<Answer>)
    requires AllReplies(puts)
  {
    forall i | 0 <= i < |puts| :: puts[i].body.ok
  }

  function PutReadings(n: nat, puts: seq<Answer>): (r: seq<Reading>)
    requires AllReplies(puts)
    ensures |r| == |puts| && forall i | 0 <= i < |r| :: r[i] == ReadingOf(n + i, puts[i])
  {
    seq(|puts|, i requires 0 <= i < |puts| => ReadingOf(n + i, puts[i]))
  }

  /** The put loop sends the puts up to the first that fails and reads each response by its own
      request; it ends as it should exactly when none fails. */
  lemma {:induction false} PutsExact(n: nat, puts: seq<Answer>)
    requires AllReplies(puts)
    ensures var k := Attempted(puts);
            PutsStep(Session([], 0, n), puts)
            == (Session([], 0, n + k), PutReadings(n, puts[..k]), AllOk(puts))
    decreases |puts|
  {
    hide Ask, Synced, AllOk, PutReadings;
    if puts == [] {
      NoPuts(n);
    } else {
      var first, rest := puts[0], puts[1..];
      assert IsReply(first) && AllReplies(rest);
      EmptyInStep(n);
      AskExact(Session([], 0, n), first);
      if first.body.ok {
        PutsExact(n + 1, rest);
        MorePuts(n, puts);
      } else {
        FirstPutFails(n, puts);
      }
    }
  }

  lemma NoPuts(n: nat)
    ensures AllOk([]) && PutReadings(n, []) == []
  {
  }

  lemma FirstPutFails(n: nat, puts: seq<Answer>)
    requires AllReplies(puts) && puts != [] && !puts[0].body.ok
    ensures !AllOk(puts) && PutReadings(n, puts[..1]) == [ReadingOf(n, puts[0])]
  {
    assert puts[..1] == [puts[0]];
  }

  lemma MorePuts(n: nat, puts: seq<Answer>)
    requires AllReplies(puts) && puts != [] && puts[0].body.ok
    ensures AllReplies(puts[1..])
    ensures var k := Attempted(puts[1..]);
            Attempted(puts) == k + 1
            && PutReadings(n, puts[..k + 1]) == [ReadingOf(n, puts[0])] + PutReadings(n + 1, puts[1..][..k])
    ensures AllOk(puts) <==> AllOk(puts[1..])
  {
    hide PutReadings;
    PutReadingsCons(n, puts, Attempted(puts[1..]));
    assert forall i | 0 < i < |puts| :: puts[i] == puts[1..][i - 1];
  }

  lemma PutReadingsCons(n: nat, puts: seq<Answer>, k: nat)
    requires AllReplies(puts) && puts != [] && k < |puts|
    ensures PutReadings(n, puts[..k + 1]) == [ReadingOf(n, puts[0])] + PutReadings(n + 1, puts[1..][..k])
  {
    hide ReadingOf;
    assert puts[..k + 1] == [puts[0]] + puts[1..][..k];
  }

  lemma OneMatched(n: nat, a: Answer)
    requires IsReply(a)
    ensures AllMatched([]) && AllMatched([ReadingOf(n, a)])
  {
  }

  lemma SegmentsMatched(n: nat, segments: seq<Segment>)
    requires EndsReading(segments)
    ensures AllMatched(SegmentReadings(n, segments))
  {
  }

  lemma PutsMatched(n: nat, puts: seq<Answer>)
    requires AllReplies(puts)
    ensures AllMatched(PutReadings(n, puts))
  {
  }

  lemma MatchedTogether(a: seq<Reading>, b: seq<Reading>)
    requires AllMatched(a) && AllMatched(b)
    ensures AllMatched(a + b)
  {
    hide Matched;
  }

  lemma ReadBlobExact(lazy: bool, s: Session, cached: bool, open: Answer, segments: seq<Segment>, close: Answer)
    requires Synced(s) && WellFormed(ReadBlob(cached, open, segments, close))
    ensures var r := ReadBlobStep(lazy, s, cached, open, segments, close);
            (InStep(r) <==> cached || Permitted(s, open)) && (InStep(r) || Lost(r))
  {
    hide Ask, Defer, SegmentsStep, EndsReading, SegmentReadings, Doomed, Complete, AllMatched;
    AskExact(s, open);
    OneMatched(s.sent, open);
    if !cached && Permitted(s, open) {
      var u := Session([], 0, s.sent + 1 + |segments|);
      var first := [ReadingOf(s.sent, open)];
      SegmentsExact(s.sent + 1, segments);
      SegmentsMatched(s.sent + 1, segments);
      AskExact(u, close);
      DeferExact(u, close);
      OneMatched(u.sent, close);
      MatchedTogether(first, SegmentReadings(s.sent + 1, segments));
      MatchedTogether(first + SegmentReadings(s.sent + 1, segments), [ReadingOf(u.sent, close)]);
    } else if !cached {
      UnmatchedFirst(ReadBlobStep(lazy, s, cached, open, segments, close));
    }
  }

  lemma WriteBlobExact(s: Session, create: Answer, puts: seq<Answer>, close: Answer)
    requires Synced(s) && WellFormed(WriteBlob(create, puts, close))
    ensures var r := WriteBlobStep(s, create, puts, close);
            (InStep(r) <==> Permitted(s, create)) && (InStep(r) || Lost(r))
  {
    hide Ask, PutsStep, PutReadings, AllOk, Doomed, AllMatched;
    AskExact(s, create);
    if Permitted(s, create) {
      var k := Attempted(puts);
      var u, first := Session([], 0, s.sent + 1 + k), [ReadingOf(s.sent, create)];
      PutsExact(s.sent + 1, puts);
      PutsMatched(s.sent + 1, puts[..k]);
      AskExact(u, close);
      OneMatched(s.sent, create);
      OneMatched(u.sent, close);
      MatchedTogether(first, PutReadings(s.sent + 1, puts[..k]));
      MatchedTogether(first + PutReadings(s.sent + 1, puts[..k]), [ReadingOf(u.sent, close)]);
    } else {
      UnmatchedFirst(WriteBlobStep(s, create, puts, close));
    }
  }

  lemma SkipBlobsOf(n: nat, f: Frame, more: seq<Frame>)
    requires !f.InlineBlob?
    ensures SkipBlobs(Copies(InlineBlob, n) + [f] + more) == [f] + more
  {
    assert Copies(InlineBlob, n) + [f] + more == Copies(InlineBlob, n) + ([f] + more);
    SkipLeading(n, [f] + more);
  }

  /** A procedure call stays in step exactly when the server sends a result: an op_response
      in its place is refused after its opcode and its body stays on the wire. */
  lemma ProcedureExact(s: Session, row: Answer, tail: Answer)
    requires Synced(s) && WellFormed(Procedure(row, tail))
    ensures var r := ProcedureStep(s, row, tail);
            (InStep(r) <==> Permitted(s, row) && row.body.ResultRow?) && (InStep(r) || Lost(r))
    ensures Permitted(s, row) && IsReply(row) ==> ProcedureStep(s, row, tail).0.inbox == [Torn]
  {
    var more := if row.body.Reply? then [] else Frames(s.sent, tail);
    ReadyForAnswer(s, row, more, s.sent + 1);
    if Permitted(s, row) && row.body.ResultRow? {
      SkipBlobsOf(row.body.blobs, SqlResponse(s.sent), more);
      SkipDummiesOf(tail.dummies, Contents(s.sent, tail.body));
    } else {
      UnmatchedFirst(ProcedureStep(s, row, tail));
    }
  }

  lemma FetchExact(s: Session, a: Answer)
    requires Synced(s) && WellFormed(Fetch(a))
    ensures var r := Step(true, s, Fetch(a)); (InStep(r) <==> Permitted(s, a)) && (InStep(r) || Lost(r))
  {
    ReadyForAnswer(s, a, [], s.sent + 1);
    assert s.inbox + Frames(s.sent, a) + [] == s.inbox + Frames(s.sent, a);
    if Permitted(s, a) {
      if a.body.RowStream? {
        SkipBlobsOf(a.body.blobs, Rows(s.sent), []);
      }
    } else {
      UnmatchedFirst(Step(true, s, Fetch(a)));
    }
  }

  /** A pipelined pair stays in step exactly when its first response is a success: an error
      ends the reading with the second response unread and not counted. */
  lemma BatchPairExact(s: Session, first: Answer, ping: Answer)
    requires Synced(s) && WellFormed(BatchPair(first, ping))
    ensures var r := BatchPairStep(s, first, ping);
            (InStep(r) <==> Permitted(s, first) && first.body.ok) && (InStep(r) || Lost(r))
    ensures Permitted(s, first) && !first.body.ok ==>
              var t := BatchPairStep(s, first, ping).0;
              t.deferred == 0 && |SkipDummies(t.inbox)| == 1
  {
    ReadyForAnswer(s, first, Frames(s.sent + 1, ping), s.sent + 2);
    if Permitted(s, first) {
      var u := Session(Frames(s.sent + 1, ping), 0, s.sent + 2);
      assert Ready(Send(Send(s, first), ping)).inbox[1..] == u.inbox;
      SkipDummiesOf(ping.dummies, Contents(s.sent + 1, ping.body));
    } else {
      UnmatchedFirst(BatchPairStep(s, first, ping));
    }
  }

  lemma BatchExecExact(s: Session, a: Answer)
    requires Synced(s) && WellFormed(BatchExec(a))
    ensures var r := Step(true, s, BatchExec(a)); (InStep(r) <==> Permitted(s, a)) && (InStep(r) || Lost(r))
  {
    ReadyForAnswer(s, a, [], s.sent + 1);
    assert s.inbox + Frames(s.sent, a) + [] == s.inbox + Frames(s.sent, a);
    if !Permitted(s, a) {
      UnmatchedFirst(Step(true, s, BatchExec(a)));
    }
  }

  /** An array slice is read by its own request exactly when no response is deferred, so a row
      whose BLOB column is read before an array column loses step in lazy-send mode. */
  lemma SliceExact(s: Session, a: Answer)
    requires Synced(s) && WellFormed(GetSlice(a))
    ensures var r := Step(true, s, GetSlice(a)); (InStep(r) <==> s.deferred == 0) && (InStep(r) || Lost(r))
  {
    var q := SkipDummies(s.inbox);
    SkipDummiesAppend(s.inbox, Frames(s.sent, a));
    SkipDummiesOf(a.dummies, Contents(s.sent, a.body));
    if s.deferred > 0 {
      assert (q + Frames(s.sent, a))[0] == q[0];
      UnmatchedFirst(Step(true, s, GetSlice(a)));
    }
  }

  /** Every operation, from every synced state and for every server: the connection stays in
      step and each reader gets the response to its own request exactly under `Harmless`. */
  lemma StepExact(lazy: bool, s: Session, op: Op)
    requires Synced(s) && WellFormed(op)
    ensures InStep(Step(lazy, s, op)) <==> Harmless(lazy, s, op)
    ensures InStep(Step(lazy, s, op)) || Lost(Step(lazy, s, op))
  {
    hide Ask, ReadRows, ReadCompletion, ReadSlice, PrepareStep, FreeStep, ReadBlobStep, WriteBlobStep, ProcedureStep;
    hide BatchPairStep, Doomed;
    match op {
      case Simple(a) =>
        AskExact(s, a);
        if !Permitted(s, a) {
          UnmatchedFirst(Step(lazy, s, op));
        }
      case Prepare(alloc, prep) =>
        PrepareInStep(lazy, s, alloc, prep);
      case Free(free, commit) => FreeExact(lazy, s, free, commit);
      case ReadBlob(cached, open, segments, close) => ReadBlobExact(lazy, s, cached, open, segments, close);
      case WriteBlob(create, puts, close) => WriteBlobExact(s, create, puts, close);
      case Procedure(row, tail) => ProcedureExact(s, row, tail);
      case Fetch(a) => FetchExact(s, a);
      case BatchPair(first, ping) => BatchPairExact(s, first, ping);
      case BatchExec(a) => BatchExecExact(s, a);
      case GetSlice(a) => SliceExact(s, a);
    }
  }

  // --- transcripts -----------------------------------------------------------

  /** An exchange: how many requests go out, what is read for which of them, and how many
      responses are put off. */
  datatype Exchange = Exchange(requests: nat, readings: seq<Reading>, putOff: nat)

  /** What each operation is for: its requests in order, numbered from n, with the response to
      each of them unless an error or a cut-off segment ends the operation before, or the last
      one is put off in lazy-send mode. */
  ghost function Expected(lazy: bool, n: nat, op: Op): Exchange
    requires WellFormed(op)
  {
    match op
    case Simple(a) => Exchange(1, [ReadingOf(n, a)], 0)
    case Prepare(alloc, prep) =>
      if lazy || alloc.body.ok then Exchange(2, [ReadingOf(n, alloc), ReadingOf(n + 1, prep)], 0)
      else Exchange(1, [ReadingOf(n, alloc)], 0)
    case Free(free, None) => if lazy then Exchange(1, [], 1) else Exchange(1, [ReadingOf(n, free)], 0)
    case Free(free, Some(commit)) =>
      if lazy then Exchange(2, [ReadingOf(n + 1, commit)], 0)
      else Exchange(2, [ReadingOf(n, free), ReadingOf(n + 1, commit)], 0)
    case ReadBlob(cached, open, segments, close) =>
      var read := [ReadingOf(n, open)] + SegmentReadings(n + 1, segments);
      var id := n + 1 + |segments|;
      if cached then Exchange(0, [], 0)
      else if !open.body.ok then Exchange(1, [ReadingOf(n, open)], 0)
      else if !Complete(segments) then Exchange(1 + |segments|, read, 0)
      else if lazy then Exchange(2 + |segments|, read, 1)
      else Exchange(2 + |segments|, read + [ReadingOf(id, close)], 0)
    case WriteBlob(create, puts, close) =>
      var k := Attempted(puts);
      var read := [ReadingOf(n, create)] + PutReadings(n + 1, puts[..k]);
      if !create.body.ok then Exchange(1, [ReadingOf(n, create)], 0)
      else if !AllOk(puts) then Exchange(1 + k, read, 0)
      else Exchange(2 + k, read + [ReadingOf(n + 1 + k, close)], 0)
    case Procedure(row, tail) => Exchange(1, [Reading(n, Got(SqlResponse(n))), ReadingOf(n, tail)], 0)
    case Fetch(a) => Exchange(1, [if IsReply(a) then ReadingOf(n, a) else Reading(n, Got(Rows(n)))], 0)
    case BatchPair(first, ping) => Exchange(2, [ReadingOf(n, first), ReadingOf(n + 1, ping)], 0)
    case BatchExec(a) => Exchange(1, [if IsReply(a) then ReadingOf(n, a) else Reading(n, Got(Completion(n)))], 0)
    case GetSlice(a) => Exchange(1, [if IsReply(a) then ReadingOf(n, a) else Reading(n, Got(Slice(n)))], 0)
  }

  /** The step makes the exchange: all its requests are sent, its readings are those of the
      exchange, and the responses still put off are its own, behind the earlier ones when it
      read nothing. */
  ghost predicate Makes(r: (Session, seq<Reading>), s: Session, e: Exchange) {
    && r.1 == e.readings && r.0.sent == s.sent + e.requests
    && r.0.deferred == (if e.readings == [] then s.deferred else 0) + e.putOff
  }

  /** Every harmless operation makes its exchange, request by request. */
  lemma StepTranscript(lazy: bool, s: Session, op: Op)
    requires Synced(s) && WellFormed(op) && Harmless(lazy, s, op)
    ensures Makes(Step(lazy, s, op), s, Expected(lazy, s.sent, op))
  {
    hide Ready, SkipDummies, Synced;
    match op {
      case Simple(a) => AskExact(s, a);
      case Prepare(alloc, prep) => PrepareTranscript(lazy, s, alloc, prep);
      case Free(free, commit) => FreeTranscript(lazy, s, free, commit);
      case ReadBlob(cached, open, segments, close) => ReadBlobTranscript(lazy, s, cached, open, segments, close);
      case WriteBlob(create, puts, close) => WriteBlobTranscript(lazy, s, create, puts, close);
      case Procedure(row, tail) => ProcedureTranscript(lazy, s, row, tail);
      case BatchPair(first, ping) => PairTranscript(lazy, s, first, ping);
      case Fetch(a) => OneTranscript(lazy, s, op, a);
      case BatchExec(a) => OneTranscript(lazy, s, op, a);
      case GetSlice(a) => OneTranscript(lazy, s, op, a);
    }
  }

  lemma PrepareTranscript(lazy: bool, s: Session, alloc: Answer, prep: Answer)
    requires Synced(s) && WellFormed(Prepare(alloc, prep)) && Permitted(s, alloc)
    ensures Makes(PrepareStep(lazy, s, alloc, prep), s, Expected(lazy, s.sent, Prepare(alloc, prep)))
  {
    PrepareExact(lazy, s, alloc, prep);
    PrepareSends(lazy, s, alloc, prep);
    hide PrepareStep, Synced;
    var r := PrepareStep(lazy, s, alloc, prep).1;
    assert r == [r[0]] + r[1..];
  }

  lemma PrepareSends(lazy: bool, s: Session, alloc: Answer, prep: Answer)
    requires Synced(s) && WellFormed(Prepare(alloc, prep)) && Permitted(s, alloc)
    ensures PrepareStep(lazy, s, alloc, prep).0.sent == s.sent + (if lazy || alloc.body.ok then 2 else 1)
  {
    ReadResponseSends(Send(Defer(s, alloc), prep));
    hide Ready, Accept, Synced;
    if lazy {
      var t := Send(Defer(s, alloc), prep);
      var u := t.(deferred := t.deferred - 1);
      ReadResponseSends(u);
      ReadResponseSends(ReadResponse(u).0);
    } else {
      AskExact(s, alloc);
      ReadResponseSends(Send(Ask(s, alloc).0, prep));
    }
  }

  lemma ReadResponseSends(s: Session)
    ensures ReadResponse(s).0.sent == s.sent
  {
    DrainSends(s.(inbox := SkipDummies(s.inbox)));
  }

  lemma {:induction false} DrainSends(s: Session)
    ensures Drain(s).sent == s.sent
    decreases s.deferred
  {
    if s.inbox != [] && s.inbox[0].Response? && s.deferred > 0 {
      DrainSends(s.(inbox := s.inbox[1..], deferred := s.deferred - 1));
    }
  }

  lemma FreeTranscript(lazy: bool, s: Session, free: Answer, commit: Option<Answer>)
    requires Synced(s) && WellFormed(Free(free, commit)) && Harmless(lazy, s, Free(free, commit))
    ensures Makes(FreeStep(lazy, s, free, commit), s, Expected(lazy, s.sent, Free(free, commit)))
  {
    hide Ready, Ask, SkipDummies;
    if lazy {
      DeferExact(s, free);
      if commit.Some? {
        AskExact(Defer(s, free), commit.value);
      }
    } else {
      AskExact(s, free);
      assert Synced(Session([], 0, s.sent + 1)) by {
        EmptyInStep(s.sent + 1);
      }
      if commit.Some? {
        AskExact(Session([], 0, s.sent + 1), commit.value);
      }
    }
  }

  lemma EmptyInStep(n: nat)
    ensures Synced(Session([], 0, n))
  {
  }

  lemma ReadBlobTranscript(lazy: bool, s: Session, cached: bool, open: Answer, segments: seq<Segment>, close: Answer)
    requires Synced(s) && WellFormed(ReadBlob(cached, open, segments, close)) && (cached || Permitted(s, open))
    ensures Makes(ReadBlobStep(lazy, s, cached, open, segments, close), s,
                  Expected(lazy, s.sent, ReadBlob(cached, open, segments, close)))
  {
    hide Ask, Synced, SegmentsStep, EndsReading, SegmentReadings, Complete, Permitted;
    if !cached {
      var u := Session([], 0, s.sent + 1 + |segments|);
      Unread(u, close);
      AskExact(s, open);
      SegmentsExact(s.sent + 1, segments);
      EmptyInStep(u.sent);
      AskExact(u, close);
    }
  }

  lemma Unread(u: Session, a: Answer)
    requires u.deferred == 0
    ensures Permitted(u, a)
  {
  }

  lemma WriteBlobTranscript(lazy: bool, s: Session, create: Answer, puts: seq<Answer>, close: Answer)
    requires Synced(s) && WellFormed(WriteBlob(create, puts, close)) && Permitted(s, create)
    ensures Makes(WriteBlobStep(s, create, puts, close), s, Expected(lazy, s.sent, WriteBlob(create, puts, close)))
  {
    hide Ask, Synced, PutsStep, AllReplies;
    var u := Session([], 0, s.sent + 1 + Attempted(puts));
    AskExact(s, create);
    PutsExact(s.sent + 1, puts);
    EmptyInStep(u.sent);
    AskExact(u, close);
  }

  lemma ProcedureTranscript(lazy: bool, s: Session, row: Answer, tail: Answer)
    requires Synced(s) && WellFormed(Procedure(row, tail)) && Harmless(lazy, s, Procedure(row, tail))
    ensures Makes(ProcedureStep(s, row, tail), s, Expected(lazy, s.sent, Procedure(row, tail)))
  {
    var more := Frames(s.sent, tail);
    ReadyForAnswer(s, row, more, s.sent + 1);
    SkipBlobsOf(row.body.blobs, SqlResponse(s.sent), more);
    SkipDummiesOf(tail.dummies, Contents(s.sent, tail.body));
    hide Synced;
  }

  lemma PairTranscript(lazy: bool, s: Session, first: Answer, ping: Answer)
    requires Synced(s) && WellFormed(BatchPair(first, ping)) && Harmless(lazy, s, BatchPair(first, ping))
    ensures Makes(BatchPairStep(s, first, ping), s, Expected(lazy, s.sent, BatchPair(first, ping)))
  {
    ReadyForAnswer(s, first, Frames(s.sent + 1, ping), s.sent + 2);
    var u := Session(Frames(s.sent + 1, ping), 0, s.sent + 2);
    assert Ready(Send(Send(s, first), ping)).inbox[1..] == u.inbox;
    SkipDummiesOf(ping.dummies, Contents(s.sent + 1, ping.body));
    hide Synced;
  }

  /** An operation of one request whose response is read by a reader of its own. */
  lemma OneTranscript(lazy: bool, s: Session, op: Op, a: Answer)
    requires op == Fetch(a) || op == BatchExec(a) || op == GetSlice(a)
    requires Synced(s) && WellFormed(op) && Harmless(lazy, s, op)
    ensures Makes(Step(lazy, s, op), s, Expected(lazy, s.sent, op))
  {
    if op.GetSlice? {
      SkipDummiesAppend(s.inbox, Frames(s.sent, a));
      SkipDummiesOf(a.dummies, Contents(s.sent, a.body));
    } else {
      ReadyForAnswer(s, a, [], s.sent + 1);
      assert s.inbox + Frames(s.sent, a) + [] == s.inbox + Frames(s.sent, a);
      if a.body.RowStream? {
        SkipBlobsOf(a.body.blobs, Rows(s.sent), []);
      }
    }
  }

  /** The exchanges of a run, one after the other. */
  ghost function ExpectedRun(lazy: bool, n: nat, ops: seq<Op>): seq<Reading>
    requires forall op | op in ops :: WellFormed(op)
    decreases |ops|
  {
    if ops == [] then []
    else
      assert ops[0] in ops;
      var e := Expected(lazy, n, ops[0]);
      e.readings + ExpectedRun(lazy, n + e.requests, ops[1..])
  }

  /** Over every harmless run the readings are those of its exchanges, in order. */
  lemma {:induction false} RunTranscript(lazy: bool, s: Session, ops: seq<Op>)
    requires Synced(s) && (forall op | op in ops :: WellFormed(op)) && HarmlessRun(lazy, s, ops)
    ensures Run(lazy, s, ops).1 == ExpectedRun(lazy, s.sent, ops)
    decreases |ops|
  {
    hide *;
    RunCons(lazy, s, ops);
    if ops != [] {
      assert ops[0] in ops;
      StepInStep(lazy, s, ops[0]);
      StepTranscript(lazy, s, ops[0]);
      MakesParts(Step(lazy, s, ops[0]), s, Expected(lazy, s.sent, ops[0]));
      RunTranscript(lazy, Step(lazy, s, ops[0]).0, ops[1..]);
    }
  }

  lemma StepInStep(lazy: bool, s: Session, op: Op)
    requires Synced(s) && WellFormed(op) && Harmless(lazy, s, op)
    ensures Synced(Step(lazy, s, op).0)
  {
    hide Step, Synced, Harmless, WellFormed, Matched, Lost;
    StepExact(lazy, s, op);
  }

  lemma MakesParts(r: (Session, seq<Reading>), s: Session, e: Exchange)
    requires Makes(r, s, e)
    ensures r.1 == e.readings && r.0.sent == s.sent + e.requests
  {
  }

  lemma RunCons(lazy: bool, s: Session, ops: seq<Op>)
    requires forall op | op in ops :: WellFormed(op)
    ensures ops == [] ==> Run(lazy, s, ops).1 == [] && ExpectedRun(lazy, s.sent, ops) == []
    ensures ops != [] ==>
              var (t, r) := Step(lazy, s, ops[0]);
              var e := Expected(lazy, s.sent, ops[0]);
              Run(lazy, s, ops).1 == r + Run(lazy, t, ops[1..]).1
              && (HarmlessRun(lazy, s, ops) ==> Harmless(lazy, s, ops[0]) && HarmlessRun(lazy, t, ops[1..]))
              && ExpectedRun(lazy, s.sent, ops) == e.readings + ExpectedRun(lazy, s.sent + e.requests, ops[1..])
  {
    hide Step, Harmless, WellFormed, Expected;
  }

  // --- behind a lost call ---------------------------------------------------

  /** The draining reader stops at a leftover. */
  lemma {:induction false} DrainKeepsStale(q: seq<Frame>, k: nat, n: nat, m: nat, more: seq<Frame>)
    requires (forall f | f in q :: Stale(f, m)) && (|q| > k || Dummy in q)
    ensures var t := Drain(Session(q + more, k, n)); t.inbox != [] && Stale(t.inbox[0], m)
    decreases |q|
  {
    assert q != [] && (q + more)[0] == q[0] && q[0] in q;
    if q[0].Response? && k > 0 {
      assert (q + more)[1..] == q[1..] + more;
      assert forall f | f in q[1..] :: f in q;
      assert Dummy in q ==> Dummy in q[1..];
      DrainKeepsStale(q[1..], k - 1, n, m, more);
    }
  }

  lemma ReadyIsStale(s: Session, more: seq<Frame>, n: nat)
    requires Doomed(s)
    ensures var t := Ready(Session(s.inbox + more, s.deferred, n)); t.inbox != [] && Stale(t.inbox[0], s.sent)
    ensures var q := SkipDummies(s.inbox + more); q != [] && Stale(q[0], s.sent) && !q[0].Dummy?
  {
    var q := SkipDummies(s.inbox);
    SkipDummiesAppend(s.inbox, more);
    DrainKeepsStale(q, s.deferred, n, s.sent, more);
    SkippedDummies(s.inbox);
    assert q[0] in q && (q + more)[0] == q[0];
  }

  lemma {:induction false} SkippedDummies(q: seq<Frame>)
    ensures SkipDummies(q) != [] ==> !SkipDummies(q)[0].Dummy?
  {
    if q != [] && q[0].Dummy? {
      SkippedDummies(q[1..]);
    }
  }

  /** Every reader takes or refuses the leftover. */
  lemma StaleIsUnmatched(s: Session, n: nat, wanted: bool)
    requires s.inbox != [] && Stale(s.inbox[0], n) && (wanted ==> !s.inbox[0].Dummy?)
    ensures forall id | id >= n :: !Matched(Reading(id, Accept(s, wanted).1))
    ensures PastBlobs(s) == s
  {
  }

  lemma DoomedReads(s: Session, more: seq<Frame>, n: nat)
    requires Doomed(s)
    ensures forall id | id >= s.sent :: !Matched(Reading(id, ReadResponse(Session(s.inbox + more, s.deferred, n)).1))
    ensures forall id | id >= s.sent :: !Matched(Reading(id, ReadSqlResponse(Session(s.inbox + more, s.deferred, n)).1))
    ensures forall id | id >= s.sent :: !Matched(Reading(id, ReadRows(Session(s.inbox + more, s.deferred, n)).1))
    ensures forall id | id >= s.sent :: !Matched(Reading(id, ReadCompletion(Session(s.inbox + more, s.deferred, n)).1))
    ensures forall id | id >= s.sent :: !Matched(Reading(id, ReadSlice(Session(s.inbox + more, s.deferred, n)).1))
  {
    ReadyIsStale(s, more, n);
    var t := Ready(Session(s.inbox + more, s.deferred, n));
    var f := t.inbox[0];
    StaleIsUnmatched(t, s.sent, f.Response?);
    StaleIsUnmatched(t, s.sent, false);
    var u := Session(SkipDummies(s.inbox + more), s.deferred, n);
    StaleIsUnmatched(u, s.sent, u.inbox[0].Response?);
  }

  /** Deferring one more response gains nothing. */
  lemma DoomedDefer(s: Session, a: Answer)
    requires Doomed(s) && IsReply(a)
    ensures Doomed(Defer(s, a))
  {
    var q := SkipDummies(s.inbox);
    SkipDummiesAppend(s.inbox, Frames(s.sent, a));
    assert q != [] by {
      assert |q| > 0 || Dummy in q;
    }
    var all := q + Frames(s.sent, a);
    assert Frames(s.sent, a) == Copies(Dummy, a.dummies) + [Response(s.sent, a.body.handle, a.body.ok)];
    forall f | f in all
      ensures Stale(f, s.sent + 1)
    {
      assert f in q || f in Frames(s.sent, a);
    }
  }

  lemma DoomedPrepare(lazy: bool, s: Session, alloc: Answer, prep: Answer)
    requires Doomed(s)
    ensures Lost(PrepareStep(lazy, s, alloc, prep))
  {
    if lazy {
      var more := Frames(s.sent, alloc) + Frames(s.sent + 1, prep);
      DoomedReads(s, more, s.sent + 2);
      Regroup(s.inbox, Frames(s.sent, alloc), Frames(s.sent + 1, prep));
    } else {
      DoomedReads(s, Frames(s.sent, alloc), s.sent + 1);
    }
    hide ReadResponse, Frames, Doomed;
    UnmatchedFirst(PrepareStep(lazy, s, alloc, prep));
  }

  lemma DoomedFree(lazy: bool, s: Session, free: Answer, commit: Option<Answer>)
    requires Doomed(s) && WellFormed(Free(free, commit))
    ensures Lost(FreeStep(lazy, s, free, commit))
  {
    if lazy {
      DoomedDefer(s, free);
      if commit.Some? {
        var t := Defer(s, free);
        DoomedReads(t, Frames(t.sent, commit.value), t.sent + 1);
        hide ReadResponse, Frames, Doomed;
        UnmatchedFirst(FreeStep(lazy, s, free, commit));
      }
    } else {
      DoomedReads(s, Frames(s.sent, free), s.sent + 1);
      hide ReadResponse, Frames, Doomed;
      UnmatchedFirst(FreeStep(lazy, s, free, commit));
    }
  }

  lemma DoomedProcedure(s: Session, row: Answer, tail: Answer)
    requires Doomed(s)
    ensures Lost(ProcedureStep(s, row, tail))
  {
    var more := if row.body.Reply? then [] else Frames(s.sent, tail);
    DoomedReads(s, Frames(s.sent, row) + more, s.sent + 1);
    Regroup(s.inbox, Frames(s.sent, row), more);
    hide ReadResponse, ReadSqlResponse, Frames, Doomed;
    UnmatchedFirst(ProcedureStep(s, row, tail));
  }

  lemma DoomedPair(s: Session, first: Answer, ping: Answer)
    requires Doomed(s)
    ensures Lost(BatchPairStep(s, first, ping))
  {
    DoomedReads(s, Frames(s.sent, first) + Frames(s.sent + 1, ping), s.sent + 2);
    Regroup(s.inbox, Frames(s.sent, first), Frames(s.sent + 1, ping));
    hide ReadResponse, Frames, Doomed;
    UnmatchedFirst(BatchPairStep(s, first, ping));
  }

  /** From a doomed state every operation reads a response that is not its own or, when it
      reads none, leaves the state doomed. */
  lemma DoomedStep(lazy: bool, s: Session, op: Op)
    requires Doomed(s) && WellFormed(op)
    ensures Lost(Step(lazy, s, op))
  {
    match op {
      case Simple(a) => DoomedOne(lazy, s, op, a);
      case Prepare(alloc, prep) => DoomedPrepare(lazy, s, alloc, prep);
      case Free(free, commit) => DoomedFree(lazy, s, free, commit);
      case ReadBlob(cached, open, _, _) =>
        if !cached {
          DoomedOne(lazy, s, op, open);
        }
      case WriteBlob(create, _, _) => DoomedOne(lazy, s, op, create);
      case Procedure(row, tail) => DoomedProcedure(s, row, tail);
      case Fetch(a) => DoomedOne(lazy, s, op, a);
      case BatchPair(first, ping) => DoomedPair(s, first, ping);
      case BatchExec(a) => DoomedOne(lazy, s, op, a);
      case GetSlice(a) => DoomedOne(lazy, s, op, a);
    }
  }

  /** An operation that begins with one request and the reading of its response. */
  lemma DoomedOne(lazy: bool, s: Session, op: Op, a: Answer)
    requires Doomed(s)
    requires match op
             case Simple(x) => x == a
             case ReadBlob(cached, x, _, _) => !cached && x == a
             case WriteBlob(x, _, _) => x == a
             case Fetch(x) => x == a
             case BatchExec(x) => x == a
             case GetSlice(x) => x == a
             case _ => false
    ensures Lost(Step(lazy, s, op))
  {
    DoomedReads(s, Frames(s.sent, a), s.sent + 1);
    hide ReadResponse, ReadRows, ReadCompletion, ReadSlice, Frames, Doomed, SegmentsStep, PutsStep;
    UnmatchedFirst(Step(lazy, s, op));
  }

  /** A lost call is never made good by the calls behind it. */
  lemma {:induction false} DoomedRun(lazy: bool, s: Session, ops: seq<Op>)
    requires Doomed(s) && forall op | op in ops :: WellFormed(op)
    ensures Lost(Run(lazy, s, ops))
    decreases |ops|
  {
    if ops != [] {
      DoomedStep(lazy, s, ops[0]);
      LostThenAny(lazy, s, ops);
    }
  }

  lemma LostThenAny(lazy: bool, s: Session, ops: seq<Op>)
    requires ops != [] && (forall op | op in ops :: WellFormed(op)) && Lost(Step(lazy, s, ops[0]))
    ensures Lost(Run(lazy, s, ops))
    decreases |ops|, 0
  {
    var (t, r) := Step(lazy, s, ops[0]);
    var rest := Run(lazy, t, ops[1..]);
    assert Run(lazy, s, ops) == (rest.0, r + rest.1);
    if Doomed(t) {
      DoomedRun(lazy, t, ops[1..]);
    }
    hide Step, Run, Doomed, Matched;
    if !AllMatched(r) {
      var bad :| bad in r && !Matched(bad);
      assert bad in r + rest.1;
    } else if !AllMatched(rest.1) {
      var bad :| bad in rest.1 && !Matched(bad);
      assert bad in r + rest.1;
    }
  }

  lemma LostIsNotInStep(r: (Session, seq<Reading>))
    requires Lost(r)
    ensures !InStep(r)
  {
    if Synced(r.0) {
      SyncedIsNotDoomed(r.0);
    }
  }

  lemma SyncedIsNotDoomed(s: Session)
    requires Synced(s)
    ensures !Doomed(s)
  {
    var q := SkipDummies(s.inbox);
    assert forall f | f in q :: f.Response?;
  }

  /** Over every run of any length: the connection is in step at the end and every response
      was read by its own request exactly when every operation was harmless where it ran. */
  lemma {:induction false} RunInStep(lazy: bool, s: Session, ops: seq<Op>)
    requires Synced(s) && forall op | op in ops :: WellFormed(op)
    ensures InStep(Run(lazy, s, ops)) <==> HarmlessRun(lazy, s, ops)
    decreases |ops|
  {
    if ops != [] {
      StepExact(lazy, s, ops[0]);
      hide Step, Harmless, Synced, Doomed, WellFormed;
      if Harmless(lazy, s, ops[0]) {
        RunInStep(lazy, Step(lazy, s, ops[0]).0, ops[1..]);
        RunParts(lazy, s, ops);
      } else {
        LostThenAny(lazy, s, ops);
        LostIsNotInStep(Run(lazy, s, ops));
      }
    }
  }

  lemma RunParts(lazy: bool, s: Session, ops: seq<Op>)
    requires ops != [] && AllMatched(Step(lazy, s, ops[0]).1)
    ensures InStep(Run(lazy, s, ops)) <==> InStep(Run(lazy, Step(lazy, s, ops[0]).0, ops[1..]))
  {
    hide Step, Synced, Matched;
    var (t, r) := Step(lazy, s, ops[0]);
    var rest := Run(lazy, t, ops[1..]);
    assert forall x | x in r + rest.1 :: x in r || x in rest.1;
    assert forall x | x in rest.1 :: x in r + rest.1;
  }

  /** A BLOB of one segment: open, one get-segment, close. */
  lemma OneSegmentBlob(lazy: bool, n: nat, open: Answer, more: Answer, close: Answer)
    requires open == Answer(0, Reply(7, true)) && more == Answer(0, Reply(2, true)) && IsReply(close)
    requires close.dummies == 0
    ensures ReadBlobStep(lazy, Session([], 0, n), false, open, [Segment(more, true)], close).0
            == if lazy then Defer(Session([], 0, n + 2), close) else Session([], 0, n + 3)
  {
    assert Synced(Session([], 0, n)) && Synced(Session([], 0, n + 1)) && Synced(Session([], 0, n + 2));
    hide Ask, Defer, Synced;
    AskExact(Session([], 0, n), open);
    AskExact(Session([], 0, n + 1), more);
    AskExact(Session([], 0, n + 2), close);
    assert SegmentsStep(Session([], 0, n + 1), [Segment(more, true)]).0 == Session([], 0, n + 2);
    assert SegmentsStep(Session([], 0, n + 1), [Segment(more, true)]).2;
    hide SegmentsStep;
  }

  /** The smallest run that loses step: a lazy-send client with nothing outstanding reads a
      BLOB column of a row and then an array column of the same row. */
  lemma BlobThenArrayLosesStep(n: nat)
    ensures var segment := Segment(Answer(0, Reply(2, true)), true);
            var blob := ReadBlob(false, Answer(0, Reply(7, true)), [segment], Answer(0, Reply(0, true)));
            var slice := GetSlice(Answer(0, SliceData));
            && WellFormed(blob) && WellFormed(slice)
            && Synced(Session([], 0, n))
            && InStep(Step(true, Session([], 0, n), blob))
            && !InStep(Step(true, Step(true, Session([], 0, n), blob).0, slice))
            && InStep(Step(true, Step(false, Session([], 0, n), blob).0, slice))
  {
    var open, more, close := Answer(0, Reply(7, true)), Answer(0, Reply(2, true)), Answer(0, Reply(0, true));
    var slice := Answer(0, SliceData);
    var start := Session([], 0, n);
    var deferred := Defer(Session([], 0, n + 2), close);
    assert Synced(start) && Synced(Session([], 0, n + 3)) && deferred.deferred == 1;
    hide ReadBlobStep, Ask, Ready, Defer, ReadSlice, Synced, SkipDummies, Frames, Matched;
    ReadBlobExact(true, start, false, open, [Segment(more, true)], close);
    OneSegmentBlob(true, n, open, more, close);
    OneSegmentBlob(false, n, open, more, close);
    DeferExact(Session([], 0, n + 2), close);
    SliceExact(deferred, slice);
    SliceExact(Session([], 0, n + 3), slice);
  }
}
