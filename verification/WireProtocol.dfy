/** The driver's connection object: its readers and the operations built on them, each
    proved to make the step of the session model. */
module WireProtocol {
  import opened Bytes
  import opened WireSession

  class Protocol {
    /** Whether the connection was accepted in lazy-send mode. */
    const lazySend: bool
    var inbox: seq<Frame>
    var lazyResponseCount: nat
    var sent: nat

    function State(): Session
      reads this
    {
      Session(inbox, lazyResponseCount, sent)
    }

    constructor (lazySend: bool)
      ensures this.lazySend == lazySend && State() == Session([], 0, 0) && Synced(State())
    {
      this.lazySend := lazySend;
      inbox, lazyResponseCount, sent := [], 0, 0;
    }

    /** Sends a request; the server's answer to it becomes readable. */
    method SendPackets(a: Answer)
      modifies this
      ensures State() == Send(old(State()), a)
    {
      inbox := inbox + Frames(sent, a);
      sent := sent + 1;
    }

    method SkipKeepAlives()
      modifies this
      ensures State() == old(State()).(inbox := SkipDummies(old(inbox)))
    {
      while inbox != [] && inbox[0] == Dummy
        invariant SkipDummies(inbox) == SkipDummies(old(inbox))
        invariant lazyResponseCount == old(lazyResponseCount) && sent == old(sent)
        decreases |inbox|
      {
        inbox := inbox[1..];
      }
    }

    /** What every draining reader does first: keep-alives, then the deferred responses. */
    method AwaitFrame()
      modifies this
      ensures State() == Ready(old(State()))
    {
      SkipKeepAlives();
      while inbox != [] && inbox[0].Response? && lazyResponseCount > 0
        invariant Drain(State()) == Ready(old(State()))
        decreases lazyResponseCount
      {
        lazyResponseCount := lazyResponseCount - 1;
        inbox := inbox[1..];
      }
    }

    method ConsumeInlineBlobs()
      modifies this
      ensures State() == PastBlobs(old(State()))
    {
      while inbox != [] && inbox[0] == InlineBlob
        invariant SkipBlobs(inbox) == SkipBlobs(old(inbox))
        invariant lazyResponseCount == old(lazyResponseCount) && sent == old(sent)
        decreases |inbox|
      {
        inbox := inbox[1..];
      }
    }

    method TakeFrame(wanted: bool) returns (o: Outcome)
      modifies this
      ensures (State(), o) == Accept(old(State()), wanted)
    {
      if inbox == [] {
        return Starved;
      }
      var f := inbox[0];
      if wanted {
        inbox := inbox[1..];
        return Got(f);
      }
      inbox := Remains(f) + inbox[1..];
      return Unexpected(f);
    }

    method OpResponse() returns (o: Outcome)
      modifies this
      ensures (State(), o) == ReadResponse(old(State()))
    {
      AwaitFrame();
      o := TakeFrame(Front(State()).Response?);
    }

    method OpSqlResponse() returns (o: Outcome)
      modifies this
      ensures (State(), o) == ReadSqlResponse(old(State()))
    {
      AwaitFrame();
      ConsumeInlineBlobs();
      o := TakeFrame(Front(State()).SqlResponse?);
    }

    method OpFetchResponse() returns (o: Outcome)
      modifies this
      ensures (State(), o) == ReadRows(old(State()))
    {
      AwaitFrame();
      ConsumeInlineBlobs();
      o := TakeFrame(Front(State()).Rows? || Front(State()).Response?);
    }

    method OpBatchCompletion() returns (o: Outcome)
      modifies this
      ensures (State(), o) == ReadCompletion(old(State()))
    {
      AwaitFrame();
      o := TakeFrame(Front(State()).Completion? || Front(State()).Response?);
    }

    /** No draining here. */
    method OpSliceResponse() returns (o: Outcome)
      modifies this
      ensures (State(), o) == ReadSlice(old(State()))
    {
      SkipKeepAlives();
      o := TakeFrame(Front(State()).Slice? || Front(State()).Response?);
    }

    /** Sends a request and reads its response. */
    method RoundTrip(a: Answer) returns (o: Outcome)
      modifies this
      ensures (State(), o) == Ask(old(State()), a)
    {
      SendPackets(a);
      o := OpResponse();
    }

    /** Prepares a statement: the handle of the allocate request, picked out of the queue in
        lazy-send mode by taking one off the count and reading an extra response. */
    method NewStatement(alloc: Answer, prep: Answer) returns (stmtHandle: int, r: seq<Reading>)
      modifies this
      ensures (State(), r) == PrepareStep(lazySend, old(State()), alloc, prep)
      ensures r != [] && stmtHandle == HandleOf(r[0].outcome)
    {
      hide ReadResponse, Frames;
      r := [];
      var id := sent;
      if lazySend {
        SendPackets(alloc);
        lazyResponseCount := lazyResponseCount + 1;
        stmtHandle := -1;
      } else {
        var o := RoundTrip(alloc);
        r := [Reading(id, o)];
        stmtHandle := HandleOf(o);
        if Failed(o) {
          return;
        }
      }
      var prepareId := sent;
      SendPackets(prep);
      if lazySend && lazyResponseCount > 0 {
        lazyResponseCount := lazyResponseCount - 1;
        var o := OpResponse();
        r := [Reading(id, o)];
        stmtHandle := HandleOf(o);
      }
      var o := OpResponse();
      assert r == [r[0]];
      r := r + [Reading(prepareId, o)];
      assert r == [r[0], Reading(prepareId, o)];
    }

    /** Frees a statement or closes its cursor; under autocommit a commit-retaining follows. */
    method FreeStatement(free: Answer, commit: Option<Answer>) returns (r: seq<Reading>)
      modifies this
      ensures (State(), r) == FreeStep(lazySend, old(State()), free, commit)
    {
      r := [];
      var id := sent;
      SendPackets(free);
      if lazySend {
        lazyResponseCount := lazyResponseCount + 1;
      } else {
        var o := OpResponse();
        r := [Reading(id, o)];
      }
      if commit.Some? {
        var commitId := sent;
        SendPackets(commit.value);
        var o := OpResponse();
        r := r + [Reading(commitId, o)];
      }
    }

    /** Reads segments until a response says 2; false when one reports an error or is cut off. */
    method GetSegments(segments: seq<Segment>) returns (r: seq<Reading>, done: bool)
      modifies this
      ensures (State(), r, done) == SegmentsStep(old(State()), segments)
    {
      hide Ask;
      ghost var start := State();
      r := [];
      var moreData := 1;
      var i := 0;
      assert segments[0..] == segments && r + SegmentsStep(start, segments).1 == SegmentsStep(start, segments).1;
      while moreData != 2 && i < |segments|
        invariant 0 <= i <= |segments|
        invariant SegmentsStep(start, segments)
               == if moreData == 2 then (State(), r, true)
                  else var (t, rest, ended) := SegmentsStep(State(), segments[i..]); (t, r + rest, ended)
        decreases |segments| - i
      {
        assert segments[i..][1..] == segments[i + 1..];
        ghost var before := r;
        var id := sent;
        var o := RoundTrip(segments[i].answer);
        r := r + [Reading(id, o)];
        ghost var rest := SegmentsStep(State(), segments[i + 1..]).1;
        assert before + ([Reading(id, o)] + rest) == r + rest;
        if Failed(o) {
          return r, false;
        }
        if !segments[i].whole {
          return r, false;
        }
        moreData := HandleOf(o);
        i := i + 1;
      }
      assert r + [] == r;
      done := true;
    }

    /** Reads a BLOB to its end, or takes it from the cache; an error or a segment that is cut
        off leaves it open and ends the call. */
    method GetBlobSegments(cached: bool, open: Answer, segments: seq<Segment>, close: Answer) returns (r: seq<Reading>)
      modifies this
      ensures (State(), r) == ReadBlobStep(lazySend, old(State()), cached, open, segments, close)
    {
      hide Ask, SegmentsStep, Send;
      if cached {
        return [];
      }
      var id := sent;
      var o := RoundTrip(open);
      r := [Reading(id, o)];
      if Failed(o) {
        return;
      }
      var read, done := GetSegments(segments);
      r := r + read;
      if !done {
        return;
      }
      id := sent;
      if lazySend {
        SendPackets(close);
        lazyResponseCount := lazyResponseCount + 1;
      } else {
        o := RoundTrip(close);
        r := r + [Reading(id, o)];
      }
    }

    /** Sends a request and a ping behind it, then reads up to two responses. */
    method SendPair(first: Answer, ping: Answer) returns (r: seq<Reading>)
      modifies this
      ensures (State(), r) == BatchPairStep(old(State()), first, ping)
    {
      var id := sent;
      SendPackets(first);
      SendPackets(ping);
      r := ReceiveTwoResponses(id);
    }

    /** Reads two responses, the first to request `id`; the first error ends the reading. */
    method ReceiveTwoResponses(id: nat) returns (r: seq<Reading>)
      modifies this
      ensures (State(), r) == ReadTwo(old(State()), id)
    {
      hide ReadResponse;
      r := [];
      for i := 0 to 2
        invariant |r| == i
        invariant i == 0 ==> State() == old(State())
        invariant i == 1 ==> (State(), r[0].outcome) == ReadResponse(old(State()))
        invariant i == 1 ==> !Failed(r[0].outcome) && r[0].request == id
        invariant i == 2 ==> (State(), r) == ReadTwo(old(State()), id)
      {
        var o := OpResponse();
        r := r + [Reading(id + i, o)];
        assert i == 0 ==> r == [Reading(id, o)];
        assert i == 1 ==> r == [r[0], Reading(id + 1, o)];
        if Failed(o) {
          return;
        }
      }
    }
  }
}
