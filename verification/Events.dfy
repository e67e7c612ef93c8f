/** Event counts: the buffer of names and counters exchanged with the server, and the deltas
    reported from it. */
module Events {
  import opened Bytes
  import opened Collections

  const EPB_VERSION1: byte := 1
  const MAX_EPB_LENGTH := 65535
  const MAX_NAME_LENGTH := 255

  type Name = seq<byte>
  type Counts = map<Name, int>

  datatype Event = Event(name: Name, count: int)

  // --- the buffer -------------------------------------------------------------

  function CountOf(counts: Counts, name: Name): int {
    if name in counts then counts[name] else 0
  }

  /** The record of one event: its name with a length byte, and its count plus one. */
  function Record(name: Name, count: int): seq<byte> {
    [|name| % 256] + name + Word32LE(count + 1)
  }

  /** The records of the events from the i-th on. */
  function Records(events: seq<Name>, counts: Counts, i: nat): seq<byte>
    requires i <= |events|
    decreases |events| - i
  {
    if i == |events| then [] else Record(events[i], CountOf(counts, events[i])) + Records(events, counts, i + 1)
  }

  function Epb(events: seq<Name>, counts: Counts): seq<byte> {
    [EPB_VERSION1] + Records(events, counts, 0)
  }

  method BuildEpbSlice(events: seq<Name>, counts: Counts) returns (buf: seq<byte>)
    ensures buf == Epb(events, counts)
  {
    hide *;
    buf := [EPB_VERSION1];
    EpbStart(events, counts);
    for i := 0 to |events|
      invariant buf + Records(events, counts, i) == Epb(events, counts)
    {
      var event := events[i];
      RecordsStep(events, counts, i, buf);
      buf := buf + [|event| % 256];
      buf := buf + event;
      buf := buf + Word32LE(CountOf(counts, event) + 1);
    }
    EpbEnd(events, counts);
    assert buf + [] == buf;
  }

  lemma EpbStart(events: seq<Name>, counts: Counts)
    ensures Epb(events, counts) == [EPB_VERSION1] + Records(events, counts, 0)
  {
  }

  lemma EpbEnd(events: seq<Name>, counts: Counts)
    ensures Records(events, counts, |events|) == []
  {
  }

  lemma RecordsStep(events: seq<Name>, counts: Counts, i: nat, buf: seq<byte>)
    requires i < |events|
    ensures buf + Records(events, counts, i)
            == (((buf + [|events[i]| % 256]) + events[i]) + Word32LE(CountOf(counts, events[i]) + 1))
               + Records(events, counts, i + 1)
  {
    hide Word32LE, CountOf;
    var name, word := events[i], Word32LE(CountOf(counts, events[i]) + 1);
    RecordsCons(events, counts, i);
    hide Records;
    assert buf + Record(name, CountOf(counts, name)) == ((buf + [|name| % 256]) + name) + word;
    Regroup(buf, Record(name, CountOf(counts, name)), Records(events, counts, i + 1));
  }

  lemma RecordsCons(events: seq<Name>, counts: Counts, i: nat)
    requires i < |events|
    ensures Records(events, counts, i) == Record(events[i], CountOf(counts, events[i])) + Records(events, counts, i + 1)
  {
    hide Record, CountOf;
  }

  /** A stored count is the counter less one, in 32 bits. */
  function Stored(b: seq<byte>): int
    requires |b| >= 4
  {
    ToInt32(Int32LE(b) - 1)
  }

  function Put(counts: Counts, name: Name, count: int): Counts {
    if name in counts then counts[name := count] else counts
  }

  /** Parsing stops at the first record that is cut off; the records before it have been
      stored by then. */
  datatype Parsed = Parsed(ok: bool, counts: Counts)

  function ParseRecords(data: seq<byte>, counts: Counts): Parsed
    decreases |data|
  {
    if data == [] then Parsed(true, counts)
    else
      var n: int := data[0];
      if 1 + n > |data| || 1 + n + 4 > |data| then Parsed(false, counts)
      else ParseRecords(data[5 + n..], Put(counts, data[1..1 + n], Stored(data[1 + n..])))
  }

  predicate AllFit(counts: Counts) {
    forall name | name in counts :: FitsInt32(counts[name])
  }

  lemma ToInt32Fits(v: int)
    ensures FitsInt32(ToInt32(v))
  {
  }

  /** Parsing keeps the names and stores 32-bit counts. */
  lemma {:induction false} ParseKeeps(data: seq<byte>, counts: Counts)
    ensures ParseRecords(data, counts).counts.Keys == counts.Keys
    ensures AllFit(counts) ==> AllFit(ParseRecords(data, counts).counts)
    decreases |data|
  {
    if data != [] {
      var n: int := data[0];
      if 1 + n + 4 <= |data| {
        ToInt32Fits(Int32LE(data[1 + n..]) - 1);
        hide ToInt32, Int32LE;
        ParseKeeps(data[5 + n..], Put(counts, data[1..1 + n], Stored(data[1 + n..])));
      }
    }
  }

  /** All names with a count of zero. */
  function Zeroed(counts: Counts): (zero: Counts)
    ensures zero.Keys == counts.Keys
  {
    map name | name in counts :: 0
  }

  lemma ZeroedIs(zero: Counts, counts: Counts)
    requires zero.Keys == counts.Keys && forall name | name in zero :: zero[name] == 0
    ensures zero == Zeroed(counts)
  {
  }

  // --- deltas -------------------------------------------------------------------

  /** The events whose count changed, in the order they were queued. */
  function Report(events: seq<Name>, now: Counts, before: Counts): seq<Event> {
    if events == [] then []
    else
      var last := events[|events| - 1];
      var delta := CountOf(now, last) - CountOf(before, last);
      Report(events[..|events| - 1], now, before) + (if delta == 0 then [] else [Event(last, delta)])
  }

  /** The total reported for a name. */
  function SumFor(events: seq<Event>, name: Name): int {
    if events == [] then 0
    else
      var last := events[|events| - 1];
      SumFor(events[..|events| - 1], name) + (if last.name == name then last.count else 0)
  }

  lemma {:induction false} SumAppend(a: seq<Event>, b: seq<Event>, name: Name)
    ensures SumFor(a + b, name) == SumFor(a, name) + SumFor(b, name)
    decreases |b|
  {
    if b == [] {
      assert a + b == a;
    } else {
      assert (a + b)[..|a| + |b| - 1] == a + b[..|b| - 1];
      SumAppend(a, b[..|b| - 1], name);
    }
  }

  /** How often a name was queued. */
  function Times(events: seq<Name>, name: Name): nat {
    if events == [] then 0
    else Times(events[..|events| - 1], name) + (if events[|events| - 1] == name then 1 else 0)
  }

  lemma {:induction false} QueuedTimes(events: seq<Name>, name: Name)
    ensures Times(events, name) > 0 <==> name in events
  {
    if events != [] {
      QueuedTimes(events[..|events| - 1], name);
      assert events == events[..|events| - 1] + [events[|events| - 1]];
    }
  }

  /** The same change, so many times over. */
  function Multiple(times: nat, change: int): int {
    times * change
  }

  lemma MultipleAdds(times: nat, a: int, b: int)
    ensures Multiple(times, a) + Multiple(times, b) == Multiple(times, a + b)
    ensures Multiple(times, 0) == 0
  {
  }

  lemma MultipleOneMore(times: nat, a: int)
    ensures Multiple(times + 1, a) == Multiple(times, a) + a
    ensures Multiple(0, a) == 0
  {
  }

  lemma MultipleCancels(times: nat, a: int, b: int)
    requires times > 0
    ensures Multiple(times, a) == Multiple(times, b) <==> a == b
  {
    if a < b {
      Grows(times, b - a);
      MultipleAdds(times, a, b - a);
    } else if b < a {
      Grows(times, a - b);
      MultipleAdds(times, b, a - b);
    }
  }

  lemma Grows(times: nat, change: int)
    requires times > 0 && change > 0
    ensures Multiple(times, change) > 0
  {
  }

  /** A report holds the change of each name, once for every time the name was queued. */
  lemma {:induction false} ReportSums(events: seq<Name>, now: Counts, before: Counts, name: Name)
    ensures SumFor(Report(events, now, before), name)
            == Multiple(Times(events, name), CountOf(now, name) - CountOf(before, name))
  {
    hide *;
    var change := CountOf(now, name) - CountOf(before, name);
    if events == [] {
      NothingQueued(now, before, name);
      MultipleOneMore(0, change);
    } else {
      var front, last := events[..|events| - 1], events[|events| - 1];
      var delta := CountOf(now, last) - CountOf(before, last);
      ReportSums(front, now, before, name);
      ReportSnoc(front, last, now, before);
      TimesSnoc(front, last, name);
      assert events == front + [last];
      SumOfOne(last, delta, name);
      SumAppend(Report(front, now, before), if delta == 0 then [] else [Event(last, delta)], name);
      MultipleOneMore(Times(front, name), change);
    }
  }

  lemma NothingQueued(now: Counts, before: Counts, name: Name)
    ensures Report([], now, before) == [] && SumFor([], name) == 0 && Times([], name) == 0
  {
  }

  lemma ReportSnoc(front: seq<Name>, last: Name, now: Counts, before: Counts)
    ensures var delta := CountOf(now, last) - CountOf(before, last);
            Report(front + [last], now, before)
            == Report(front, now, before) + (if delta == 0 then [] else [Event(last, delta)])
  {
    assert (front + [last])[..|front|] == front;
    hide CountOf;
  }

  lemma TimesSnoc(front: seq<Name>, last: Name, name: Name)
    ensures Times(front + [last], name) == if last == name then Times(front, name) + 1 else Times(front, name)
  {
    assert (front + [last])[..|front|] == front;
  }

  lemma SumOfOne(last: Name, delta: int, name: Name)
    ensures SumFor(if delta == 0 then [] else [Event(last, delta)], name) == if last == name then delta else 0
  {
    assert [Event(last, delta)][..0] == [];
  }

  /** Events are reported in the order they were queued: the front's, one event's if it
      changed, and the rest's. */
  lemma {:induction false} ReportInOrder(a: seq<Name>, last: Name, b: seq<Name>, now: Counts, before: Counts)
    ensures var change := CountOf(now, last) - CountOf(before, last);
            var own := if change == 0 then [] else [Event(last, change)];
            Report((a + [last]) + b, now, before) == (Report(a, now, before) + own) + Report(b, now, before)
    decreases |b|
  {
    hide *;
    ReportSnoc(a, last, now, before);
    if b == [] {
      assert (a + [last]) + b == a + [last];
      NothingQueued(now, before, last);
    } else {
      var front, end := b[..|b| - 1], b[|b| - 1];
      ReportInOrder(a, last, front, now, before);
      ReportSnoc((a + [last]) + front, end, now, before);
      ReportSnoc(front, end, now, before);
      assert b == front + [end];
      Regroup(a + [last], front, [end]);
      Regrouped(Report(a + [last], now, before), Report(front, now, before), Report((a + [last]) + front, now, before),
                CountOf(now, end) - CountOf(before, end), end);
    }
  }

  lemma Regrouped(a: seq<Event>, b: seq<Event>, both: seq<Event>, change: int, end: Name)
    requires both == a + b
    ensures both + (if change == 0 then [] else [Event(end, change)])
            == a + (b + (if change == 0 then [] else [Event(end, change)]))
  {
  }

  /** A name queued twice has its change reported twice. */
  lemma TwiceQueuedTwiceReported(a: Name)
    ensures SumFor(Report([a, a], map[a := 5], map[a := 0]), a) == 10
  {
    ReportSums([a, a], map[a := 5], map[a := 0], a);
    assert [a, a][..1] == [a] && [a][..0] == [];
    assert Times([a], a) == 1 && Times([a, a], a) == 2;
  }

  lemma {:induction false} NoChangeNoReport(events: seq<Name>, now: Counts, before: Counts)
    requires forall i | 0 <= i < |events| :: CountOf(now, events[i]) == CountOf(before, events[i])
    ensures Report(events, now, before) == []
  {
    if events != [] {
      NoChangeNoReport(events[..|events| - 1], now, before);
    }
  }

  // --- the driver's own buffer ------------------------------------------------------

  /** A record written for a count is stored back as that count. */
  lemma RecordReadsBack(name: Name, count: int, rest: seq<byte>, counts: Counts)
    requires |name| <= MAX_NAME_LENGTH && FitsInt32(count)
    ensures ParseRecords(Record(name, count) + rest, counts) == ParseRecords(rest, Put(counts, name, count))
  {
    var word := Word32LE(count + 1);
    var data := [|name| % 256] + name + word + rest;
    assert |word| == 4;
    assert data[1..1 + |name|] == name;
    assert data[1 + |name|..] == word + rest;
    assert data[5 + |name|..] == rest;
    StoredBack(count, rest);
    hide Word32LE, Stored;
    assert data[0] as int == |name|;
    assert Record(name, count) + rest == data;
  }

  lemma StoredBack(count: int, rest: seq<byte>)
    requires FitsInt32(count)
    ensures Stored(Word32LE(count + 1) + rest) == count
  {
    assert |Word32LE(count + 1)| == 4;
    Int32BEPrefix(Word32LE(count + 1), rest);
    Int32RoundTrip(count + 1);
    WrapBack(count);
    hide Word32LE, UInt32LE, ToInt32;
  }

  lemma WrapBack(count: int)
    requires FitsInt32(count)
    ensures ToInt32(ToInt32(count + 1) - 1) == count
  {
  }

  /** The counts with those of the events from the i-th on replaced. */
  function PutFrom(events: seq<Name>, counts: Counts, into: Counts, i: nat): Counts
    requires i <= |events|
    decreases |events| - i
  {
    if i == |events| then into else PutFrom(events, counts, Put(into, events[i], CountOf(counts, events[i])), i + 1)
  }

  lemma CountFits(counts: Counts, name: Name)
    requires AllFit(counts)
    ensures FitsInt32(CountOf(counts, name))
  {
  }

  lemma {:induction false} RecordsReadBack(events: seq<Name>, counts: Counts, into: Counts, i: nat)
    requires i <= |events| && AllFit(counts) && forall k | 0 <= k < |events| :: |events[k]| <= MAX_NAME_LENGTH
    ensures ParseRecords(Records(events, counts, i), into) == Parsed(true, PutFrom(events, counts, into, i))
    decreases |events| - i
  {
    if i < |events| {
      hide Record, ParseRecords, Put, CountOf;
      var name, count := events[i], CountOf(counts, events[i]);
      CountFits(counts, name);
      RecordReadsBack(name, count, Records(events, counts, i + 1), into);
      RecordsReadBack(events, counts, Put(into, name, count), i + 1);
    } else {
      ParseEnd(into);
    }
  }

  /** Putting every event's own count back into the zeroed counts restores them. */
  lemma {:induction false} PutAllBack(events: seq<Name>, counts: Counts, into: Counts, i: nat)
    requires i <= |events| && into.Keys == counts.Keys
    requires forall name | name in counts :: name in events
    requires forall name | name in counts :: into[name] == counts[name] || name in events[i..]
    ensures PutFrom(events, counts, into, i) == counts
    decreases |events| - i
  {
    if i == |events| {
      assert events[i..] == [];
      assert into == counts;
    } else {
      var name := events[i];
      var next := Put(into, name, CountOf(counts, name));
      assert events[i..] == [name] + events[i + 1..];
      PutAllBack(events, counts, next, i + 1);
    }
  }

  /** Parsing the buffer built from the current counts leaves every count as it is. */
  lemma OwnBuffer(events: seq<Name>, counts: Counts)
    requires AllFit(counts) && forall k | 0 <= k < |events| :: |events[k]| <= MAX_NAME_LENGTH
    requires forall name | name in counts :: name in events
    ensures Epb(events, counts) != [] && Epb(events, counts)[0] == EPB_VERSION1
    ensures ParseRecords(Epb(events, counts)[1..], Zeroed(counts)) == Parsed(true, counts)
  {
    assert Epb(events, counts)[1..] == Records(events, counts, 0);
    RecordsReadBack(events, counts, Zeroed(counts), 0);
    assert events[0..] == events;
    hide Records, ParseRecords, PutFrom;
    PutAllBack(events, counts, Zeroed(counts), 0);
  }

  // --- the state of a subscription ----------------------------------------------------

  datatype Refusal = AlreadyRunning | NeedsEvent | NameTooLong | BufferTooLarge

  /** What one buffer does: the counts behind it, and the report unless it is refused. */
  datatype Taken = Taken(counts: Counts, report: Option<seq<Event>>)

  /** A buffer without the version byte changes nothing. One that is cut off later reports
      nothing either, but the records before the cut are stored and the other counts reset. */
  function Take(events: seq<Name>, counts: Counts, data: seq<byte>): Taken {
    if data == [] || data[0] != EPB_VERSION1 then Taken(counts, None)
    else
      var parsed := ParseRecords(data[1..], Zeroed(counts));
      Taken(parsed.counts, if parsed.ok then Some(Report(events, parsed.counts, counts)) else None)
  }

  function ReportedBy(t: Taken): seq<Event> {
    match t.report
    case None => []
    case Some(events) => events
  }

  /** One buffer reports the whole change of a queued name exactly when it parses to its end
      or the name's count is what it was. */
  lemma WholeChangeReported(events: seq<Name>, counts: Counts, data: seq<byte>, name: Name)
    requires name in events
    ensures var t := Take(events, counts, data);
            var change := CountOf(t.counts, name) - CountOf(counts, name);
            SumFor(ReportedBy(t), name) == Multiple(Times(events, name), change) <==> t.report.Some? || change == 0
  {
    hide *;
    var t := Take(events, counts, data);
    var change := CountOf(t.counts, name) - CountOf(counts, name);
    QueuedTimes(events, name);
    CallSums(events, counts, data, name);
    MultipleCancels(Times(events, name), change, 0);
  }

  /** A buffer cut off behind its first record stores the count of that record and reports
      nothing. */
  lemma CutBufferHidesChange()
    ensures Take([[97]], map[[97] := 0], [1, 1, 97, 6, 0, 0, 0, 255]) == Taken(map[[97] := 5], None)
  {
    var data: seq<byte> := [1, 97, 6, 0, 0, 0, 255];
    var counts: Counts := map[[97] := 0];
    assert [1, 1, 97, 6, 0, 0, 0, 255][1..] == data;
    assert Zeroed(counts) == counts;
    assert data[1..2] == [97] && data[2..] == [6, 0, 0, 0, 255] && data[6..] == [255];
    assert Stored([6, 0, 0, 0, 255]) == 5;
    assert Put(counts, [97], 5) == map[[97] := 5];
    assert ParseRecords([255], map[[97] := 5]) == Parsed(false, map[[97] := 5]);
  }

  // --- a server's buffer ----------------------------------------------------------------

  /** A name and its counter, as a server tells them. */
  datatype Told = Told(name: Name, counter: nat)

  predicate Tellable(told: seq<Told>) {
    forall i | 0 <= i < |told| :: |told[i].name| <= 255 && told[i].counter < 0x1_0000_0000
  }

  /** One record: the length of the name, the name, and the counter with its low byte first. */
  function ServerRecord(name: Name, c: nat): seq<byte>
    requires |name| <= 255 && c < 0x1_0000_0000
  {
    [|name|] + name + [c % 256, c / 256 % 256, c / 256 / 256 % 256, c / 256 / 256 / 256]
  }

  function ServerRecords(told: seq<Told>): seq<byte>
    requires Tellable(told)
  {
    if told == [] then [] else ServerRecord(told[0].name, told[0].counter) + ServerRecords(told[1..])
  }

  /** What is told of a name last. */
  function LastTold(told: seq<Told>, name: Name): Option<nat> {
    if told == [] then None
    else if LastTold(told[1..], name).Some? then LastTold(told[1..], name)
    else if told[0].name == name then Some(told[0].counter)
    else None
  }

  /** A counter less one, as a signed 32-bit integer. */
  function LessOne(counter: nat): int {
    if counter <= 0x8000_0000 then counter - 1 else counter - 0x1_0000_0001
  }

  lemma CounterStored(c: nat, rest: seq<byte>)
    requires c < 0x1_0000_0000
    ensures Stored(Word32LE(c) + rest) == LessOne(c)
  {
    assert |Word32LE(c)| == 4;
    hide Word32LE, UInt32LE, ToInt32, LessOne;
    Int32BEPrefix(Word32LE(c), rest);
    Int32RoundTrip(c);
    OneLess(c);
  }

  lemma OneLess(c: nat)
    requires c < 0x1_0000_0000
    ensures ToInt32(ToInt32(c) - 1) == LessOne(c)
  {
  }

  lemma ServerWord(c: nat)
    requires c < 0x1_0000_0000
    ensures c / 256 / 256 / 256 < 256
    ensures [c % 256, c / 256 % 256, c / 256 / 256 % 256, c / 256 / 256 / 256] == Word32LE(c)
  {
  }

  lemma ServerRecordParsed(name: Name, c: nat, rest: seq<byte>, counts: Counts)
    requires |name| <= 255 && c < 0x1_0000_0000
    ensures ParseRecords(ServerRecord(name, c) + rest, counts) == ParseRecords(rest, Put(counts, name, LessOne(c)))
  {
    ServerWord(c);
    var word := Word32LE(c);
    var data := ServerRecord(name, c) + rest;
    CounterStored(c, rest);
    hide Stored, LessOne, Put, Word32LE;
    assert data == [|name|] + name + (word + rest);
    assert data[1..1 + |name|] == name;
    assert data[1 + |name|..] == word + rest;
    assert data[5 + |name|..] == rest;
  }

  /** Every name holds the counter told of it last, less one, or what it held before. */
  predicate Holds(told: seq<Told>, before: Counts, after: Counts) {
    && after.Keys == before.Keys
    && forall name | name in before ::
         after[name] == if LastTold(told, name).Some? then LessOne(LastTold(told, name).value) else before[name]
  }

  lemma HoldsCons(told: seq<Told>, before: Counts, after: Counts)
    requires told != []
    requires Holds(told[1..], Put(before, told[0].name, LessOne(told[0].counter)), after)
    ensures Holds(told, before, after)
  {
    hide LessOne;
    assert Put(before, told[0].name, LessOne(told[0].counter)).Keys == before.Keys;
  }

  /** A server's records are stored in order. */
  lemma {:induction false} ServerRecordsStore(told: seq<Told>, counts: Counts)
    requires Tellable(told)
    ensures var parsed := ParseRecords(ServerRecords(told), counts);
            parsed.ok && Holds(told, counts, parsed.counts)
    decreases |told|
  {
    if told == [] {
      ParseEnd(counts);
    } else {
      hide ParseRecords, LessOne, Put, ServerRecord, Holds;
      ServerRecordParsed(told[0].name, told[0].counter, ServerRecords(told[1..]), counts);
      var next := Put(counts, told[0].name, LessOne(told[0].counter));
      ServerRecordsStore(told[1..], next);
      HoldsCons(told, counts, ParseRecords(ServerRecords(told[1..]), next).counts);
    }
  }

  /** Of a server's buffer every name takes the counter told of it last, less one, or zero, and
      the changes are reported. */
  lemma ServerBufferTaken(events: seq<Name>, counts: Counts, told: seq<Told>)
    requires Tellable(told)
    ensures var t := Take(events, counts, [1] + ServerRecords(told));
            && Holds(told, Zeroed(counts), t.counts)
            && t.report == Some(Report(events, t.counts, counts))
  {
    var data := [1] + ServerRecords(told);
    assert data[1..] == ServerRecords(told);
    ServerRecordsStore(told, Zeroed(counts));
    hide ParseRecords, ServerRecords, Holds, Report;
  }

  /** What the driver's buffer tells: of every event its count plus one, 1 at first. */
  function OwnTold(events: seq<Name>, counts: Counts): (told: seq<Told>)
    ensures |told| == |events|
  {
    seq(|events|, k requires 0 <= k < |events| =>
      Told(events[k], (if events[k] in counts then counts[events[k]] + 1 else 1) % 0x1_0000_0000))
  }

  lemma SentRecord(name: Name, count: int)
    requires |name| <= 255
    ensures Record(name, count) == ServerRecord(name, (count + 1) % 0x1_0000_0000)
  {
    ServerWord((count + 1) % 0x1_0000_0000);
    WordsKeepLowBits(count + 1);
    UnsignedBytesRoundTrip(Word32LE(count + 1));
    hide Word32LE, UInt32LE;
  }

  lemma {:induction false} SentRecords(events: seq<Name>, counts: Counts, i: nat)
    requires i <= |events| && forall k | 0 <= k < |events| :: |events[k]| <= 255
    ensures Tellable(OwnTold(events, counts)[i..])
    ensures Records(events, counts, i) == ServerRecords(OwnTold(events, counts)[i..])
    decreases |events| - i
  {
    hide Record, ServerRecord;
    if i < |events| {
      SentRecord(events[i], CountOf(counts, events[i]));
      SentRecords(events, counts, i + 1);
      assert OwnTold(events, counts)[i..][1..] == OwnTold(events, counts)[i + 1..];
    }
  }

  /** The driver's buffer is the version byte and the records of a server that knows its
      counts. */
  lemma SentBuffer(events: seq<Name>, counts: Counts)
    requires forall k | 0 <= k < |events| :: |events[k]| <= 255
    ensures Tellable(OwnTold(events, counts))
    ensures Epb(events, counts) == [1] + ServerRecords(OwnTold(events, counts))
  {
    assert OwnTold(events, counts)[0..] == OwnTold(events, counts);
    SentRecords(events, counts, 0);
    hide Records, ServerRecords, Tellable;
  }

  // --- runs -----------------------------------------------------------------------------

  /** The counts behind a run of buffers and everything reported on the way. */
  datatype Total = Total(counts: Counts, reported: seq<Event>)

  function History(events: seq<Name>, start: Counts, buffers: seq<seq<byte>>): Total {
    if buffers == [] then Total(start, [])
    else
      var before := History(events, start, buffers[..|buffers| - 1]);
      var t := Take(events, before.counts, buffers[|buffers| - 1]);
      Total(t.counts, before.reported + ReportedBy(t))
  }

  /** The changes of a name made by the refused buffers of a run. */
  function Hidden(events: seq<Name>, start: Counts, buffers: seq<seq<byte>>, name: Name): int {
    if buffers == [] then 0
    else
      var front := buffers[..|buffers| - 1];
      var before := History(events, start, front);
      var t := Take(events, before.counts, buffers[|buffers| - 1]);
      Hidden(events, start, front, name)
      + (if t.report.None? then CountOf(t.counts, name) - CountOf(before.counts, name) else 0)
  }

  lemma HistorySnoc(events: seq<Name>, start: Counts, buffers: seq<seq<byte>>, data: seq<byte>)
    ensures var before := History(events, start, buffers);
            var t := Take(events, before.counts, data);
            History(events, start, buffers + [data]) == Total(t.counts, before.reported + ReportedBy(t))
  {
    assert (buffers + [data])[..|buffers|] == buffers;
    hide Take;
  }

  lemma HiddenSnoc(events: seq<Name>, start: Counts, buffers: seq<seq<byte>>, data: seq<byte>, name: Name)
    ensures var before := History(events, start, buffers);
            var t := Take(events, before.counts, data);
            Hidden(events, start, buffers + [data], name)
            == Hidden(events, start, buffers, name)
               + (if t.report.None? then CountOf(t.counts, name) - CountOf(before.counts, name) else 0)
  {
    assert (buffers + [data])[..|buffers|] == buffers;
    hide Take, CountOf;
  }

  /** The change of a name over a run that its reports account for. */
  function Accountable(events: seq<Name>, start: Counts, buffers: seq<seq<byte>>, name: Name): int {
    CountOf(History(events, start, buffers).counts, name) - CountOf(start, name) - Hidden(events, start, buffers, name)
  }

  /** Over any run of buffers the deltas reported for a name sum to the change of its count
      less what refused buffers changed, once for every time the name was queued. */
  lemma {:induction false} Telescoping(events: seq<Name>, start: Counts, buffers: seq<seq<byte>>, name: Name)
    ensures SumFor(History(events, start, buffers).reported, name)
            == Multiple(Times(events, name), Accountable(events, start, buffers, name))
  {
    if buffers == [] {
      MultipleAdds(Times(events, name), 0, 0);
    } else {
      var front, data := buffers[..|buffers| - 1], buffers[|buffers| - 1];
      hide *;
      assert buffers == front + [data];
      Telescoping(events, start, front, name);
      TelescopingStep(events, start, front, data, name);
    }
  }

  lemma TelescopingStep(events: seq<Name>, start: Counts, buffers: seq<seq<byte>>, data: seq<byte>, name: Name)
    requires SumFor(History(events, start, buffers).reported, name)
             == Multiple(Times(events, name), Accountable(events, start, buffers, name))
    ensures SumFor(History(events, start, buffers + [data]).reported, name)
            == Multiple(Times(events, name), Accountable(events, start, buffers + [data], name))
  {
    hide History, Hidden, Take, ReportedBy, SumFor, Times, Multiple, CountOf;
    var before := History(events, start, buffers);
    var t := Take(events, before.counts, data);
    HistorySnoc(events, start, buffers, data);
    HiddenSnoc(events, start, buffers, data, name);
    CallSums(events, before.counts, data, name);
    SumAppend(before.reported, ReportedBy(t), name);
    var told := if t.report.Some? then CountOf(t.counts, name) - CountOf(before.counts, name) else 0;
    MultipleAdds(Times(events, name), Accountable(events, start, buffers, name), told);
  }

  /** What one buffer reports for a name. */
  lemma CallSums(events: seq<Name>, counts: Counts, data: seq<byte>, name: Name)
    ensures var t := Take(events, counts, data);
            SumFor(ReportedBy(t), name)
            == Multiple(Times(events, name),
                        if t.report.Some? then CountOf(t.counts, name) - CountOf(counts, name) else 0)
  {
    var t := Take(events, counts, data);
    MultipleAdds(Times(events, name), 0, 0);
    if t.report.Some? {
      ReportSums(events, t.counts, counts, name);
    }
  }

  /** Over a run a queued name's whole change is reported, once for every time it was queued,
      exactly when what refused buffers changed adds up to nothing; it is then reported once
      exactly when the name was queued once or did not change. */
  lemma ReportedInFull(events: seq<Name>, start: Counts, buffers: seq<seq<byte>>, name: Name)
    requires name in events
    ensures var total := History(events, start, buffers);
            var change := CountOf(total.counts, name) - CountOf(start, name);
            var hidden := Hidden(events, start, buffers, name);
            (SumFor(total.reported, name) == Multiple(Times(events, name), change) <==> hidden == 0)
            && (hidden == 0 ==> (SumFor(total.reported, name) == change <==> Times(events, name) == 1 || change == 0))
  {
    var total := History(events, start, buffers);
    var change := CountOf(total.counts, name) - CountOf(start, name);
    hide History, Hidden, Times, Multiple, SumFor, CountOf;
    QueuedTimes(events, name);
    Telescoping(events, start, buffers, name);
    MultipleCancels(Times(events, name), change - Hidden(events, start, buffers, name), change);
    OnlyOnce(Times(events, name), change);
  }

  lemma OnlyOnce(times: nat, change: int)
    requires times > 0
    ensures Multiple(times, change) == change <==> times == 1 || change == 0
  {
    MultipleOneMore(times - 1, change);
    if times > 1 {
      MultipleAdds(times - 1, 0, 0);
      MultipleCancels(times - 1, change, 0);
    } else {
      MultipleOneMore(0, change);
    }
    hide Multiple;
  }

  predicate Refused(events: seq<Name>, start: Counts, buffers: seq<seq<byte>>, i: nat)
    requires i < |buffers|
  {
    var t := Take(events, History(events, start, buffers[..i]).counts, buffers[i]);
    t.report.None? && buffers[i] != [] && buffers[i][0] == EPB_VERSION1
  }

  /** A run in which every buffer with the version byte parses to its end hides nothing. */
  lemma {:induction false} ParsedHidesNothing(events: seq<Name>, start: Counts, buffers: seq<seq<byte>>, name: Name)
    requires forall i | 0 <= i < |buffers| :: !Refused(events, start, buffers, i)
    ensures Hidden(events, start, buffers, name) == 0
  {
    if buffers != [] {
      var front, data := buffers[..|buffers| - 1], buffers[|buffers| - 1];
      assert buffers == front + [data];
      forall i | 0 <= i < |front|
        ensures !Refused(events, start, front, i)
      {
        assert front[..i] == buffers[..i];
        assert !Refused(events, start, buffers, i);
      }
      assert !Refused(events, start, buffers, |front|);
      var counts := History(events, start, front).counts;
      assert Take(events, counts, data).report.None? ==> Take(events, counts, data).counts == counts;
      hide *;
      ParsedHidesNothing(events, start, front, name);
      HiddenSnoc(events, start, front, data, name);
    }
  }

  /** The state of a subscription: the names are those of the counts, and counts and reports
      are those of the run of buffers taken so far, from zero. */
  ghost predicate Sound(running: bool, events: seq<Name>, counts: Counts, start: Counts,
                        buffers: seq<seq<byte>>, reported: seq<Event>)
  {
    && (!running ==> events == [] && counts == map[])
    && (forall name :: name in counts <==> name in events)
    && (forall i | 0 <= i < |events| :: |events[i]| <= MAX_NAME_LENGTH)
    && AllFit(counts)
    && (forall name | name in start :: start[name] == 0)
    && Total(counts, reported) == History(events, start, buffers)
  }

  lemma SoundStart(running: bool, events: seq<Name>, counts: Counts)
    requires !running ==> events == [] && counts == map[]
    requires forall name :: name in counts <==> name in events
    requires forall i | 0 <= i < |events| :: |events[i]| <= MAX_NAME_LENGTH
    requires forall name | name in counts :: counts[name] == 0
    ensures Sound(running, events, counts, counts, [], [])
  {
  }

  /** Taking in a buffer keeps a subscription sound. */
  lemma SoundTake(running: bool, events: seq<Name>, counts: Counts, start: Counts,
                  buffers: seq<seq<byte>>, reported: seq<Event>, data: seq<byte>)
    requires Sound(running, events, counts, start, buffers, reported)
    ensures var t := Take(events, counts, data);
            Sound(running, events, t.counts, start, buffers + [data], reported + ReportedBy(t))
  {
    HistorySnoc(events, start, buffers, data);
    TakeKeeps(events, counts, data);
    var after := Take(events, counts, data).counts;
    assert counts == map[] ==> after == map[];
    hide AllFit, History, Take, ReportedBy;
    forall name
      ensures name in after <==> name in events
    {
      assert name in after.Keys <==> name in counts.Keys;
    }
  }

  class RemoteEvent {
    var events: seq<Name>
    var counts: Counts
    var prevCounts: Counts
    var running: bool
    /** The zero counts and the buffers taken since the events were queued, and all that was
        reported for them. */
    ghost var start: Counts
    ghost var buffers: seq<seq<byte>>
    ghost var reported: seq<Event>

    ghost predicate Valid()
      reads this
    {
      Sound(running, events, counts, start, buffers, reported)
    }

    constructor ()
      ensures Valid() && !running && events == []
    {
      events := [];
      counts, prevCounts := map[], map[];
      running := false;
      start, buffers, reported := map[], [], [];
    }

    /** Starts a subscription. */
    method QueueEvents(names: seq<Name>) returns (refused: Option<Refusal>)
      requires Valid()
      modifies this
      ensures Valid()
      ensures refused == if old(running) then Some(AlreadyRunning)
                         else if names == [] then Some(NeedsEvent)
                         else if exists i :: 0 <= i < |names| && |names[i]| > 255 then Some(NameTooLong)
                         else if |Epb(names, map[])| > 65535 then Some(BufferTooLarge)
                         else None
      ensures refused == None ==>
                running && events == names && forall name | name in names :: CountOf(counts, name) == 0
      ensures refused.Some? ==> running == old(running) && events == old(events) && counts == old(counts)
    {
      if running {
        return Some(AlreadyRunning);
      }
      if |names| == 0 {
        return Some(NeedsEvent);
      }
      for i := 0 to |names|
        invariant forall k | 0 <= k < i :: |names[k]| <= MAX_NAME_LENGTH
      {
        if |names[i]| > MAX_NAME_LENGTH {
          return Some(NameTooLong);
        }
      }
      var buf := BuildEpbSlice(names, map[]);
      if |buf| > MAX_EPB_LENGTH {
        return Some(BufferTooLarge);
      }
      running := true;
      hide Epb;
      Register(names);
      start, buffers, reported := counts, [], [];
      SoundStart(running, events, counts);
      hide Sound;
      return None;
    }

    /** Enters the names with counts of zero. */
    method Register(names: seq<Name>)
      requires events == []
      modifies `events, `counts, `prevCounts
      ensures events == names && prevCounts == counts
      ensures forall name :: name in counts <==> name in names
      ensures forall name | name in counts :: counts[name] == 0
    {
      counts, prevCounts := map[], map[];
      for i := 0 to |names|
        invariant events == names[..i] && prevCounts == counts
        invariant forall name :: name in counts <==> name in names[..i]
        invariant forall name | name in counts :: counts[name] == 0
      {
        assert names[..i + 1] == names[..i] + [names[i]];
        events := events + [names[i]];
        counts := counts[names[i] := 0];
        prevCounts := prevCounts[names[i] := 0];
      }
      assert names[..|names|] == names;
    }

    method CancelEvents()
      requires Valid()
      modifies this
      ensures Valid() && !running && events == [] && counts == map[]
    {
      events := [];
      counts, prevCounts := map[], map[];
      running := false;
      start, buffers, reported := map[], [], [];
    }

    method BuildEpb() returns (buf: seq<byte>)
      ensures buf == Epb(events, counts)
    {
      buf := BuildEpbSlice(events, counts);
    }

    /** Takes in a buffer of the server and reports what changed. */
    method GetEventCounts(data: seq<byte>) returns (r: Option<seq<Event>>)
      requires Valid()
      modifies `counts, `prevCounts, `reported, `buffers
      ensures Valid()
      ensures Taken(counts, r) == Take(events, old(counts), data)
      ensures prevCounts == if data == [] || data[0] != EPB_VERSION1 then old(prevCounts) else old(counts)
      ensures buffers == old(buffers) + [data]
    {
      hide Sound, Take, ReportedBy, ParseRecords, Zeroed, Report;
      SoundTake(running, events, counts, start, buffers, reported, data);
      buffers := buffers + [data];
      if |data| == 0 || data[0] != EPB_VERSION1 {
        TakeRefuses(events, counts, data);
        assert reported + [] == reported;
        return None;
      }
      TakeParses(events, counts, data);
      r := TakeRecords(data);
      if r == None {
        assert reported + [] == reported;
      } else {
        reported := reported + r.value;
      }
    }

    /** The part behind the version check. */
    method TakeRecords(data: seq<byte>) returns (r: Option<seq<Event>>)
      requires |data| > 0
      modifies `counts, `prevCounts
      ensures prevCounts == old(counts)
      ensures var parsed := ParseRecords(data[1..], Zeroed(old(counts)));
              counts == parsed.counts && r == if parsed.ok then Some(Report(events, counts, old(counts))) else None
    {
      hide *;
      ResetCounts();
      var ok := StoreRecords(data);
      if !ok {
        return None;
      }
      var result := Changes();
      return Some(result);
    }

    /** Moves the counts to the previous ones and starts them over from zero. */
    method ResetCounts()
      modifies `counts, `prevCounts
      ensures prevCounts == old(counts) && counts == Zeroed(old(counts))
    {
      hide *;
      prevCounts := map[];
      var left := counts.Keys;
      while |left| > 0
        invariant left <= counts.Keys == old(counts).Keys
        invariant prevCounts.Keys == counts.Keys - left
        invariant forall k | k in left :: counts[k] == old(counts)[k]
        invariant forall k | k in prevCounts :: counts[k] == 0 && prevCounts[k] == old(counts)[k]
      {
        HasElement(left);
        var k: Name :| k in left;
        prevCounts := prevCounts[k := counts[k]];
        counts := counts[k := 0];
        left := left - {k};
      }
      assert left == {};
      ZeroedIs(counts, old(counts));
      assert prevCounts.Keys == old(counts).Keys;
    }

    /** Stores the counts of the records behind the version byte, up to the first one that is
        cut off. */
    method StoreRecords(data: seq<byte>) returns (ok: bool)
      requires |data| > 0
      modifies `counts
      ensures Parsed(ok, counts) == ParseRecords(data[1..], old(counts))
    {
      hide ParseRecords, Stored;
      var i := 1;
      while i < |data|
        invariant 1 <= i <= |data|
        invariant ParseRecords(data[i..], counts) == ParseRecords(data[1..], old(counts))
      {
        ParseOne(data, i, counts);
        var length: int := data[i];
        i := i + 1;
        if i + length > |data| {
          return false;
        }
        var eventName := data[i..i + length];
        i := i + length;
        if i + 4 > |data| {
          return false;
        }
        if eventName in counts {
          counts := counts[eventName := Stored(data[i..])];
        }
        i := i + 4;
      }
      assert data[i..] == [];
      ParseEnd(counts);
      return true;
    }

    /** The events whose count is not the previous one. */
    method Changes() returns (result: seq<Event>)
      ensures result == Report(events, counts, prevCounts)
    {
      result := [];
      for i := 0 to |events|
        invariant result == Report(events[..i], counts, prevCounts)
      {
        assert events[..i + 1][..i] == events[..i];
        var count := CountOf(counts, events[i]) - CountOf(prevCounts, events[i]);
        if count == 0 {
          continue;
        }
        result := result + [Event(events[i], count)];
      }
      assert events[..|events|] == events;
    }
  }

  /** A buffer changes neither the names nor the range of the counts. */
  lemma TakeKeeps(events: seq<Name>, counts: Counts, data: seq<byte>)
    ensures Take(events, counts, data).counts.Keys == counts.Keys
    ensures AllFit(counts) ==> AllFit(Take(events, counts, data).counts)
  {
    if data != [] {
      ParseKeeps(data[1..], Zeroed(counts));
    }
  }

  lemma TakeRefuses(events: seq<Name>, counts: Counts, data: seq<byte>)
    requires data == [] || data[0] != EPB_VERSION1
    ensures Take(events, counts, data) == Taken(counts, None) && ReportedBy(Take(events, counts, data)) == []
  {
  }

  lemma TakeParses(events: seq<Name>, counts: Counts, data: seq<byte>)
    requires data != [] && data[0] == EPB_VERSION1
    ensures var parsed := ParseRecords(data[1..], Zeroed(counts));
            var report := if parsed.ok then Some(Report(events, parsed.counts, counts)) else None;
            && Take(events, counts, data) == Taken(parsed.counts, report)
            && ReportedBy(Take(events, counts, data)) == if report.Some? then report.value else []
  {
    hide ParseRecords, Zeroed, Report;
  }

  lemma ParseEnd(counts: Counts)
    ensures ParseRecords([], counts) == Parsed(true, counts)
  {
  }

  lemma ParseOne(data: seq<byte>, i: nat, counts: Counts)
    requires i < |data|
    ensures var n: int := data[i];
            ParseRecords(data[i..], counts)
            == if i + 1 + n > |data| || i + 1 + n + 4 > |data| then Parsed(false, counts)
               else ParseRecords(data[i + 5 + n..], Put(counts, data[i + 1..i + 1 + n], Stored(data[i + 1 + n..])))
  {
    hide Stored, Put;
    var rest := data[i..];
    var n: int := rest[0];
    if 1 + n + 4 <= |rest| {
      assert rest[1..1 + n] == data[i + 1..i + 1 + n];
      assert rest[1 + n..] == data[i + 1 + n..];
      assert rest[5 + n..] == data[i + 5 + n..];
    }
  }

  /** Whatever the state, the driver's own buffer reports nothing and keeps every count. */
  method OwnBufferIsQuiet(e: RemoteEvent) returns (r: Option<seq<Event>>)
    requires e.Valid()
    modifies e
    ensures e.Valid() && e.counts == old(e.counts) && r == Some([])
  {
    var buf := e.BuildEpb();
    OwnBuffer(e.events, e.counts);
    NoChangeNoReport(e.events, e.counts, e.counts);
    hide *;
    r := e.GetEventCounts(buf);
  }
}
