/** Fetching: the chunks of a fetch response, with inline blobs between its packets, and the
    cursor that hands their rows out one by one. */
module Cursor {
  import opened Bytes
  import opened Collections
  import BlobSegments
  import opened RowCodec

  const OP_FETCH_RESPONSE := 66
  const OP_DUMMY := 71
  const OP_INLINE_BLOB := 114
  const END_OF_CURSOR := 100

  type Values = seq<Option<seq<byte>>>

  // --- inline blobs -----------------------------------------------------------

  datatype InlineBlob = InlineBlob(tx: int, id: int, data: seq<byte>)

  /** Reads a length word and that many padded bytes. */
  function RecvCounted(s: seq<byte>): Read<seq<byte>> {
    match RecvInt(s)
    case Short => Short
    case Read(n, rest) => if n < 0 || n > MAX_WIRE_PAYLOAD then Short else RecvAligned(rest, n)
  }

  /** The body of an inline blob behind its opcode. */
  function InlinePayload(s: seq<byte>): Read<InlineBlob> {
    match RecvInt(s)
    case Short => Short
    case Read(tx, s1) =>
      match Recv(s1, 8)
      case Short => Short
      case Read(id, s2) =>
        match RecvCounted(s2)
        case Short => Short
        case Read(_, s3) =>
          match RecvCounted(s3)
          case Short => Short
          case Read(raw, rest) =>
            match BlobSegments.Data(raw)
            case None => Short
            case Some(data) => Read(InlineBlob(tx, Int64BE(id), data), rest)
  }

  lemma PayloadShrinks(s: seq<byte>)
    ensures InlinePayload(s).Read? ==> |InlinePayload(s).rest| < |s|
  {
  }

  /** The next opcode that is not an inline blob, with the blobs before it. */
  datatype Op = NoOp | Op(code: int, blobs: seq<InlineBlob>, rest: seq<byte>)

  function NextOp(s: seq<byte>, blobs: seq<InlineBlob>): Op
    decreases |s|
  {
    match RecvInt(s)
    case Short => NoOp
    case Read(code, rest) =>
      if code != OP_INLINE_BLOB then Op(code, blobs, rest)
      else
        PayloadShrinks(rest);
        match InlinePayload(rest)
        case Short => NoOp
        case Read(blob, tail) => NextOp(tail, blobs + [blob])
  }

  lemma {:induction false} NextOpShrinks(s: seq<byte>, blobs: seq<InlineBlob>)
    ensures NextOp(s, blobs).Op? ==> |NextOp(s, blobs).rest| + 4 <= |s|
    decreases |s|
  {
    if |s| >= 4 && Int32BE(s) == OP_INLINE_BLOB {
      var rest := s[4..];
      PayloadShrinks(rest);
      hide InlinePayload;
      if InlinePayload(rest).Read? {
        NextOpShrinks(InlinePayload(rest).rest, blobs + [InlinePayload(rest).taken]);
      }
    }
  }

  /** Reads one inline blob body. */
  method ParseInlineBlobPayload(s: seq<byte>) returns (r: Read<InlineBlob>)
    ensures r == InlinePayload(s)
  {
    var tx := RecvInt(s);
    if tx == Short {
      return Short;
    }
    var id := Recv(tx.rest, 8);
    if id == Short {
      return Short;
    }
    var info := RecvCounted(id.rest);
    if info == Short {
      return Short;
    }
    var raw := RecvCounted(info.rest);
    if raw == Short {
      return Short;
    }
    var buf := new byte[|raw.taken|](k requires 0 <= k < |raw.taken| => raw.taken[k]);
    assert buf[..] == raw.taken;
    var length := BlobSegments.DecodeInlineSegmentBuffer(buf);
    if length == None {
      return Short;
    }
    return Read(InlineBlob(tx.taken, Int64BE(id.taken), buf[..length.value]), raw.rest);
  }

  /** Consumes the inline blobs before the next opcode. */
  method ConsumeInlineBlobsStarting(s: seq<byte>, before: seq<InlineBlob>) returns (op: Op)
    ensures op == NextOp(s, before)
  {
    var blobs, rest := before, s;
    var b := RecvInt(rest);
    if b == Short {
      return NoOp;
    }
    hide InlinePayload;
    while b.taken == OP_INLINE_BLOB
      invariant b == RecvInt(rest) && b.Read?
      invariant NextOp(rest, blobs) == NextOp(s, before)
      decreases |rest|
    {
      PayloadShrinks(b.rest);
      var blob := ParseInlineBlobPayload(b.rest);
      if blob == Short {
        return NoOp;
      }
      blobs := blobs + [blob.taken];
      rest := blob.rest;
      b := RecvInt(rest);
      if b == Short {
        return NoOp;
      }
    }
    return Op(b.taken, blobs, b.rest);
  }

  // --- one chunk ----------------------------------------------------------------

  datatype Fetched = Failed | Fetched(rows: seq<Values>, more: bool, blobs: seq<InlineBlob>, rest: seq<byte>)

  function SkipDummies(s: seq<byte>): seq<byte>
    decreases |s|
  {
    if |s| >= 4 && Int32BE(s) == OP_DUMMY then SkipDummies(s[4..]) else s
  }

  /** A fetch header behind its opcode: status and row count. */
  datatype Header = NoHeader | Header(status: int, count: int, blobs: seq<InlineBlob>, rest: seq<byte>)

  function ReadHeader(s: seq<byte>, blobs: seq<InlineBlob>): Header {
    match NextOp(s, blobs)
    case NoOp => NoHeader
    case Op(code, taken, rest) =>
      if code != OP_FETCH_RESPONSE || |rest| < 8 then NoHeader
      else Header(Int32BE(rest), Int32BE(rest[4..8]), taken, rest[8..])
  }

  lemma HeaderShrinks(s: seq<byte>, blobs: seq<InlineBlob>)
    ensures ReadHeader(s, blobs).Header? ==> |ReadHeader(s, blobs).rest| + 12 <= |s|
  {
    NextOpShrinks(s, blobs);
    hide NextOp;
  }

  /** Behind a header with a positive count there is one row and the next header; the first
      other count ends the chunk. */
  function Continue(xs: seq<Column>, rows: seq<Values>, head: Header): Fetched
    requires head.Header?
    decreases |head.rest|
  {
    if head.count <= 0 then Fetched(rows, head.status != END_OF_CURSOR, head.blobs, head.rest)
    else
      RowShrinks(xs, head.rest);
      match RecvRow(xs, head.rest)
      case Broken => Failed
      case Row(values, rest) =>
        HeaderShrinks(rest, head.blobs);
        var next := ReadHeader(rest, head.blobs);
        if next == NoHeader then Failed else Continue(xs, rows + [values], next)
  }

  lemma RowShrinks(xs: seq<Column>, s: seq<byte>)
    ensures RecvRow(xs, s).Row? ==> |RecvRow(xs, s).rest| <= |s|
  {
    var n := (|xs| + 7) / 8;
    hide RecvFields;
    if RecvAligned(s, n).Read? {
      FieldsShrink(xs, RecvAligned(s, n).taken, RecvAligned(s, n).rest, |xs|);
    }
  }

  lemma {:induction false} FieldsShrink(xs: seq<Column>, nulls: seq<byte>, s: seq<byte>, n: nat)
    requires n <= |xs| && (|xs| + 7) / 8 <= |nulls|
    ensures RecvFields(xs, nulls, s, n).Row? ==> |RecvFields(xs, nulls, s, n).rest| <= |s|
  {
    hide NullBit, IoLength;
    if n > 0 {
      FieldsShrink(xs, nulls, s, n - 1);
      ByteOf(n - 1, |xs|);
    }
  }

  function FetchResponse(xs: seq<Column>, s: seq<byte>): Fetched {
    var head := ReadHeader(SkipDummies(s), []);
    if head == NoHeader || head.count < 0 then Failed else Continue(xs, [], head)
  }

  /** Reads one fetch header, past any inline blobs. */
  method RecvHeader(s: seq<byte>, blobs: seq<InlineBlob>) returns (head: Header)
    ensures head == ReadHeader(s, blobs)
  {
    var op := ConsumeInlineBlobsStarting(s, blobs);
    hide NextOp;
    if op == NoOp || op.code != OP_FETCH_RESPONSE {
      return NoHeader;
    }
    var b := Recv(op.rest, 8);
    if b == Short {
      return NoHeader;
    }
    assert op.rest == b.taken + b.rest;
    Int32BEPrefix(b.taken, b.rest);
    assert b.taken[4..8] == op.rest[4..8] && b.rest == op.rest[8..];
    assert Int32BE(b.taken) == Int32BE(op.rest);
    return Header(Int32BE(b.taken), Int32BE(b.taken[4..8]), op.blobs, b.rest);
  }

  /** Reads a fetch response on a connection with no deferred response. */
  method OpFetchResponse(xs: seq<Column>, s: seq<byte>) returns (f: Fetched)
    ensures f == FetchResponse(xs, s)
  {
    var start := s;
    while |start| >= 4 && Int32BE(start) == OP_DUMMY
      invariant SkipDummies(start) == SkipDummies(s)
      decreases |start|
    {
      start := start[4..];
    }
    var head := RecvHeader(start, []);
    hide ReadHeader, RecvRow, RecvFields;
    if head == NoHeader || head.count < 0 {
      return Failed;
    }
    var rows: seq<Values> := [];
    while head.count > 0
      invariant head.Header?
      invariant Continue(xs, rows, head) == FetchResponse(xs, s)
      decreases |head.rest|
    {
      RowShrinks(xs, head.rest);
      var r := ReadRow(xs, head.rest);
      if r == Broken {
        return Failed;
      }
      HeaderShrinks(r.rest, head.blobs);
      var next := RecvHeader(r.rest, head.blobs);
      if next == NoHeader {
        return Failed;
      }
      rows := rows + [r.values];
      head := next;
    }
    return Fetched(rows, head.status != END_OF_CURSOR, head.blobs, head.rest);
  }

  // --- what a server sends ------------------------------------------------------

  /** An inline blob as sent: its segment buffer decodes. */
  datatype SentBlob = SentBlob(tx: int, id: int, info: seq<byte>, raw: seq<byte>)

  predicate Sendable(b: SentBlob) {
    && FitsInt32(b.tx) && FitsInt64(b.id)
    && |b.info| <= MAX_WIRE_PAYLOAD && |b.raw| <= MAX_WIRE_PAYLOAD
    && BlobSegments.Data(b.raw).Some?
  }

  function BlobWire(b: SentBlob): seq<byte> {
    Word32BE(114) + (Word32BE(b.tx) + Word64BE(b.id) + Xdr(b.info) + Xdr(b.raw))
  }

  function BlobsWire(blobs: seq<SentBlob>): seq<byte> {
    if blobs == [] then [] else BlobWire(blobs[0]) + BlobsWire(blobs[1..])
  }

  predicate AllSendable(blobs: seq<SentBlob>) {
    forall i | 0 <= i < |blobs| :: Sendable(blobs[i])
  }

  function Received(b: SentBlob): InlineBlob
    requires Sendable(b)
  {
    InlineBlob(b.tx, b.id, BlobSegments.Data(b.raw).value)
  }

  function AllReceived(blobs: seq<SentBlob>): seq<InlineBlob>
    requires AllSendable(blobs)
  {
    seq(|blobs|, i requires 0 <= i < |blobs| => Received(blobs[i]))
  }

  lemma CountedReadsBack(data: seq<byte>, rest: seq<byte>)
    requires |data| <= MAX_WIRE_PAYLOAD
    ensures RecvCounted(Xdr(data) + rest) == Read(data, rest)
  {
    XdrRoundTrip(data, rest);
    hide Xdr, RecvInt, RecvAligned;
  }

  lemma PayloadReadsBack(b: SentBlob, rest: seq<byte>)
    requires Sendable(b)
    ensures InlinePayload(Word32BE(b.tx) + Word64BE(b.id) + Xdr(b.info) + Xdr(b.raw) + rest) == Read(Received(b), rest)
  {
    var s4 := Xdr(b.raw) + rest;
    var s3 := Xdr(b.info) + s4;
    var s2 := Word64BE(b.id) + s3;
    assert Word32BE(b.tx) + Word64BE(b.id) + Xdr(b.info) + Xdr(b.raw) + rest == Word32BE(b.tx) + s2;
    RecvIntReads(b.tx, s2);
    assert |Word64BE(b.id)| == 8;
    RecvReads(Word64BE(b.id), s3);
    Int64RoundTrip(b.id);
    CountedReadsBack(b.info, s4);
    CountedReadsBack(b.raw, rest);
    hide Word32BE, Word64BE, Xdr, RecvInt, RecvCounted, Recv, Int64BE, BlobSegments.Data;
  }

  lemma RecvReads(b: seq<byte>, rest: seq<byte>)
    ensures Recv(b + rest, |b|) == Read(b, rest)
  {
  }

  /** The blobs before an opcode are taken in order and the opcode is found behind them. */
  lemma {:induction false} BlobsReadBack(blobs: seq<SentBlob>, code: int, rest: seq<byte>, before: seq<InlineBlob>)
    requires AllSendable(blobs) && FitsInt32(code) && code != OP_INLINE_BLOB
    ensures NextOp(BlobsWire(blobs) + (Word32BE(code) + rest), before) == Op(code, before + AllReceived(blobs), rest)
    decreases |blobs|
  {
    var tail := Word32BE(code) + rest;
    NoBlobs(tail);
    hide *;
    if blobs == [] {
      NextOpEnds(code, rest, before);
      assert before + [] == before;
      ReceivedCons(blobs);
    } else {
      var b := blobs[0];
      ReceivedCons(blobs);
      var more := BlobsWire(blobs[1..]) + tail;
      OneBlob(b, more, before);
      BlobsReadBack(blobs[1..], code, rest, before + [Received(b)]);
      BlobsWireCons(blobs, tail);
      assert (before + [Received(b)]) + AllReceived(blobs[1..]) == before + ([Received(b)] + AllReceived(blobs[1..]));
    }
  }

  lemma NoBlobs(tail: seq<byte>)
    ensures BlobsWire([]) + tail == tail
  {
  }

  lemma BlobsWireCons(blobs: seq<SentBlob>, tail: seq<byte>)
    requires blobs != []
    ensures BlobsWire(blobs) + tail == BlobWire(blobs[0]) + (BlobsWire(blobs[1..]) + tail)
  {
    hide BlobWire;
  }

  lemma NextOpEnds(code: int, rest: seq<byte>, before: seq<InlineBlob>)
    requires FitsInt32(code) && code != OP_INLINE_BLOB
    ensures NextOp(Word32BE(code) + rest, before) == Op(code, before, rest)
  {
    RecvIntReads(code, rest);
    hide Word32BE, RecvInt;
  }

  lemma ReceivedCons(blobs: seq<SentBlob>)
    requires AllSendable(blobs)
    ensures blobs == [] ==> AllReceived(blobs) == []
    ensures blobs != [] ==> Sendable(blobs[0]) && AllSendable(blobs[1..])
                            && AllReceived(blobs) == [Received(blobs[0])] + AllReceived(blobs[1..])
  {
    hide Sendable, Received;
  }

  lemma OneBlob(b: SentBlob, more: seq<byte>, before: seq<InlineBlob>)
    requires Sendable(b)
    ensures NextOp(BlobWire(b) + more, before) == NextOp(more, before + [Received(b)])
  {
    var payload := Word32BE(b.tx) + Word64BE(b.id) + Xdr(b.info) + Xdr(b.raw);
    assert BlobWire(b) == Word32BE(OP_INLINE_BLOB) + payload;
    hide *;
    Regroup(Word32BE(OP_INLINE_BLOB), payload, more);
    OpcodeFits();
    RecvIntReads(OP_INLINE_BLOB, payload + more);
    PayloadReadsBack(b, more);
    NextOpTakes(Word32BE(OP_INLINE_BLOB) + (payload + more), payload + more, before);
  }

  lemma OpcodeFits()
    ensures FitsInt32(OP_INLINE_BLOB)
  {
  }

  lemma NextOpTakes(s: seq<byte>, rest: seq<byte>, before: seq<InlineBlob>)
    requires RecvInt(s) == Read(OP_INLINE_BLOB, rest) && InlinePayload(rest).Read?
    ensures NextOp(s, before) == NextOp(InlinePayload(rest).rest, before + [InlinePayload(rest).taken])
  {
    hide RecvInt, InlinePayload;
  }

  /** A row packet: inline blobs, a header with a positive count, and the bytes of one row. */
  datatype Part = Part(blobs: seq<SentBlob>, status: int, count: int, row: seq<byte>, values: Values)

  /** A chunk behind some keep-alives: its row packets, more inline blobs, and the terminating
      header. */
  datatype Chunk = Chunk(keepAlives: nat, parts: seq<Part>, blobs: seq<SentBlob>, status: int)

  function HeaderWire(blobs: seq<SentBlob>, status: int, count: int): seq<byte> {
    BlobsWire(blobs) + (Word32BE(66) + (Word32BE(status) + Word32BE(count)))
  }

  /** The bytes of a row: a reader takes exactly them, whatever follows. */
  ghost predicate IsRow(xs: seq<Column>, row: seq<byte>, values: Values) {
    forall rest :: RecvRow(xs, row + rest) == Row(values, rest)
  }

  ghost predicate PartOk(xs: seq<Column>, p: Part) {
    AllSendable(p.blobs) && FitsInt32(p.status) && 0 < p.count <= MAX_INT32 && IsRow(xs, p.row, p.values)
  }

  ghost predicate ChunkOk(xs: seq<Column>, c: Chunk) {
    (forall i | 0 <= i < |c.parts| :: PartOk(xs, c.parts[i])) && AllSendable(c.blobs) && FitsInt32(c.status)
  }

  /** The wire form of a chunk from its i-th packet on. */
  function ChunkWire(c: Chunk, i: nat): seq<byte>
    requires i <= |c.parts|
    decreases |c.parts| - i
  {
    if i == |c.parts| then HeaderWire(c.blobs, c.status, 0)
    else HeaderWire(c.parts[i].blobs, c.parts[i].status, c.parts[i].count) + (c.parts[i].row + ChunkWire(c, i + 1))
  }

  /** The inline blobs of a chunk from its i-th packet on. */
  function BlobsFrom(c: Chunk, i: nat): seq<SentBlob>
    requires i <= |c.parts|
    decreases |c.parts| - i
  {
    if i == |c.parts| then c.blobs else c.parts[i].blobs + BlobsFrom(c, i + 1)
  }

  lemma ReceivedAppend(a: seq<SentBlob>, b: seq<SentBlob>)
    requires AllSendable(a) && AllSendable(b)
    ensures AllSendable(a + b) && AllReceived(a + b) == AllReceived(a) + AllReceived(b)
  {
    hide Sendable, Received;
  }

  function RowsOf(c: Chunk): (rows: seq<Values>)
    ensures |rows| == |c.parts|
  {
    seq(|c.parts|, i requires 0 <= i < |c.parts| => c.parts[i].values)
  }

  lemma HeaderReadsBack(blobs: seq<SentBlob>, status: int, count: int, rest: seq<byte>, before: seq<InlineBlob>)
    requires AllSendable(blobs) && FitsInt32(status) && FitsInt32(count)
    ensures ReadHeader(HeaderWire(blobs, status, count) + rest, before)
            == Header(status, count, before + AllReceived(blobs), rest)
  {
    var body := Word32BE(status) + (Word32BE(count) + rest);
    assert HeaderWire(blobs, status, count) + rest == BlobsWire(blobs) + (Word32BE(OP_FETCH_RESPONSE) + body);
    BlobsReadBack(blobs, OP_FETCH_RESPONSE, body, before);
    TwoWords(status, count, rest);
    hide NextOp, BlobsWire, AllReceived, AllSendable, Word32BE, Int32BE;
  }

  lemma TwoWords(a: int, b: int, rest: seq<byte>)
    requires FitsInt32(a) && FitsInt32(b)
    ensures var s := Word32BE(a) + (Word32BE(b) + rest);
            |s| >= 8 && Int32BE(s) == a && Int32BE(s[4..8]) == b && s[8..] == rest
  {
    Int32RoundTrip(a);
    Int32RoundTrip(b);
    Int32BEPrefix(Word32BE(a), Word32BE(b) + rest);
    assert |Word32BE(a)| == 4 && |Word32BE(b)| == 4;
    hide Word32BE, UInt32BE, ToInt32;
    var s := Word32BE(a) + (Word32BE(b) + rest);
    assert s[4..8] == Word32BE(b);
    assert s[8..] == rest;
  }

  /** From any packet of a chunk on, the reader collects the remaining rows in order and stops
      right behind the terminating header. */
  lemma {:induction false} ContinueReadsBack(xs: seq<Column>, c: Chunk, i: nat, rows: seq<Values>,
                                             before: seq<InlineBlob>, rest: seq<byte>)
    requires ChunkOk(xs, c) && i <= |c.parts|
    ensures AllSendable(BlobsFrom(c, i))
    ensures var head := ReadHeader(ChunkWire(c, i) + rest, before);
            head.Header? && head.count >= 0
            && Continue(xs, rows, head)
               == Fetched(rows + RowsOf(c)[i..], c.status != END_OF_CURSOR,
                          before + AllReceived(BlobsFrom(c, i)), rest)
    decreases |c.parts| - i
  {
    hide *;
    ChunkWireStep(c, i);
    if i == |c.parts| {
      ChunkEndOk(xs, c);
      HeaderReadsBack(c.blobs, c.status, 0, rest, before);
      ContinueEnds(xs, rows, Header(c.status, 0, before + AllReceived(c.blobs), rest));
      assert rows + RowsOf(c)[i..] == rows;
    } else {
      var p := c.parts[i];
      PartIsOk(xs, c, i);
      var tail := ChunkWire(c, i + 1) + rest;
      assert HeaderWire(p.blobs, p.status, p.count) + (p.row + ChunkWire(c, i + 1)) + rest
          == HeaderWire(p.blobs, p.status, p.count) + (p.row + tail);
      HeaderReadsBack(p.blobs, p.status, p.count, p.row + tail, before);
      var taken := before + AllReceived(p.blobs);
      var head := Header(p.status, p.count, taken, p.row + tail);
      RowIs(xs, p, tail);
      ContinueReadsBack(xs, c, i + 1, rows + [p.values], taken, rest);
      ContinueStep(xs, rows, head, p.values, tail);
      RowsStep(c, i);
      ReceivedAppend(p.blobs, BlobsFrom(c, i + 1));
      assert before + (AllReceived(p.blobs) + AllReceived(BlobsFrom(c, i + 1)))
          == taken + AllReceived(BlobsFrom(c, i + 1));
      assert (rows + [p.values]) + RowsOf(c)[i + 1..] == rows + ([p.values] + RowsOf(c)[i + 1..]);
    }
  }

  lemma ChunkWireStep(c: Chunk, i: nat)
    requires i <= |c.parts|
    ensures i == |c.parts| ==> ChunkWire(c, i) == HeaderWire(c.blobs, c.status, 0) && BlobsFrom(c, i) == c.blobs
    ensures i < |c.parts| ==> BlobsFrom(c, i) == c.parts[i].blobs + BlobsFrom(c, i + 1)
    ensures i < |c.parts| ==>
              ChunkWire(c, i)
              == HeaderWire(c.parts[i].blobs, c.parts[i].status, c.parts[i].count)
                 + (c.parts[i].row + ChunkWire(c, i + 1))
  {
    hide HeaderWire;
  }

  lemma ChunkEndOk(xs: seq<Column>, c: Chunk)
    requires ChunkOk(xs, c)
    ensures AllSendable(c.blobs) && FitsInt32(c.status) && FitsInt32(0)
  {
    hide PartOk;
  }

  lemma PartIsOk(xs: seq<Column>, c: Chunk, i: nat)
    requires ChunkOk(xs, c) && i < |c.parts|
    ensures var p := c.parts[i];
            AllSendable(p.blobs) && FitsInt32(p.status) && FitsInt32(p.count) && p.count > 0
            && IsRow(xs, p.row, p.values)
  {
    hide IsRow;
  }

  lemma RowIs(xs: seq<Column>, p: Part, rest: seq<byte>)
    requires IsRow(xs, p.row, p.values)
    ensures RecvRow(xs, p.row + rest) == Row(p.values, rest)
  {
  }

  lemma RowsStep(c: Chunk, i: nat)
    requires i < |c.parts|
    ensures RowsOf(c)[i..] == [c.parts[i].values] + RowsOf(c)[i + 1..]
  {
  }

  lemma ContinueEnds(xs: seq<Column>, rows: seq<Values>, head: Header)
    requires head.Header? && head.count <= 0
    ensures Continue(xs, rows, head) == Fetched(rows, head.status != END_OF_CURSOR, head.blobs, head.rest)
  {
  }

  lemma ContinueStep(xs: seq<Column>, rows: seq<Values>, head: Header, values: Values, tail: seq<byte>)
    requires head.Header? && head.count > 0 && RecvRow(xs, head.rest) == Row(values, tail)
    requires ReadHeader(tail, head.blobs).Header?
    ensures Continue(xs, rows, head) == Continue(xs, rows + [values], ReadHeader(tail, head.blobs))
  {
    hide RecvRow, ReadHeader;
  }

  lemma {:induction false} NoDummies(s: seq<byte>, code: int)
    requires code != OP_DUMMY && FitsInt32(code)
    ensures SkipDummies(Word32BE(code) + s) == Word32BE(code) + s
  {
    RecvIntReads(code, s);
  }

  /** A chunk starts with a blob or with its header, never with a dummy. */
  lemma ChunkStart(c: Chunk, rest: seq<byte>)
    ensures SkipDummies(ChunkWire(c, 0) + rest) == ChunkWire(c, 0) + rest
  {
    hide *;
    ChunkWireStep(c, 0);
    if c.parts == [] {
      HeaderStart(c.blobs, c.status, 0, rest);
    } else {
      var p := c.parts[0];
      var tail := p.row + ChunkWire(c, 1) + rest;
      assert HeaderWire(p.blobs, p.status, p.count) + (p.row + ChunkWire(c, 1)) + rest
          == HeaderWire(p.blobs, p.status, p.count) + tail;
      HeaderStart(p.blobs, p.status, p.count, tail);
    }
  }

  lemma HeaderStart(blobs: seq<SentBlob>, status: int, count: int, rest: seq<byte>)
    ensures var s := HeaderWire(blobs, status, count) + rest; SkipDummies(s) == s
  {
    hide Xdr;
    var s := HeaderWire(blobs, status, count) + rest;
    if blobs == [] {
      var tail := Word32BE(status) + Word32BE(count) + rest;
      assert s == Word32BE(OP_FETCH_RESPONSE) + tail;
      hide Word32BE;
      NoDummies(tail, OP_FETCH_RESPONSE);
    } else {
      var payload := Word32BE(blobs[0].tx) + Word64BE(blobs[0].id) + Xdr(blobs[0].info) + Xdr(blobs[0].raw);
      var header := Word32BE(OP_FETCH_RESPONSE) + (Word32BE(status) + Word32BE(count));
      var tail := payload + BlobsWire(blobs[1..]) + header + rest;
      hide Word32BE, Word64BE;
      assert s == Word32BE(OP_INLINE_BLOB) + tail;
      NoDummies(tail, OP_INLINE_BLOB);
    }
  }

  /** Any number of keep-alive packets. */
  function KeepAlives(n: nat): seq<byte> {
    if n == 0 then [] else Word32BE(71) + KeepAlives(n - 1)
  }

  function SentChunk(c: Chunk): seq<byte> {
    KeepAlives(c.keepAlives) + ChunkWire(c, 0)
  }

  lemma {:induction false} KeepAlivesSkipped(n: nat, s: seq<byte>)
    ensures SkipDummies(KeepAlives(n) + s) == SkipDummies(s)
  {
    if n == 0 {
      assert KeepAlives(0) + s == s;
    } else {
      KeepAlivesSkipped(n - 1, s);
      var tail := KeepAlives(n - 1) + s;
      Regroup(Word32BE(71), KeepAlives(n - 1), s);
      RecvIntReads(71, tail);
      assert |Word32BE(71)| == 4 && FitsInt32(71);
      hide Word32BE, KeepAlives;
    }
  }

  /** A fetch skips the keep-alives before a chunk and reads the chunk from its own bytes and no
      further: its rows in server order, more to come unless its status is 100, and its inline
      blobs. */
  lemma ChunkReadsBack(xs: seq<Column>, c: Chunk, rest: seq<byte>)
    requires ChunkOk(xs, c)
    ensures AllSendable(BlobsFrom(c, 0))
    ensures FetchResponse(xs, SentChunk(c) + rest)
            == Fetched(RowsOf(c), c.status != 100, AllReceived(BlobsFrom(c, 0)), rest)
  {
    ChunkStart(c, rest);
    Regroup(KeepAlives(c.keepAlives), ChunkWire(c, 0), rest);
    KeepAlivesSkipped(c.keepAlives, ChunkWire(c, 0) + rest);
    hide ReadHeader, Continue, ChunkWire, BlobsFrom, AllReceived, SkipDummies, ChunkOk;
    ContinueReadsBack(xs, c, 0, [], [], rest);
    assert [] + RowsOf(c)[0..] == RowsOf(c);
    assert [] + AllReceived(BlobsFrom(c, 0)) == AllReceived(BlobsFrom(c, 0));
  }

  // --- the cursor -----------------------------------------------------------------

  datatype Outcome = Yield(row: Values) | EndOfRows | FetchError

  /** The cursor's part of the driver's rows object, with the unread bytes of the wire. */
  class Rows {
    const xs: seq<Column>
    var wire: seq<byte>
    var currentChunk: Option<seq<Values>>
    var currentChunkIdx: nat
    var moreData: bool

    constructor (xs: seq<Column>, wire: seq<byte>, isSelect: bool)
      ensures this.xs == xs && this.wire == wire && currentChunk == None && currentChunkIdx == 0
      ensures moreData == isSelect
    {
      this.xs := xs;
      this.wire := wire;
      currentChunk := None;
      currentChunkIdx := 0;
      moreData := isSelect;
    }

    /** The rows fetched and not yet handed out: the current row has been. */
    function Left(): seq<Values>
      reads this
    {
      match currentChunk
      case None => []
      case Some(rows) => if currentChunkIdx + 1 <= |rows| then rows[currentChunkIdx + 1..] else []
    }

    /** Moves to the next row, fetching a chunk when the current one is used up and the server
        has announced more. */
    method Next() returns (r: Outcome)
      modifies this
      ensures old(Left()) != [] ==>
                r == Yield(old(Left())[0]) && Left() == old(Left())[1..]
                && wire == old(wire) && moreData == old(moreData)
      ensures old(Left()) == [] && !old(moreData) ==>
                r == EndOfRows && Left() == [] && wire == old(wire) && !moreData
      ensures old(Left()) == [] && old(moreData) ==>
                match FetchResponse(xs, old(wire))
                case Failed => r == FetchError && Left() == [] && !moreData
                case Fetched(rows, more, _, rest) =>
                  r == (if rows == [] then EndOfRows else Yield(rows[0]))
                  && Left() == (if rows == [] then [] else rows[1..])
                  && wire == rest && moreData == more
    {
      hide FetchResponse;
      if currentChunk.Some? {
        currentChunkIdx := currentChunkIdx + 1;
      }
      var len := if currentChunk.Some? then |currentChunk.value| else 0;
      if currentChunkIdx >= len && moreData {
        var f := OpFetchResponse(xs, wire);
        if f == Failed {
          currentChunk := None;
          moreData := false;
          return FetchError;
        }
        currentChunk := Some(f.rows);
        moreData := f.more;
        wire := f.rest;
        currentChunkIdx := 0;
        len := |f.rows|;
      }
      if currentChunkIdx >= len {
        return EndOfRows;
      }
      return Yield(currentChunk.value[currentChunkIdx]);
    }
  }

  // --- draining -------------------------------------------------------------------

  /** The cursor over the chunks still to be fetched, without the bytes. */
  datatype Position = Position(left: seq<Values>, chunks: seq<seq<Values>>)

  function Advance(at: Position): (Outcome, Position) {
    if at.left != [] then (Yield(at.left[0]), at.(left := at.left[1..]))
    else if at.chunks == [] then (EndOfRows, at)
    else if at.chunks[0] == [] then (EndOfRows, Position([], at.chunks[1..]))
    else (Yield(at.chunks[0][0]), Position(at.chunks[0][1..], at.chunks[1..]))
  }

  /** The outcomes of n calls. */
  function Calls(at: Position, n: nat): (outcomes: seq<Outcome>)
    ensures |outcomes| == n
    decreases n
  {
    if n == 0 then [] else [Advance(at).0] + Calls(Advance(at).1, n - 1)
  }

  ghost function All(chunks: seq<seq<Values>>): seq<Values> {
    if chunks == [] then [] else chunks[0] + All(chunks[1..])
  }

  /** The rows still to come. */
  ghost function Remaining(at: Position): seq<Values> {
    at.left + All(at.chunks)
  }

  /** No rows follow an empty chunk. */
  ghost predicate NoGap(chunks: seq<seq<Values>>) {
    forall i, j | 0 <= i < j < |chunks| && chunks[i] == [] :: chunks[j] == []
  }

  lemma {:induction false} AllEmpty(chunks: seq<seq<Values>>)
    ensures All(chunks) == [] <==> forall i | 0 <= i < |chunks| :: chunks[i] == []
  {
    if chunks != [] {
      AllEmpty(chunks[1..]);
      assert forall i | 0 < i < |chunks| :: chunks[i] == chunks[1..][i - 1];
    }
  }

  /** One call yields the next remaining row, unless it meets an empty chunk. */
  lemma AdvanceStep(at: Position)
    requires NoGap(at.chunks)
    ensures var (r, next) := Advance(at);
            NoGap(next.chunks)
            && (if Remaining(at) == [] then r == EndOfRows && Remaining(next) == []
                else r == Yield(Remaining(at)[0]) && Remaining(next) == Remaining(at)[1..])
  {
    if at.left != [] {
      assert Remaining(at)[1..] == at.left[1..] + All(at.chunks);
    } else if at.chunks != [] {
      var first, rest := at.chunks[0], at.chunks[1..];
      assert NoGap(rest) by {
        assert forall i | 0 <= i < |rest| :: rest[i] == at.chunks[i + 1];
      }
      if first == [] {
        assert forall i | 0 <= i < |at.chunks| :: at.chunks[i] == [];
        AllEmpty(at.chunks);
        AllEmpty(rest);
      } else {
        assert Remaining(at) == first + All(rest);
        assert Remaining(at)[1..] == first[1..] + All(rest);
      }
    }
  }

  /** Draining yields every remaining row once, in server order, and then the end for ever. */
  lemma {:induction false} Drain(at: Position, n: nat, k: nat)
    requires NoGap(at.chunks) && k < n
    ensures Calls(at, n)[k] == if k < |Remaining(at)| then Yield(Remaining(at)[k]) else EndOfRows
    decreases n
  {
    AdvanceStep(at);
    var next := Advance(at).1;
    hide Advance, Remaining, NoGap;
    if k > 0 {
      Drain(next, n - 1, k - 1);
    }
  }

  /** If some row follows an empty chunk, the end is reported before all rows were. */
  lemma {:induction false} EarlyEnd(at: Position) returns (k: nat)
    requires !NoGap(at.chunks)
    ensures k < |Remaining(at)| && Calls(at, k + 1)[k] == EndOfRows
    decreases |at.chunks|, |at.left|
  {
    var next := Advance(at).1;
    if at.left != [] {
      k := EarlyEnd(next);
      k := k + 1;
    } else {
      var i, j :| 0 <= i < j < |at.chunks| && at.chunks[i] == [] && at.chunks[j] != [];
      var first, rest := at.chunks[0], at.chunks[1..];
      AllEmpty(at.chunks);
      if first == [] {
        k := 0;
      } else {
        assert rest[i - 1] == [] && rest[j - 1] != [];
        k := EarlyEnd(next);
        k := k + 1;
        assert Remaining(next) == first[1..] + All(rest);
      }
    }
  }

  /** The wire of several chunks. */
  function ChunksWire(chunks: seq<Chunk>): seq<byte> {
    if chunks == [] then [] else SentChunk(chunks[0]) + ChunksWire(chunks[1..])
  }

  ghost function RowsOfAll(chunks: seq<Chunk>): (rows: seq<seq<Values>>)
    ensures |rows| == |chunks|
  {
    seq(|chunks|, i requires 0 <= i < |chunks| => RowsOf(chunks[i]))
  }

  /** Only the last chunk has the end status. */
  ghost predicate Ends(chunks: seq<Chunk>) {
    forall i | 0 <= i < |chunks| :: chunks[i].status == 100 <==> i == |chunks| - 1
  }

  /** Over any stream of chunks each call of the byte-level cursor is a step of the abstract
      one: `left` are the fetched rows, and the unread bytes are exactly the later chunks. */
  lemma FetchIsAdvance(xs: seq<Column>, chunks: seq<Chunk>, tail: seq<byte>)
    requires chunks != [] && Ends(chunks) && forall i | 0 <= i < |chunks| :: ChunkOk(xs, chunks[i])
    ensures var f := FetchResponse(xs, ChunksWire(chunks) + tail);
            f.Fetched? && f.rows == RowsOf(chunks[0]) && f.rest == ChunksWire(chunks[1..]) + tail
            && (f.more <==> |chunks| > 1)
    ensures Ends(chunks[1..])
  {
    EndsTail(chunks);
    ChunksWireCons(chunks, tail);
    hide *;
    assert ChunkOk(xs, chunks[0]);
    ChunkReadsBack(xs, chunks[0], ChunksWire(chunks[1..]) + tail);
  }

  lemma EndsTail(chunks: seq<Chunk>)
    requires chunks != [] && Ends(chunks)
    ensures chunks[0].status == 100 <==> |chunks| == 1
    ensures Ends(chunks[1..])
  {
    var rest := chunks[1..];
    forall i | 0 <= i < |rest|
      ensures rest[i].status == 100 <==> i == |rest| - 1
    {
      assert rest[i] == chunks[i + 1];
    }
  }

  lemma ChunksWireCons(chunks: seq<Chunk>, tail: seq<byte>)
    requires chunks != []
    ensures ChunksWire(chunks) + tail == SentChunk(chunks[0]) + (ChunksWire(chunks[1..]) + tail)
  {
    hide ChunkWire;
  }

  /** The cursor has these chunks and then `tail` on its wire. */
  ghost predicate Serving(rows: Rows, chunks: seq<Chunk>, tail: seq<byte>)
    reads rows
  {
    && rows.wire == ChunksWire(chunks) + tail
    && (rows.moreData <==> chunks != [])
    && Ends(chunks)
    && forall i | 0 <= i < |chunks| :: ChunkOk(rows.xs, chunks[i])
  }

  ghost function PositionOf(rows: Rows, chunks: seq<Chunk>): Position
    reads rows
  {
    Position(rows.Left(), RowsOfAll(chunks))
  }

  /** A call on the real cursor is a step of the abstract one. */
  method NextRow(rows: Rows, ghost chunks: seq<Chunk>, ghost tail: seq<byte>)
      returns (r: Outcome, ghost left: seq<Chunk>)
    requires Serving(rows, chunks, tail)
    modifies rows
    ensures Serving(rows, left, tail)
    ensures (r, PositionOf(rows, left)) == Advance(old(PositionOf(rows, chunks)))
  {
    left := chunks;
    hide ChunksWire, ChunkOk, Ends, RowsOf, FetchResponse;
    if chunks != [] {
      FetchIsAdvance(rows.xs, chunks, tail);
      assert RowsOfAll(chunks)[1..] == RowsOfAll(chunks[1..]);
      assert RowsOfAll(chunks)[0] == RowsOf(chunks[0]);
    }
    if rows.Left() == [] && chunks != [] {
      left := chunks[1..];
    }
    r := rows.Next();
  }

  /** Calling the cursor n times. */
  method DrainRows(rows: Rows, ghost chunks: seq<Chunk>, ghost tail: seq<byte>, n: nat) returns (outcomes: seq<Outcome>)
    requires Serving(rows, chunks, tail)
    modifies rows
    ensures outcomes == Calls(old(PositionOf(rows, chunks)), n)
  {
    outcomes := [];
    ghost var left := chunks;
    ghost var start := PositionOf(rows, chunks);
    hide *;
    for i := 0 to n
      invariant Serving(rows, left, tail)
      invariant outcomes + Calls(PositionOf(rows, left), n - i) == Calls(start, n)
    {
      ghost var at := PositionOf(rows, left);
      CallsStep(at, n - i);
      var r;
      r, left := NextRow(rows, left, tail);
      ghost var next := Calls(PositionOf(rows, left), n - i - 1);
      assert outcomes + ([r] + next) == (outcomes + [r]) + next;
      outcomes := outcomes + [r];
    }
    CallsStep(PositionOf(rows, left), 0);
    assert outcomes + [] == outcomes;
  }

  lemma CallsStep(at: Position, n: nat)
    ensures n == 0 ==> Calls(at, n) == []
    ensures n > 0 ==> Calls(at, n) == [Advance(at).0] + Calls(Advance(at).1, n - 1)
  {
  }
}
