/** BLOB contents as length-prefixed segments: the in-place decoder of inline blobs, the
    appending reader of fetched ones, and the writer's split. */
module BlobSegments {
  import opened Bytes
  import opened Collections

  const BLOB_SEGMENT_SIZE := 32000

  /** The data of a segment buffer, or nothing when a header or a segment is cut off. */
  function Data(buf: seq<byte>): Option<seq<byte>>
    decreases |buf|
  {
    if buf == [] then Some([])
    else if |buf| < 2 || 2 + UInt16LE(buf) > |buf| then None
    else
      var n := 2 + UInt16LE(buf);
      After(buf[2..n], Data(buf[n..]))
  }

  function After(front: seq<byte>, rest: Option<seq<byte>>): Option<seq<byte>> {
    match rest
    case None => None
    case Some(more) => Some(front + more)
  }

  lemma AfterAfter(a: seq<byte>, b: seq<byte>, rest: Option<seq<byte>>)
    ensures After(a, After(b, rest)) == After(a + b, rest)
    ensures After([], rest) == rest
  {
    if rest.Some? {
      assert a + (b + rest.value) == (a + b) + rest.value;
      assert [] + rest.value == rest.value;
    }
  }

  lemma HeaderOfSlice(buf: seq<byte>, pos: nat)
    requires pos + 2 <= |buf|
    ensures UInt16LE(buf[pos..pos + 2]) == UInt16LE(buf[pos..])
  {
  }

  /** The state of the compaction: `outPos` bytes are done and the rest of the buffer from
      `pos` on is still the original one. */
  ghost predicate Compacted(now: seq<byte>, original: seq<byte>, outPos: int, pos: int) {
    && 0 <= outPos <= pos <= |original| == |now|
    && now[pos..] == original[pos..]
    && After(now[..outPos], Data(original[pos..])) == Data(original)
  }

  lemma CompactedStart(original: seq<byte>)
    ensures Compacted(original, original, 0, 0)
  {
    assert original[0..] == original && original[..0] == [];
    AfterAfter([], [], Data(original));
  }

  /** A header or a segment that is cut off now was so in the original buffer. */
  lemma CutOff(now: seq<byte>, original: seq<byte>, outPos: int, pos: int)
    requires Compacted(now, original, outPos, pos) && pos < |original|
    ensures 0 <= outPos <= pos && |now| == |original|
    ensures pos + 2 > |now| ==> Data(original) == None
    ensures pos + 2 <= |now| && pos + 2 + UInt16LE(now[pos..pos + 2]) > |now| ==> Data(original) == None
    ensures pos + 2 <= |now| ==> UInt16LE(now[pos..pos + 2]) == UInt16LE(original[pos..])
  {
    assert original[pos..] != [];
    if pos + 2 <= |now| {
      HeaderOfSlice(original, pos);
      HeaderOfSlice(now, pos);
    }
  }

  lemma Finished(now: seq<byte>, original: seq<byte>, outPos: int, pos: int)
    requires Compacted(now, original, outPos, pos) && pos >= |original|
    ensures 0 <= outPos <= |now| && Data(original) == Some(now[..outPos])
  {
    assert original[pos..] == [];
    assert now[..outPos] + [] == now[..outPos];
  }

  /** Moving a segment to the write position keeps the state. */
  lemma Moved(now: seq<byte>, next: seq<byte>, original: seq<byte>, outPos: int, pos: int, n: nat)
    requires Compacted(now, original, outPos, pos) && pos + 2 + n <= |now| == |next|
    requires n == UInt16LE(original[pos..])
    requires next[..outPos + n] == now[..outPos] + now[pos + 2..pos + 2 + n]
    requires next[pos + 2 + n..] == now[pos + 2 + n..]
    ensures Compacted(next, original, outPos + n, pos + 2 + n)
  {
    Unfolded(original, pos, n);
    var segment, rest := original[pos + 2..pos + 2 + n], original[pos + 2 + n..];
    AfterAfter(now[..outPos], segment, Data(rest));
    SameTail(now, original, pos, pos + 2, n);
    hide Data, After, UInt16LE;
  }

  lemma SameTail(now: seq<byte>, original: seq<byte>, pos: nat, from: nat, n: nat)
    requires |now| == |original| && pos <= from && from + n <= |now| && now[pos..] == original[pos..]
    ensures now[from..from + n] == original[from..from + n]
    ensures now[from + n..] == original[from + n..]
  {
    var tail := original[pos..];
    assert tail[from - pos..from - pos + n] == now[from..from + n];
    assert tail[from - pos + n..] == now[from + n..];
  }

  /** Compacts the segments of a buffer onto its own front. The read position never falls
      behind the write position, so the bytes still to be read are always the original ones. */
  method DecodeInlineSegmentBuffer(buf: array<byte>) returns (length: Option<nat>)
    modifies buf
    ensures match Data(old(buf[..])) {
              case None => length == None
              case Some(data) => length == Some(|data|) && |data| <= buf.Length && buf[..|data|] == data
            }
  {
    hide *;
    ghost var original := buf[..];
    CompactedStart(original);
    if buf.Length == 0 {
      Finished(original, original, 0, 0);
      assert buf[..0] == original[..0];
      return Some(0);
    }
    var outPos, pos := 0, 0;
    while pos < buf.Length
      invariant 0 <= outPos <= pos <= buf.Length && |original| == buf.Length
      invariant Compacted(buf[..], original, outPos, pos)
    {
      var segLen := CompactSegment(buf, outPos, pos, original);
      if segLen == None {
        return None;
      }
      pos := pos + 2 + segLen.value;
      outPos := outPos + segLen.value;
    }
    Finished(buf[..], original, outPos, pos);
    assert buf[..][..outPos] == buf[..outPos];
    return Some(outPos);
  }

  /** One turn of the compaction. */
  method CompactSegment(buf: array<byte>, outPos: nat, pos: nat, ghost original: seq<byte>)
      returns (segLen: Option<nat>)
    requires outPos <= pos < buf.Length == |original| && Compacted(buf[..], original, outPos, pos)
    modifies buf
    ensures segLen == None ==> Data(original) == None
    ensures segLen.Some? ==>
              pos + 2 + segLen.value <= buf.Length
              && Compacted(buf[..], original, outPos + segLen.value, pos + 2 + segLen.value)
  {
    ghost var now := buf[..];
    CutOff(now, original, outPos, pos);
    hide *;
    if pos + 2 > buf.Length {
      return None;
    }
    assert buf[pos..pos + 2] == now[pos..pos + 2];
    var length := UInt16LE(buf[pos..pos + 2]);
    if pos + 2 + length > buf.Length {
      return None;
    }
    if length == 0 {
      assert now[..outPos + 0] == now[..outPos] + now[pos + 2..pos + 2 + 0];
      Moved(now, now, original, outPos, pos, 0);
      return Some(0);
    }
    MoveSegment(buf, outPos, pos, length, original);
    return Some(length);
  }

  method MoveSegment(buf: array<byte>, outPos: nat, pos: nat, length: nat, ghost original: seq<byte>)
    requires outPos <= pos && pos + 2 + length <= buf.Length == |original| && Compacted(buf[..], original, outPos, pos)
    requires length == UInt16LE(original[pos..])
    modifies buf
    ensures Compacted(buf[..], original, outPos + length, pos + 2 + length)
  {
    hide *;
    ghost var now := buf[..];
    Move(buf, outPos, pos + 2, length);
    Moved(now, buf[..], original, outPos, pos, length);
  }

  lemma Unfolded(buf: seq<byte>, pos: nat, n: nat)
    requires pos + 2 + n <= |buf| && n == UInt16LE(buf[pos..])
    ensures Data(buf[pos..]) == After(buf[pos + 2..pos + 2 + n], Data(buf[pos + 2 + n..]))
  {
    var rest := buf[pos..];
    assert rest[2..2 + n] == buf[pos + 2..pos + 2 + n] && rest[2 + n..] == buf[pos + 2 + n..];
  }

  /** Moves bytes towards the front; source and target may overlap. */
  method Move(buf: array<byte>, to: nat, from: nat, n: nat)
    requires to <= from && from + n <= buf.Length
    modifies buf
    ensures buf[..][..to + n] == old(buf[..])[..to] + old(buf[..])[from..from + n]
    ensures buf[..][from + n..] == old(buf[..])[from + n..]
  {
    ghost var before := buf[..];
    var shift := from - to;
    for i := 0 to n
      invariant forall k | 0 <= k < to :: buf[k] == before[k]
      invariant forall k | to <= k < to + i :: buf[k] == before[k + shift]
      invariant forall k | to + i <= k < buf.Length :: buf[k] == before[k]
    {
      buf[to + i] := buf[from + i];
    }
    ghost var after := buf[..];
    assert |after| == |before| && forall k | 0 <= k < |after| :: after[k] == buf[k];
    MovedSlices(before, after, to, from, n);
  }

  lemma MovedSlices(before: seq<byte>, after: seq<byte>, to: nat, from: nat, n: nat)
    requires to <= from && from + n <= |before| == |after|
    requires forall k | 0 <= k < to :: after[k] == before[k]
    requires forall k | to <= k < to + n :: after[k] == before[k + (from - to)]
    requires forall k | to + n <= k < |after| :: after[k] == before[k]
    ensures after[..to + n] == before[..to] + before[from..from + n]
    ensures after[from + n..] == before[from + n..]
  {
    var left, right := after[..to + n], before[..to] + before[from..from + n];
    forall k | 0 <= k < |left|
      ensures left[k] == right[k]
    {
      if k >= to {
        assert right[k] == before[from..from + n][k - to] == before[k + (from - to)];
      }
    }
  }

  /** The data of several responses, one after the other. */
  function AllData(chunks: seq<seq<byte>>): Option<seq<byte>> {
    if chunks == [] then Some([])
    else
      match AllData(chunks[..|chunks| - 1])
      case None => None
      case Some(front) => After(front, Data(chunks[|chunks| - 1]))
  }

  lemma {:induction false} AllDataStops(chunks: seq<seq<byte>>, i: nat)
    requires i <= |chunks| && AllData(chunks[..i]) == None
    ensures AllData(chunks) == None
    decreases |chunks| - i
  {
    if i == |chunks| {
      assert chunks[..i] == chunks;
    } else {
      assert chunks[..i + 1][..i] == chunks[..i];
      AllDataStops(chunks, i + 1);
    }
  }

  /** Both readers return the same bytes and fail on the same buffers. */
  lemma ReadersAgree(buf: seq<byte>)
    ensures AllData([buf]) == Data(buf)
  {
    assert [buf][..0] == [];
    AfterAfter([], [], Data(buf));
  }

  /** Appends the segments of every response to the value. */
  method GetBlobSegments(chunks: seq<seq<byte>>) returns (r: Option<seq<byte>>)
    ensures r == AllData(chunks)
  {
    var blob: seq<byte> := [];
    for i := 0 to |chunks|
      invariant AllData(chunks[..i]) == Some(blob)
    {
      ghost var before := blob;
      assert chunks[..i + 1][..i] == chunks[..i];
      var buf := chunks[i];
      AfterAfter(before, [], Data(buf));
      assert before + [] == before;
      while |buf| > 0
        invariant After(blob, Data(buf)) == After(before, Data(chunks[i]))
        decreases |buf|
      {
        if |buf| < 2 {
          AllDataStops(chunks, i + 1);
          return None;
        }
        HeaderOfSlice(buf, 0);
        assert buf[0..] == buf;
        var ln := UInt16LE(buf[0..2]);
        if ln + 2 > |buf| {
          AllDataStops(chunks, i + 1);
          return None;
        }
        AfterAfter(blob, buf[2..ln + 2], Data(buf[ln + 2..]));
        blob := blob + buf[2..ln + 2];
        buf := buf[ln + 2..];
      }
      assert blob + [] == blob;
    }
    assert chunks[..|chunks|] == chunks;
    return Some(blob);
  }

  // --- the writer ---------------------------------------------------------

  function Concat(pieces: seq<seq<byte>>): seq<byte> {
    if pieces == [] then [] else Concat(pieces[..|pieces| - 1]) + pieces[|pieces| - 1]
  }

  /** Splits a value into the segments that are put one by one: full ones, and a shorter one
      at the end if anything is left. */
  method CreateBlob(value: seq<byte>) returns (pieces: seq<seq<byte>>)
    ensures Concat(pieces) == value
    ensures forall i | 0 <= i < |pieces| :: 0 < |pieces[i]| <= 32000
    ensures forall i | 0 <= i < |pieces| - 1 :: |pieces[i]| == 32000
  {
    pieces := [];
    var i := 0;
    while i < |value|
      invariant 0 <= i && Concat(pieces) == value[..if i < |value| then i else |value|]
      invariant forall k | 0 <= k < |pieces| :: 0 < |pieces[k]| <= BLOB_SEGMENT_SIZE
      invariant forall k | 0 <= k < |pieces| - 1 :: |pieces[k]| == BLOB_SEGMENT_SIZE
      invariant i <= |value| ==> forall k | 0 <= k < |pieces| :: |pieces[k]| == BLOB_SEGMENT_SIZE
    {
      var end := i + BLOB_SEGMENT_SIZE;
      if end > |value| {
        end := |value|;
      }
      assert value[..i] + value[i..end] == value[..end];
      assert (pieces + [value[i..end]])[..|pieces|] == pieces;
      pieces := pieces + [value[i..end]];
      i := i + BLOB_SEGMENT_SIZE;
    }
    assert value[..|value|] == value;
  }

  /** A run of segments with their length headers. */
  function Framed(pieces: seq<seq<byte>>): seq<byte> {
    if pieces == [] then [] else [|pieces[0]| % 256, |pieces[0]| / 256 % 256] + pieces[0] + Framed(pieces[1..])
  }

  predicate Short16(pieces: seq<seq<byte>>) {
    forall i | 0 <= i < |pieces| :: |pieces[i]| <= 0xffff
  }

  lemma {:induction false} ConcatCons(pieces: seq<seq<byte>>)
    requires pieces != []
    ensures Concat(pieces) == pieces[0] + Concat(pieces[1..])
  {
    var n := |pieces| - 1;
    if n == 0 {
      assert pieces[..0] == [] && pieces[1..] == [];
    } else {
      ConcatCons(pieces[..n]);
      assert pieces[..n][1..] == pieces[1..][..n - 1];
      assert pieces[1..][n - 1] == pieces[n];
      Regroup(pieces[0], Concat(pieces[1..][..n - 1]), pieces[n]);
    }
  }

  /** Reading framed segments gives back their bytes. */
  lemma {:induction false} FramedReadsBack(pieces: seq<seq<byte>>)
    requires Short16(pieces)
    ensures Data(Framed(pieces)) == Some(Concat(pieces))
  {
    if pieces != [] {
      FramedReadsBack(pieces[1..]);
      ConcatCons(pieces);
      OneSegment(pieces[0], Framed(pieces[1..]));
    }
  }

  lemma OneSegment(piece: seq<byte>, rest: seq<byte>)
    requires |piece| <= 0xffff
    ensures Data(Word16LE(|piece|) + piece + rest) == After(piece, Data(rest))
  {
    var buf := Word16LE(|piece|) + piece + rest;
    WordsKeepLowBits(|piece|);
    var n := UInt16LE(buf);
    assert UInt16LE(buf) == UInt16LE(Word16LE(|piece|));
    assert |piece| % 0x1_0000 == |piece|;
    assert buf[2..2 + |piece|] == piece && buf[2 + |piece|..] == rest;
  }

  /** A buffer that is read is a run of segments: the one whose bytes were read. */
  lemma {:induction false} Segments(buf: seq<byte>) returns (pieces: seq<seq<byte>>)
    requires Data(buf).Some?
    ensures Short16(pieces) && Framed(pieces) == buf && Data(buf) == Some(Concat(pieces))
    decreases |buf|
  {
    if buf == [] {
      pieces := [];
    } else {
      var n := 2 + UInt16LE(buf);
      assert Data(buf) == After(buf[2..n], Data(buf[n..]));
      HeaderBytes(buf);
      hide Data, Concat, UInt16LE;
      var more := Segments(buf[n..]);
      pieces := [buf[2..n]] + more;
      assert pieces[1..] == more;
      ConcatCons(pieces);
    }
  }

  lemma HeaderBytes(buf: seq<byte>)
    requires |buf| >= 2 && 2 + UInt16LE(buf) <= |buf|
    ensures var n := UInt16LE(buf); n <= 0xffff && buf == [n % 256, n / 256 % 256] + buf[2..2 + n] + buf[2 + n..]
  {
    var n := UInt16LE(buf);
    assert buf[..2] == [n % 256, n / 256 % 256];
    hide UInt16LE;
    assert buf == buf[..2] + buf[2..2 + n] + buf[2 + n..];
  }

  /** The readers succeed exactly on runs of segments. */
  lemma ReadableExact(buf: seq<byte>)
    ensures Data(buf).Some? <==> exists pieces :: Short16(pieces) && Framed(pieces) == buf
  {
    if Data(buf).Some? {
      var pieces := Segments(buf);
    }
    forall pieces | Short16(pieces) && Framed(pieces) == buf
      ensures Data(buf).Some?
    {
      FramedReadsBack(pieces);
    }
  }

  lemma {:induction false} ConcatAppend(a: seq<seq<byte>>, b: seq<seq<byte>>)
    ensures Concat(a + b) == Concat(a) + Concat(b)
    decreases |b|
  {
    if b == [] {
      assert a + b == a;
    } else {
      var n := |b| - 1;
      assert (a + b)[..|a| + n] == a + b[..n];
      ConcatAppend(a, b[..n]);
    }
  }

  function Flatten(groups: seq<seq<seq<byte>>>): seq<seq<byte>> {
    if groups == [] then [] else Flatten(groups[..|groups| - 1]) + groups[|groups| - 1]
  }

  function FramedAll(groups: seq<seq<seq<byte>>>): (chunks: seq<seq<byte>>)
    ensures |chunks| == |groups|
    ensures forall i | 0 <= i < |groups| :: chunks[i] == Framed(groups[i])
  {
    seq(|groups|, i requires 0 <= i < |groups| => Framed(groups[i]))
  }

  /** However a server groups the segments into responses, the appending reader restores the
      bytes; and a single buffer of all of them decodes in place to the same bytes. */
  lemma {:induction false} BlobRoundTrip(groups: seq<seq<seq<byte>>>, value: seq<byte>)
    requires Short16(Flatten(groups)) && Concat(Flatten(groups)) == value
    ensures AllData(FramedAll(groups)) == Some(value)
    ensures Data(Framed(Flatten(groups))) == Some(value)
  {
    FramedReadsBack(Flatten(groups));
    GroupsReadBack(groups);
  }

  lemma ShortParts(a: seq<seq<byte>>, b: seq<seq<byte>>)
    requires Short16(a + b)
    ensures Short16(a) && Short16(b)
  {
    assert forall i | 0 <= i < |a| :: a[i] == (a + b)[i];
    assert forall i | 0 <= i < |b| :: b[i] == (a + b)[|a| + i];
  }

  lemma {:induction false} GroupsReadBack(groups: seq<seq<seq<byte>>>)
    requires Short16(Flatten(groups))
    ensures AllData(FramedAll(groups)) == Some(Concat(Flatten(groups)))
  {
    if groups != [] {
      var n := |groups| - 1;
      var front, last := Flatten(groups[..n]), groups[n];
      assert Flatten(groups) == front + last;
      assert AllData(FramedAll(groups)) == match AllData(FramedAll(groups)[..n]) {
                                             case None => None
                                             case Some(d) => After(d, Data(Framed(last)))
                                           };
      hide AllData, Data, Framed, Concat, Flatten;
      ShortParts(front, last);
      GroupsReadBack(groups[..n]);
      FramedReadsBack(last);
      ConcatAppend(front, last);
      assert FramedAll(groups)[..n] == FramedAll(groups[..n]);
    }
  }
}
