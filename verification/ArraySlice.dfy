/** The element-wise wire form of array columns: encoding, padding, reading and decoding. */
module ArraySlice {
  import opened Bytes
  import opened Collections
  import opened ArrayShape
  import opened ModularPower
  import opened BigEndian

  const TEXT := 452
  const VARYING := 448
  const DOUBLE := 480
  const FLOAT := 482
  const LONG := 496
  const SHORT := 500
  const TIMESTAMP := 510
  const QUAD := 550
  const TIME := 560
  const DATE := 570
  const INT64 := 580
  const TIMESTAMP_TZ := 32754
  const TIME_TZ := 32756
  const BOOLEAN := 32764

  /** What the slice transfer needs of a column: element type, its length in characters and
      in bytes, whether text is raw OCTETS, and the declared axes. */
  datatype Meta = Meta(typeID: int, length: nat, fieldBytes: nat, octets: bool, dims: seq<Dimension>)

  /** An element after conversion to its stored form; `Bits` are the bytes of a float, date or
      time. */
  datatype Element = Number(v: int) | Flag(b: bool) | Text(bytes: seq<byte>) | Bits(bytes: seq<byte>)

  function RoundUp4(n: nat): (r: nat)
    ensures r % 4 == 0 && n <= r < n + 4
  {
    if n % 4 != 0 then n + 4 - n % 4 else n
  }

  predicate IsVarying(meta: Meta) {
    meta.typeID == VARYING
  }

  /** The wire bytes of one element on the get side, or the most data a varying one holds. */
  function SlotSize(meta: Meta): nat {
    if meta.typeID == INT64 || meta.typeID == DOUBLE || meta.typeID == TIMESTAMP then 8
    else if meta.typeID == VARYING then meta.fieldBytes
    else if meta.typeID == TEXT then RoundUp4(meta.fieldBytes)
    else 4
  }

  function PutSize(meta: Meta): nat {
    if meta.typeID == TEXT then RoundUp4(meta.length)
    else if IsVarying(meta) then 4
    else SlotSize(meta)
  }

  // --- strides ----------------------------------------------------------

  function PutStride(meta: Meta): nat {
    if meta.typeID == SHORT then 2
    else if meta.typeID == LONG || meta.typeID == FLOAT || meta.typeID == DATE || meta.typeID == TIME then 4
    else if meta.typeID == INT64 || meta.typeID == DOUBLE || meta.typeID == TIMESTAMP then 8
    else if meta.typeID == BOOLEAN then 1
    else if meta.typeID == VARYING then 2 + meta.length
    else meta.length
  }

  function GetStride(meta: Meta): nat {
    if meta.typeID == TEXT then meta.fieldBytes
    else if meta.typeID == VARYING then 2 + meta.fieldBytes
    else PutStride(meta)
  }

  /** The application-buffer length declared on put. */
  function PutLength(meta: Meta): int {
    ElementCount(meta.dims) * PutStride(meta)
  }

  /** The application-buffer length declared on get. */
  function GetLength(meta: Meta): int {
    ElementCount(meta.dims) * GetStride(meta)
  }

  // --- encoding ---------------------------------------------------------

  /** The bytes the decoder is to see for one element, before the wire's framing. */
  function Raw(meta: Meta, e: Element): Option<seq<byte>> {
    match e
    case Number(v) =>
      if meta.typeID == SHORT && -0x8000 <= v <= 0x7fff then Some(Word32BE(v))
      else if meta.typeID == LONG && FitsInt32(v) then Some(Word32BE(v))
      else if (meta.typeID == INT64 || meta.typeID == QUAD) && FitsInt64(v) then Some(Word64BE(v))
      else None
    case Bits(b) =>
      if (meta.typeID == FLOAT || meta.typeID == DATE || meta.typeID == TIME) && |b| == 4 then Some(b)
      else if (meta.typeID == DOUBLE || meta.typeID == TIMESTAMP) && |b| == 8 then Some(b)
      else None
    case Flag(b) =>
      if meta.typeID == BOOLEAN then Some([if b then 1 else 0, 0, 0, 0]) else None
    case Text(enc) =>
      if |enc| > meta.length then None
      else if meta.typeID == TEXT then Some(enc + Repeat(0x20, RoundUp4(meta.length) - |enc|))
      else if meta.typeID == VARYING then Some(enc)
      else None
  }

  /** Adds a varying element's length word and padding; other elements travel as they are. */
  function Slot(meta: Meta, raw: seq<byte>): seq<byte> {
    if IsVarying(meta) then Word32BE(|raw|) + raw + Repeat(0, RoundUp4(|raw|) - |raw|) else raw
  }

  function EncodeArrayElement(meta: Meta, e: Element): Option<seq<byte>> {
    match Raw(meta, e)
    case None => None
    case Some(raw) => Some(Slot(meta, raw))
  }

  predicate Encodable(meta: Meta, elements: seq<Element>) {
    forall i | 0 <= i < |elements| :: Raw(meta, elements[i]).Some?
  }

  function Raws(meta: Meta, elements: seq<Element>): (raws: seq<seq<byte>>)
    requires Encodable(meta, elements)
    ensures |raws| == |elements|
    ensures forall i | 0 <= i < |raws| :: raws[i] == Raw(meta, elements[i]).value
  {
    seq(|elements|, i requires 0 <= i < |elements| => Raw(meta, elements[i]).value)
  }

  /** All slots, one after the other. */
  function Slots(meta: Meta, raws: seq<seq<byte>>): seq<byte> {
    if raws == [] then [] else Slots(meta, raws[..|raws| - 1]) + Slot(meta, raws[|raws| - 1])
  }

  method EncodeSliceElements(meta: Meta, elements: seq<Element>) returns (r: Option<seq<byte>>)
    ensures r.Some? <==> Encodable(meta, elements)
                         && (ElementCount(meta.dims) > 0 ==> |elements| <= ElementCount(meta.dims))
    ensures r.Some? ==> r.value == Slots(meta, Raws(meta, elements))
  {
    var declared := AllElementsCount(meta.dims);
    if declared > 0 && |elements| > declared {
      return None;
    }
    var buf := [];
    for i := 0 to |elements|
      invariant Encodable(meta, elements[..i])
      invariant buf == Slots(meta, Raws(meta, elements[..i]))
    {
      var b := EncodeArrayElement(meta, elements[i]);
      hide Raw, Slot, Slots, ElementCount;
      if b == None {
        return None;
      }
      OneMoreSlot(meta, elements, i);
      buf := buf + b.value;
    }
    assert elements[..|elements|] == elements;
    return Some(buf);
  }

  lemma OneMoreSlot(meta: Meta, elements: seq<Element>, i: nat)
    requires i < |elements| && Encodable(meta, elements[..i]) && Raw(meta, elements[i]).Some?
    ensures Encodable(meta, elements[..i + 1])
    ensures Slots(meta, Raws(meta, elements[..i + 1]))
            == Slots(meta, Raws(meta, elements[..i])) + Slot(meta, Raw(meta, elements[i]).value)
  {
    hide Raw, Slot;
    assert Raws(meta, elements[..i + 1])[..i] == Raws(meta, elements[..i]);
  }

  /** Fills the buffer up to the declared count with zero elements. */
  function PadSliceWire(meta: Meta, data: seq<byte>, actual: nat): seq<byte> {
    var missing := ElementCount(meta.dims) - actual;
    if missing <= 0 then data else data + Repeat(0, Total(missing, PutSize(meta)))
  }

  function Total(n: nat, size: nat): nat {
    n * size
  }

  /** Which elements a column takes, and their wire form, always a multiple of four bytes:
      integers in range big-endian in four or eight of them, a BOOLEAN in the first of four, text
      filled up with spaces to its length, a varying text behind its own length and filled up with
      zeros. */
  lemma WireForm(meta: Meta, e: Element)
    ensures EncodeArrayElement(meta, e).Some? <==>
            match e {
              case Number(v) =>
                || (meta.typeID == 500 && -0x8000 <= v < 0x8000)
                || (meta.typeID == 496 && -0x8000_0000 <= v < 0x8000_0000)
                || (meta.typeID in {580, 550} && -0x8000_0000_0000_0000 <= v < 0x8000_0000_0000_0000)
              case Bits(b) => (meta.typeID in {482, 560, 570} && |b| == 4) || (meta.typeID in {480, 510} && |b| == 8)
              case Flag(_) => meta.typeID == 32764
              case Text(enc) => meta.typeID in {452, 448} && |enc| <= meta.length
            }
    ensures EncodeArrayElement(meta, e).Some? ==>
              var wire := EncodeArrayElement(meta, e).value;
              && |wire| % 4 == 0
              && match e {
                   case Number(v) =>
                     |wire| == (if meta.typeID in {500, 496} then 4 else 8)
                     && Big(wire) == v % (if |wire| == 4 then 0x1_0000_0000 else 0x1_0000_0000_0000_0000)
                   case Bits(b) => wire == b
                   case Flag(b) => wire == [if b then 1 else 0, 0, 0, 0]
                   case Text(enc) =>
                     if meta.typeID == 452 then
                       |enc| <= meta.length <= |wire| < meta.length + 4 && wire[..|enc|] == enc
                       && forall i | |enc| <= i < |wire| :: wire[i] == ' ' as int
                     else
                       |enc| <= |wire| - 4 < |enc| + 4 && Big(wire[..4]) == |enc| % 0x1_0000_0000
                       && wire[4..4 + |enc|] == enc && forall i | 4 + |enc| <= i < |wire| :: wire[i] == 0
                 }
  {
    if Raw(meta, e).Some? {
      match e
      case Number(v) => NumberForm(meta, v);
      case Bits(b) =>
      case Flag(b) =>
      case Text(enc) => TextForm(meta, enc);
    }
  }

  lemma NumberForm(meta: Meta, v: int)
    requires Raw(meta, Number(v)).Some?
    ensures var wire := EncodeArrayElement(meta, Number(v)).value;
            && |wire| == (if meta.typeID == SHORT || meta.typeID == LONG then 4 else 8)
            && Big(wire) == v % (if |wire| == 4 then 0x1_0000_0000 else 0x1_0000_0000_0000_0000)
  {
    hide Word32BE, Word64BE, Big;
    WordsAreBigEndian(v);
  }

  lemma TextForm(meta: Meta, enc: seq<byte>)
    requires Raw(meta, Text(enc)).Some?
    ensures var wire := EncodeArrayElement(meta, Text(enc)).value;
            && |wire| % 4 == 0
            && if meta.typeID == TEXT then
                 |enc| <= meta.length <= |wire| < meta.length + 4 && wire[..|enc|] == enc
                 && forall i | |enc| <= i < |wire| :: wire[i] == ' ' as int
               else
                 |enc| <= |wire| - 4 < |enc| + 4 && Big(wire[..4]) == |enc| % 0x1_0000_0000
                 && wire[4..4 + |enc|] == enc && forall i | 4 + |enc| <= i < |wire| :: wire[i] == 0
  {
    hide Word32BE, Word64BE, Big;
    WordsAreBigEndian(|enc|);
    if meta.typeID == VARYING {
      assert |Word32BE(|enc|)| == 4;
      BehindLength(Word32BE(|enc|), enc, 0, RoundUp4(|enc|) - |enc|);
    }
  }

  /** Data behind its length word, filled up to a multiple of four. */
  lemma BehindLength(word: seq<byte>, data: seq<byte>, fill: byte, pad: nat)
    requires |word| == 4 && pad < 4 && (|data| + pad) % 4 == 0
    ensures var wire := word + data + Repeat(fill, pad);
            && |wire| % 4 == 0 && |data| <= |wire| - 4 < |data| + 4 && wire[..4] == word
            && wire[4..4 + |data|] == data && forall i | 4 + |data| <= i < |wire| :: wire[i] == fill
  {
  }

  // --- reading ----------------------------------------------------------

  datatype Transfer = Failed | Received(data: seq<byte>, rest: seq<byte>)

  /** Reads one element: a varying one keeps its length word and loses its padding. */
  function RecvElement(meta: Meta, s: seq<byte>): Read<seq<byte>> {
    if IsVarying(meta) then
      match RecvInt(s)
      case Short => Short
      case Read(l, rest) =>
        if l < 0 || l > meta.fieldBytes || l > MAX_WIRE_PAYLOAD then Short
        else
          match RecvAligned(rest, l)
          case Short => Short
          case Read(b, tail) => Read(s[..4] + b, tail)
    else RecvAligned(s, SlotSize(meta))
  }

  /** The first `count` elements of the stream. */
  function RecvElements(meta: Meta, s: seq<byte>, count: nat): Transfer {
    if count == 0 then Received([], s)
    else
      match RecvElements(meta, s, count - 1)
      case Failed => Failed
      case Received(data, rest) =>
        match RecvElement(meta, rest)
        case Short => Failed
        case Read(b, tail) => Received(data + b, tail)
  }

  lemma {:induction false} FailedStays(meta: Meta, s: seq<byte>, i: nat, count: nat)
    requires i <= count && RecvElements(meta, s, i).Failed?
    ensures RecvElements(meta, s, count).Failed?
  {
    if i < count {
      FailedStays(meta, s, i, count - 1);
    }
  }

  /** The element count a slice response announces, unless it is out of range. */
  function Announced(meta: Meta, slrLen: int, lstrLen: int): Option<nat> {
    if lstrLen < 0 || slrLen < 0 || lstrLen > MAX_WIRE_PAYLOAD then None
    else if lstrLen == 0 then Some(0)
    else if GetStride(meta) < 1 then None
    else
      var count := lstrLen / GetStride(meta);
      if 0 < ElementCount(meta.dims) < count then None else Some(count)
  }

  /** The body of a slice response: two lengths, then as many elements as they announce. */
  function Response(meta: Meta, s: seq<byte>): Transfer {
    if |s| < 8 then Failed
    else
      match Announced(meta, Int32BE(s), Int32BE(s[4..8]))
      case None => Failed
      case Some(count) => RecvElements(meta, s[8..], count)
  }

  /** Reads the body of a slice response from behind its opcode. */
  method OpSliceResponse(meta: Meta, s: seq<byte>) returns (r: Transfer)
    ensures r == Response(meta, s)
  {
    if |s| < 8 {
      return Failed;
    }
    var slrLen, lstrLen := Int32BE(s), Int32BE(s[4..8]);
    var rest := s[8..];
    if lstrLen < 0 || slrLen < 0 || lstrLen > MAX_WIRE_PAYLOAD {
      return Failed;
    }
    if lstrLen == 0 {
      return Received([], rest);
    }
    var stride := GetStride(meta);
    if stride < 1 {
      return Failed;
    }
    var count := lstrLen / stride;
    var max := AllElementsCount(meta.dims);
    if max > 0 && count > max {
      return Failed;
    }
    assert Announced(meta, slrLen, lstrLen) == Some(count);
    var data: seq<byte> := [];
    var body := rest;
    hide *;
    assert RecvElements(meta, body, 0) == Received([], body) by {
      NoElements(meta, body);
    }
    for i := 0 to count
      invariant RecvElements(meta, body, i) == Received(data, rest)
    {
      OneMore(meta, body, i);
      var chunk := Recv1(meta, rest);
      if chunk == Short {
        FailedStays(meta, body, i + 1, count);
        return Failed;
      }
      data := data + chunk.taken;
      rest := chunk.rest;
    }
    return Received(data, rest);
  }

  lemma NoElements(meta: Meta, s: seq<byte>)
    ensures RecvElements(meta, s, 0) == Received([], s)
  {
  }

  lemma OneMore(meta: Meta, s: seq<byte>, i: nat)
    requires RecvElements(meta, s, i).Received?
    ensures RecvElements(meta, s, i + 1)
            == match RecvElement(meta, RecvElements(meta, s, i).rest) {
                 case Short => Failed
                 case Read(b, tail) => Received(RecvElements(meta, s, i).data + b, tail)
               }
  {
  }

  /** One turn of the reading loop. */
  method Recv1(meta: Meta, s: seq<byte>) returns (chunk: Read<seq<byte>>)
    ensures chunk == RecvElement(meta, s)
  {
    if IsVarying(meta) {
      var lenBuf := Recv(s, 4);
      if lenBuf == Short {
        return Short;
      }
      var l := Int32BE(lenBuf.taken);
      assert l == Int32BE(s) by {
        assert s == s[..4] + s[4..];
        Int32BEPrefix(s[..4], s[4..]);
      }
      if l < 0 || l > meta.fieldBytes || l > MAX_WIRE_PAYLOAD {
        return Short;
      }
      var elemData := RecvAligned(lenBuf.rest, l);
      if elemData == Short {
        return Short;
      }
      return Read(lenBuf.taken + elemData.taken, elemData.rest);
    }
    chunk := RecvAligned(s, SlotSize(meta));
  }

  // --- counting and decoding --------------------------------------------

  /** Cuts a received buffer into its elements; a fixed-size remainder is dropped. */
  function Split(meta: Meta, data: seq<byte>): (raws: Option<seq<seq<byte>>>)
    ensures raws.Some? ==> Shaped(meta, raws.value)
    decreases |data|
  {
    if IsVarying(meta) then
      if data == [] then Some([])
      else if |data| < 4 then None
      else
        var l := UInt32BE(data);
        if 4 + l > |data| then None else Prepend(data[4..4 + l], Split(meta, data[4 + l..]))
    else if SlotSize(meta) < 1 then None
    else if |data| < SlotSize(meta) then Some([])
    else Prepend(data[..SlotSize(meta)], Split(meta, data[SlotSize(meta)..]))
  }

  function Prepend<T>(first: T, rest: Option<seq<T>>): Option<seq<T>> {
    match rest
    case None => None
    case Some(more) => Some([first] + more)
  }

  /** `front` elements and then the rest. */
  function Joined<T>(front: seq<T>, rest: Option<seq<T>>): Option<seq<T>> {
    match rest
    case None => None
    case Some(more) => Some(front + more)
  }

  lemma JoinStep<T>(front: seq<T>, next: T, rest: Option<seq<T>>)
    ensures Joined(front, Prepend(next, rest)) == Joined(front + [next], rest)
  {
    if rest.Some? {
      assert front + ([next] + rest.value) == (front + [next]) + rest.value;
    }
  }

  lemma {:induction false} FixedCount(meta: Meta, data: seq<byte>)
    requires !IsVarying(meta) && SlotSize(meta) >= 1
    ensures Split(meta, data).Some? && |Split(meta, data).value| == |data| / SlotSize(meta)
    decreases |data|
  {
    var n := SlotSize(meta);
    assert |data| >= n ==> Split(meta, data) == Prepend(data[..n], Split(meta, data[n..]));
    assert |data| < n ==> Split(meta, data) == Some([]);
    hide SlotSize, Split, IsVarying;
    if |data| < n {
      DivideSmall(|data|, n);
    } else {
      FixedCount(meta, data[n..]);
      DivideLess(|data|, n);
    }
  }

  lemma DivideSmall(a: nat, n: nat)
    requires a < n
    ensures a / n == 0
  {
  }

  lemma DivideLess(a: nat, n: nat)
    requires n >= 1 && a >= n
    ensures a / n == (a - n) / n + 1
  {
    var q, r := (a - n) / n, (a - n) % n;
    assert a == n * (q + 1) + r;
    RemainderIs(a, n, q + 1, r);
  }

  lemma JoinNothing<T>(rest: Option<seq<T>>)
    ensures Joined([], rest) == rest
  {
    if rest.Some? {
      assert [] + rest.value == rest.value;
    }
  }

  /** Counts the elements of a buffer: it accepts exactly the buffers that split. */
  method SliceElementCount(meta: Meta, data: seq<byte>) returns (count: Option<nat>)
    ensures count == match Split(meta, data) { case None => None case Some(raws) => Some(|raws|) }
  {
    if IsVarying(meta) {
      var n := 0;
      var rest := data;
      ghost var front: seq<seq<byte>> := [];
      JoinNothing(Split(meta, data));
      while |rest| > 0
        invariant |front| == n
        invariant Joined(front, Split(meta, rest)) == Split(meta, data)
      {
        if |rest| < 4 {
          return None;
        }
        var l := UInt32BE(rest[..4]) + 4;
        assert UInt32BE(rest[..4]) == UInt32BE(rest) by {
          assert rest == rest[..4] + rest[4..];
          Int32BEPrefix(rest[..4], rest[4..]);
        }
        if l > |rest| {
          return None;
        }
        JoinStep(front, rest[4..l], Split(meta, rest[l..]));
        front := front + [rest[4..l]];
        rest := rest[l..];
        n := n + 1;
      }
      return Some(n);
    }
    if SlotSize(meta) < 1 {
      return None;
    }
    FixedCount(meta, data);
    return Some(|data| / SlotSize(meta));
  }

  /** What is left to split at a position. */
  ghost predicate Reached(meta: Meta, data: seq<byte>, pos: int, out: seq<seq<byte>>) {
    0 <= pos <= |data| && Joined(out, Split(meta, data[pos..])) == Split(meta, data)
  }

  lemma ReachFixed(meta: Meta, data: seq<byte>, pos: int, out: seq<seq<byte>>)
    requires Reached(meta, data, pos, out) && Split(meta, data).Some? && |out| < |Split(meta, data).value|
    requires !IsVarying(meta)
    ensures pos + SlotSize(meta) <= |data|
    ensures Reached(meta, data, pos + SlotSize(meta), out + [data[pos..pos + SlotSize(meta)]])
  {
    hide *;
    MoreToSplit(meta, data, pos, out);
    FixedThere(meta, data, pos);
    ReachedNext(meta, data, pos, out, data[pos..pos + SlotSize(meta)], SlotSize(meta));
  }

  lemma FixedThere(meta: Meta, data: seq<byte>, pos: nat)
    requires !IsVarying(meta) && pos <= |data|
    requires Split(meta, data[pos..]).Some? && |Split(meta, data[pos..]).value| > 0
    ensures var n := SlotSize(meta);
            n >= 0 && pos + n <= |data|
            && Split(meta, data[pos..]) == Prepend(data[pos..pos + n], Split(meta, data[pos + n..]))
  {
    hide SlotSize;
    var rest, n := data[pos..], SlotSize(meta);
    assert n >= 1 && |rest| >= n;
    assert rest[..n] == data[pos..pos + n] && rest[n..] == data[pos + n..];
  }

  lemma ReachVarying(meta: Meta, data: seq<byte>, pos: int, out: seq<seq<byte>>)
    requires Reached(meta, data, pos, out) && Split(meta, data).Some? && |out| < |Split(meta, data).value|
    requires IsVarying(meta)
    ensures pos + 4 <= |data|
    ensures var l := UInt32BE(data[pos..pos + 4]);
            pos + 4 + l <= |data| && Reached(meta, data, pos + 4 + l, out + [data[pos + 4..pos + 4 + l]])
  {
    hide *;
    MoreToSplit(meta, data, pos, out);
    SplitsThere(meta, data, pos);
    var l := UInt32BE(data[pos..pos + 4]);
    ReachedNext(meta, data, pos, out, data[pos + 4..pos + 4 + l], 4 + l);
  }

  lemma SplitsThere(meta: Meta, data: seq<byte>, pos: nat)
    requires IsVarying(meta) && pos <= |data|
    requires Split(meta, data[pos..]).Some? && |Split(meta, data[pos..]).value| > 0
    ensures pos + 4 <= |data|
    ensures var l := UInt32BE(data[pos..pos + 4]);
            pos + 4 + l <= |data|
            && Split(meta, data[pos..]) == Prepend(data[pos + 4..pos + 4 + l], Split(meta, data[pos + 4 + l..]))
  {
    hide *;
    var rest := data[pos..];
    SplitsOnce(meta, rest);
    TailSlices(data, pos, 0, 4);
    TailSlices(data, pos, 4, 4 + UInt32BE(rest[..4]));
  }

  lemma TailSlices(data: seq<byte>, pos: nat, a: nat, b: nat)
    requires a <= b && pos + b <= |data|
    ensures data[pos..][a..b] == data[pos + a..pos + b] && data[pos..][b..] == data[pos + b..]
  {
  }

  lemma ReachedNext(meta: Meta, data: seq<byte>, pos: int, out: seq<seq<byte>>, next: seq<byte>, size: nat)
    requires Reached(meta, data, pos, out) && pos + size <= |data|
    requires Split(meta, data[pos..]) == Prepend(next, Split(meta, data[pos + size..]))
    ensures Reached(meta, data, pos + size, out + [next])
  {
    hide Split;
    JoinStep(out, next, Split(meta, data[pos + size..]));
  }

  lemma MoreToSplit(meta: Meta, data: seq<byte>, pos: int, out: seq<seq<byte>>)
    requires Reached(meta, data, pos, out) && Split(meta, data).Some? && |out| < |Split(meta, data).value|
    ensures 0 <= pos <= |data| && Split(meta, data[pos..]).Some? && |Split(meta, data[pos..]).value| > 0
  {
    hide Split;
  }

  /** The length word and the first element of a buffer that splits into some. */
  lemma SplitsOnce(meta: Meta, rest: seq<byte>)
    requires IsVarying(meta) && Split(meta, rest).Some? && |Split(meta, rest).value| > 0
    ensures |rest| >= 4
    ensures var l := UInt32BE(rest[..4]);
            4 + l <= |rest| && Split(meta, rest) == Prepend(rest[4..4 + l], Split(meta, rest[4 + l..]))
  {
    hide UInt32BE;
    assert rest == rest[..4] + rest[4..];
    Int32BEPrefix(rest[..4], rest[4..]);
  }

  /** The value byte of a BOOLEAN, the whole slot of any other element. */
  function Cut(meta: Meta, raw: seq<byte>): seq<byte> {
    if meta.typeID == BOOLEAN && |raw| > 0 then raw[..1] else raw
  }

  /** Unpacks a received buffer. Once the count is accepted no element can be truncated: it
      fails only on zoned types and on buffers that the counting pass refuses. */
  method DecodeSliceElements(meta: Meta, data: seq<byte>) returns (r: Option<seq<Element>>)
    ensures data == [] ==> r == Some([])
    ensures data != [] && (meta.typeID == TIME_TZ || meta.typeID == TIMESTAMP_TZ) ==> r == None
    ensures data != [] && meta.typeID != TIME_TZ && meta.typeID != TIMESTAMP_TZ ==>
              r == match Split(meta, data) {
                     case None => None
                     case Some(raws) => Some(Values(meta, raws))
                   }
  {
    if |data| == 0 {
      return Some([]);
    }
    if meta.typeID == TIME_TZ || meta.typeID == TIMESTAMP_TZ {
      return None;
    }
    var count := SliceElementCount(meta, data);
    if count == None {
      return None;
    }
    var out: seq<Element> := [];
    var pos := 0;
    ghost var raws: seq<seq<byte>> := [];
    assert data[0..] == data;
    JoinNothing(Split(meta, data));
    for i := 0 to count.value
      invariant Reached(meta, data, pos, raws) && |raws| == i
      invariant Shaped(meta, raws) && out == Values(meta, raws)
    {
      hide *;
      var cut, raw := CutElement(meta, data, pos, raws);
      pos := cut;
      ValuesSnoc(meta, raws, raw);
      raws := raws + [raw];
      out := out + [Value(meta, Cut(meta, raw))];
    }
    assert raws == Split(meta, data).value;
    return Some(out);
  }

  /** One turn of the decoding loop: the next element and the position behind it. Neither
      truncation error can fire, so there is always a next element. */
  method CutElement(meta: Meta, data: seq<byte>, pos: int, ghost raws: seq<seq<byte>>)
      returns (next: int, raw: seq<byte>)
    requires Reached(meta, data, pos, raws) && Split(meta, data).Some? && |raws| < |Split(meta, data).value|
    ensures Reached(meta, data, next, raws + [raw])
    ensures IsVarying(meta) || |raw| == SlotSize(meta)
  {
    assert 0 <= pos <= |data|;
    var elemLen := SlotSize(meta);
    if IsVarying(meta) {
      ReachVarying(meta, data, pos, raws);
      hide *;
      if |data| - pos < 4 {
        assert false;
      }
      var l := UInt32BE(data[pos..pos + 4]);
      next := pos + 4;
      if next + l > |data| {
        assert false;
      }
      raw := data[next..next + l];
      next := next + l;
    } else {
      ReachFixed(meta, data, pos, raws);
      hide *;
      if pos + elemLen > |data| {
        assert false;
      }
      raw := data[pos..pos + elemLen];
      next := pos + elemLen;
    }
  }

  // --- values -----------------------------------------------------------

  function TrimRight(s: seq<byte>, c: byte): (r: seq<byte>)
    ensures r <= s && (r == [] || r[|r| - 1] != c)
  {
    if s != [] && s[|s| - 1] == c then TrimRight(s[..|s| - 1], c) else s
  }

  function Int16(v: int): int {
    var u := v % 0x1_0000;
    if u >= 0x8000 then u - 0x1_0000 else u
  }

  /** The fewest bytes the conversion of one element looks at. */
  function Width(meta: Meta): nat {
    if meta.typeID == SHORT || meta.typeID == LONG then 4
    else if meta.typeID == INT64 then 8
    else if meta.typeID == BOOLEAN then 1
    else 0
  }

  /** The stored value of one element: text in a fixed slot loses trailing spaces and then
      trailing zeros, unless it is raw OCTETS. */
  function Value(meta: Meta, raw: seq<byte>): Element
    requires |raw| >= Width(meta)
  {
    if meta.typeID == SHORT then Number(Int16(Int32BE(raw)))
    else if meta.typeID == LONG then Number(Int32BE(raw))
    else if meta.typeID == INT64 then Number(Int64BE(raw))
    else if meta.typeID == BOOLEAN then Flag(raw[0] != 0)
    else if meta.typeID == TEXT then Text(if meta.octets then raw else TrimRight(TrimRight(raw, 0x20), 0))
    else if meta.typeID == VARYING then Text(raw)
    else Bits(raw)
  }

  /** The elements of a buffer all have the slot size of a fixed-size type. */
  predicate Shaped(meta: Meta, raws: seq<seq<byte>>) {
    forall i | 0 <= i < |raws| :: IsVarying(meta) || |raws[i]| == SlotSize(meta)
  }

  function Values(meta: Meta, raws: seq<seq<byte>>): (elements: seq<Element>)
    requires Shaped(meta, raws)
    ensures |elements| == |raws|
    ensures forall i | 0 <= i < |raws| :: elements[i] == Value(meta, Cut(meta, raws[i]))
  {
    seq(|raws|, i requires 0 <= i < |raws| => Value(meta, Cut(meta, raws[i])))
  }

  lemma ValuesSnoc(meta: Meta, raws: seq<seq<byte>>, raw: seq<byte>)
    requires Shaped(meta, raws) && (IsVarying(meta) || |raw| == SlotSize(meta))
    ensures Shaped(meta, raws + [raw])
    ensures Values(meta, raws + [raw]) == Values(meta, raws) + [Value(meta, Cut(meta, raw))]
  {
  }

  // --- the round trip -----------------------------------------------------

  /** A buffer as the reading loop returns it: varying elements keep their length word. */
  function Packed(meta: Meta, raws: seq<seq<byte>>): seq<byte> {
    if raws == [] then [] else Packed(meta, raws[..|raws| - 1]) + Pack(meta, raws[|raws| - 1])
  }

  function Pack(meta: Meta, raw: seq<byte>): seq<byte> {
    if IsVarying(meta) then Word32BE(|raw|) + raw else raw
  }

  /** The elements a reader of this column accepts. */
  predicate Readable(meta: Meta, raw: seq<byte>) {
    if IsVarying(meta) then |raw| <= meta.fieldBytes && |raw| <= MAX_WIRE_PAYLOAD else |raw| == SlotSize(meta)
  }

  predicate AllReadable(meta: Meta, raws: seq<seq<byte>>) {
    forall i | 0 <= i < |raws| :: Readable(meta, raws[i])
  }

  lemma RoundedIsAligned(n: nat)
    ensures RoundUp4(n) - n == Padding(n)
    ensures n % 4 == 0 ==> Padding(n) == 0
  {
  }

  /** One slot is read back as its packed form, and nothing behind it is touched. */
  lemma OneSlot(meta: Meta, raw: seq<byte>, rest: seq<byte>)
    requires Readable(meta, raw)
    ensures RecvElement(meta, Slot(meta, raw) + rest) == Read(Pack(meta, raw), rest)
  {
    if IsVarying(meta) {
      VaryingSlot(meta, raw, rest);
    } else {
      FixedSlot(meta, raw, rest);
    }
    hide *;
  }

  lemma FixedSlot(meta: Meta, raw: seq<byte>, rest: seq<byte>)
    requires !IsVarying(meta) && |raw| == SlotSize(meta)
    ensures RecvElement(meta, raw + rest) == Read(raw, rest)
  {
    assert SlotSize(meta) % 4 == 0;
    RoundedIsAligned(|raw|);
    assert RecvElement(meta, raw + rest) == RecvAligned(raw + rest, |raw|);
    hide *;
    RecvAlignedReads(raw, [], rest);
    assert raw + [] + rest == raw + rest;
  }

  lemma VaryingSlot(meta: Meta, raw: seq<byte>, rest: seq<byte>)
    requires IsVarying(meta) && |raw| <= meta.fieldBytes && |raw| <= MAX_WIRE_PAYLOAD
    ensures RecvElement(meta, Slot(meta, raw) + rest) == Read(Word32BE(|raw|) + raw, rest)
  {
    hide *;
    VaryingWire(meta, raw);
    RoundedIsAligned(|raw|);
    var fill := Repeat(0, RoundUp4(|raw|) - |raw|);
    var head := Word32BE(|raw|);
    Regroup(head, raw + fill, rest);
    Regroup(head, raw, fill);
    PayloadFits(|raw|);
    RecvIntReads(|raw|, raw + fill + rest);
    RecvAlignedReads(raw, fill, rest);
    LengthReads(|raw|, raw + fill + rest);
    assert (head + (raw + fill + rest))[..4] == head;
    VaryingElement(meta, head + (raw + fill + rest), |raw|, raw + fill + rest);
  }

  lemma VaryingWire(meta: Meta, raw: seq<byte>)
    requires IsVarying(meta)
    ensures RoundUp4(|raw|) >= |raw|
    ensures Slot(meta, raw) == (Word32BE(|raw|) + raw) + Repeat(0, RoundUp4(|raw|) - |raw|)
  {
    hide Word32BE;
  }

  lemma PayloadFits(n: nat)
    ensures n <= MAX_WIRE_PAYLOAD ==> FitsInt32(n)
  {
  }

  lemma VaryingElement(meta: Meta, s: seq<byte>, n: nat, body: seq<byte>)
    requires IsVarying(meta) && n <= meta.fieldBytes && n <= MAX_WIRE_PAYLOAD && |s| >= 4
    requires RecvInt(s) == Read(n, body) && RecvAligned(body, n).Read?
    ensures RecvElement(meta, s) == Read(s[..4] + RecvAligned(body, n).taken, RecvAligned(body, n).rest)
  {
    hide RecvInt, RecvAligned;
  }

  /** A slot is read back exactly when its element is one the reader accepts. */
  lemma SlotExact(meta: Meta, raw: seq<byte>, rest: seq<byte>)
    requires |raw| <= MAX_INT32
    ensures RecvElement(meta, Slot(meta, raw) + rest) == Read(Pack(meta, raw), rest) <==> Readable(meta, raw)
  {
    if Readable(meta, raw) {
      OneSlot(meta, raw, rest);
    } else if IsVarying(meta) {
      var tail := raw + Repeat(0, RoundUp4(|raw|) - |raw|) + rest;
      assert Slot(meta, raw) + rest == Word32BE(|raw|) + tail;
      RecvIntReads(|raw|, tail);
    }
  }

  lemma SlotsSnoc(meta: Meta, raws: seq<seq<byte>>, raw: seq<byte>)
    ensures Slots(meta, raws + [raw]) == Slots(meta, raws) + Slot(meta, raw)
    ensures Packed(meta, raws + [raw]) == Packed(meta, raws) + Pack(meta, raw)
  {
    assert (raws + [raw])[..|raws|] == raws;
  }

  lemma NoSlots(meta: Meta)
    ensures Slots(meta, []) == [] && Packed(meta, []) == []
  {
  }

  lemma ReadableParts(meta: Meta, raws: seq<seq<byte>>)
    requires AllReadable(meta, raws) && raws != []
    ensures AllReadable(meta, raws[..|raws| - 1]) && Readable(meta, raws[|raws| - 1])
  {
    hide Readable;
  }

  /** The reading loop over a stream that starts with the slots of readable elements returns
      their packed form and stops right behind them. */
  lemma {:induction false} ReadsWhatIsWritten(meta: Meta, raws: seq<seq<byte>>, rest: seq<byte>)
    requires AllReadable(meta, raws)
    ensures RecvElements(meta, Slots(meta, raws) + rest, |raws|) == Received(Packed(meta, raws), rest)
    decreases |raws|
  {
    NoSlots(meta);
    hide *;
    if raws == [] {
      assert [] + rest == rest;
      NoElements(meta, rest);
    } else {
      var n := |raws| - 1;
      var front, last := raws[..n], raws[n];
      assert raws == front + [last];
      assert AllReadable(meta, front) && Readable(meta, last) by {
        ReadableParts(meta, raws);
      }
      SlotsSnoc(meta, front, last);
      ReadsWhatIsWritten(meta, front, Slot(meta, last) + rest);
      OneSlot(meta, last, rest);
      Regroup(Slots(meta, front), Slot(meta, last), rest);
      OneMore(meta, Slots(meta, raws) + rest, n);
    }
  }

  /** Cutting a packed buffer gives back its elements. */
  lemma {:induction false} SplitUndoesPack(meta: Meta, raws: seq<seq<byte>>)
    requires AllReadable(meta, raws) && (IsVarying(meta) || SlotSize(meta) >= 1)
    ensures Split(meta, Packed(meta, raws)) == Some(raws)
  {
    assert Packed(meta, raws) + [] == Packed(meta, raws);
    assert Split(meta, []) == Some([]);
    SplitFront(meta, raws, []);
    assert raws + [] == raws;
  }

  lemma {:induction false} SplitFront(meta: Meta, raws: seq<seq<byte>>, tail: seq<byte>)
    requires AllReadable(meta, raws) && (IsVarying(meta) || SlotSize(meta) >= 1)
    ensures Split(meta, Packed(meta, raws) + tail) == Joined(raws, Split(meta, tail))
    decreases |raws|
  {
    NoSlots(meta);
    hide *;
    JoinNothing(Split(meta, tail));
    if raws == [] {
      assert [] + tail == tail;
    } else {
      var n := |raws| - 1;
      var front, last := raws[..n], raws[n];
      assert raws == front + [last];
      ReadableParts(meta, raws);
      SlotsSnoc(meta, front, last);
      SplitFront(meta, front, Pack(meta, last) + tail);
      SplitOne(meta, last, tail);
      JoinStep(front, last, Split(meta, tail));
      Regroup(Packed(meta, front), Pack(meta, last), tail);
    }
  }

  lemma SplitOne(meta: Meta, raw: seq<byte>, tail: seq<byte>)
    requires Readable(meta, raw) && (IsVarying(meta) || SlotSize(meta) >= 1)
    ensures Split(meta, Pack(meta, raw) + tail) == Prepend(raw, Split(meta, tail))
  {
    if IsVarying(meta) {
      SplitVaryingOne(meta, raw, tail);
    } else {
      hide Split;
      SplitFixedOne(meta, raw, tail);
    }
  }

  lemma SplitVaryingOne(meta: Meta, raw: seq<byte>, tail: seq<byte>)
    requires IsVarying(meta) && |raw| <= MAX_WIRE_PAYLOAD
    ensures Split(meta, Word32BE(|raw|) + raw + tail) == Prepend(raw, Split(meta, tail))
  {
    hide *;
    var head := Word32BE(|raw|);
    var data := head + raw + tail;
    Regroup(head, raw, tail);
    LengthReads(|raw|, raw + tail);
    assert data[4..4 + |raw|] == raw && data[4 + |raw|..] == tail;
    SplitStep(meta, data);
  }

  lemma LengthReads(n: nat, more: seq<byte>)
    requires n <= MAX_WIRE_PAYLOAD
    ensures |Word32BE(n)| == 4 && UInt32BE(Word32BE(n) + more) == n
  {
    Int32BEPrefix(Word32BE(n), more);
    WordsKeepLowBits(n);
    assert |Word32BE(n)| == 4;
    hide Word32BE, UInt32BE;
  }

  lemma SplitStep(meta: Meta, data: seq<byte>)
    requires IsVarying(meta) && |data| >= 4 && 4 + UInt32BE(data) <= |data|
    ensures var l := UInt32BE(data); Split(meta, data) == Prepend(data[4..4 + l], Split(meta, data[4 + l..]))
  {
  }

  lemma SplitFixedOne(meta: Meta, raw: seq<byte>, tail: seq<byte>)
    requires !IsVarying(meta) && |raw| == SlotSize(meta) >= 1
    ensures Split(meta, raw + tail) == Prepend(raw, Split(meta, tail))
  {
    hide SlotSize;
    var data := raw + tail;
    assert data[..|raw|] == raw && data[|raw|..] == tail;
  }

  /** The column types whose two geometries agree: what is put is what a get reads. */
  predicate Symmetric(meta: Meta) {
    && meta.typeID != QUAD
    && (meta.typeID == TEXT ==> RoundUp4(meta.length) == RoundUp4(meta.fieldBytes))
    && (meta.typeID == VARYING ==> meta.length <= meta.fieldBytes && meta.length <= MAX_WIRE_PAYLOAD)
  }

  lemma RawIsReadable(meta: Meta, e: Element)
    requires Symmetric(meta) && Raw(meta, e).Some?
    ensures Readable(meta, Raw(meta, e).value)
  {
  }

  /** The element the padding stands for. */
  function ZeroRaw(meta: Meta): seq<byte> {
    if IsVarying(meta) then [] else Repeat(0, PutSize(meta))
  }

  lemma {:induction false} ZeroSlots(meta: Meta, n: nat)
    ensures Slots(meta, Copies(ZeroRaw(meta), n)) == Repeat(0, Total(n, PutSize(meta)))
  {
    if n == 0 {
    } else {
      ZeroSlots(meta, n - 1);
      assert Copies(ZeroRaw(meta), n) == Copies(ZeroRaw(meta), n - 1) + [ZeroRaw(meta)];
      SlotsSnoc(meta, Copies(ZeroRaw(meta), n - 1), ZeroRaw(meta));
      ZeroSlot(meta);
      OneTotal(n, PutSize(meta));
    }
  }

  lemma ZeroSlot(meta: Meta)
    ensures Slot(meta, ZeroRaw(meta)) == Repeat(0, PutSize(meta))
  {
    if IsVarying(meta) {
      assert Word32BE(0) == [0, 0, 0, 0];
    }
  }

  lemma OneTotal(n: nat, size: nat)
    requires n > 0
    ensures Total(n, size) == Total(n - 1, size) + size
  {
  }

  lemma {:induction false} SlotsAppend(meta: Meta, a: seq<seq<byte>>, b: seq<seq<byte>>)
    ensures Slots(meta, a + b) == Slots(meta, a) + Slots(meta, b)
    decreases |b|
  {
    NoSlots(meta);
    hide *;
    if b == [] {
      assert a + b == a;
    } else {
      var n := |b| - 1;
      assert a + b == (a + b[..n]) + [b[n]];
      assert b == b[..n] + [b[n]];
      SlotsSnoc(meta, b[..n], b[n]);
      SlotsSnoc(meta, a + b[..n], b[n]);
      SlotsAppend(meta, a, b[..n]);
    }
  }

  /** The wire form sent for a stored array: its elements and the zero elements up to the
      declared count. */
  function Stored(meta: Meta, elements: seq<Element>): seq<seq<byte>>
    requires Encodable(meta, elements) && |elements| <= ElementCount(meta.dims)
  {
    Raws(meta, elements) + Copies(ZeroRaw(meta), ElementCount(meta.dims) - |elements|)
  }

  lemma PaddedWire(meta: Meta, elements: seq<Element>)
    requires Encodable(meta, elements) && |elements| <= ElementCount(meta.dims)
    ensures PadSliceWire(meta, Slots(meta, Raws(meta, elements)), |elements|) == Slots(meta, Stored(meta, elements))
  {
    hide Raw, Slot, Slots, ElementCount, ZeroRaw;
    var missing := ElementCount(meta.dims) - |elements|;
    SlotsAppend(meta, Raws(meta, elements), Copies(ZeroRaw(meta), missing));
    ZeroSlots(meta, missing);
    if missing == 0 {
      NoTotal(PutSize(meta));
      assert Repeat(0, 0) == [];
    }
  }

  lemma NoTotal(size: nat)
    ensures Total(0, size) == 0
  {
  }

  lemma StoredIsReadable(meta: Meta, elements: seq<Element>)
    requires Symmetric(meta) && Encodable(meta, elements) && |elements| <= ElementCount(meta.dims)
    ensures |Stored(meta, elements)| == ElementCount(meta.dims)
    ensures AllReadable(meta, Stored(meta, elements))
  {
    hide Raw, ElementCount;
    forall i | 0 <= i < |elements|
      ensures Readable(meta, Raws(meta, elements)[i])
    {
      RawIsReadable(meta, elements[i]);
    }
    assert Readable(meta, ZeroRaw(meta));
  }

  /** A server that announces the declared number of its own elements and sends a stored array
      back: the driver reads exactly its bytes and decodes the stored elements followed by zero
      elements. */
  lemma SliceRoundTrip(meta: Meta, elements: seq<Element>, rest: seq<byte>, slrLen: nat)
    requires Symmetric(meta) && Encodable(meta, elements) && |elements| <= ElementCount(meta.dims)
    requires 0 < ElementCount(meta.dims) * ServerBytes(meta, meta.fieldBytes) <= MAX_WIRE_PAYLOAD
    requires slrLen <= MAX_INT32
    ensures var wire := PadSliceWire(meta, Slots(meta, Raws(meta, elements)), |elements|);
            var announced := Word32BE(ElementCount(meta.dims) * ServerBytes(meta, meta.fieldBytes));
            var read := Response(meta, Word32BE(slrLen) + announced + wire + rest);
            read.Received? && read.rest == rest && Split(meta, read.data) == Some(Stored(meta, elements))
  {
    var raws := Stored(meta, elements);
    SomeElements(meta);
    PaddedWire(meta, elements);
    StoredIsReadable(meta, elements);
    hide *;
    ResponseReadsBack(meta, raws, slrLen, rest);
    SplitUndoesPack(meta, raws);
  }

  lemma SomeElements(meta: Meta)
    requires 0 < ElementCount(meta.dims) * ServerBytes(meta, meta.fieldBytes)
    ensures ElementCount(meta.dims) > 0 && ServerBytes(meta, meta.fieldBytes) > 0
    ensures IsVarying(meta) || SlotSize(meta) >= 1
  {
    hide *;
    PositiveFactors(ElementCount(meta.dims), ServerBytes(meta, meta.fieldBytes));
    SomeSlot(meta);
  }

  lemma SomeSlot(meta: Meta)
    requires ServerBytes(meta, meta.fieldBytes) > 0
    ensures IsVarying(meta) || SlotSize(meta) >= 1
  {
  }

  lemma PositiveFactors(n: int, m: nat)
    requires 0 < n * m
    ensures n > 0 && m > 0
  {
  }

  /** The bytes of one element in the server's own buffer, where text takes `text` of them and a
      varying text a word more; a type the driver does not know takes its declared length. */
  function ServerBytes(meta: Meta, text: nat): nat {
    match meta.typeID
    case 500 => 2                     // SHORT
    case 496 => 4                     // LONG
    case 482 => 4                     // FLOAT
    case 560 => 4                     // TIME
    case 570 => 4                     // DATE
    case 480 => 8                     // DOUBLE
    case 510 => 8                     // TIMESTAMP
    case 580 => 8                     // INT64
    case 32764 => 1                   // BOOLEAN
    case 452 => text                  // TEXT
    case 448 => text + 2              // VARYING
    case _ => meta.length
  }

  lemma StridesAreTheServers(meta: Meta)
    ensures PutStride(meta) == ServerBytes(meta, meta.length)
    ensures GetStride(meta) == ServerBytes(meta, meta.fieldBytes)
  {
  }

  /** A server that announces n of its elements, text with its length in bytes, has exactly n
      read, unless the column declares fewer. */
  lemma AnnouncedCount(meta: Meta, slrLen: nat, n: nat)
    requires ServerBytes(meta, meta.fieldBytes) > 0
    requires 0 <= n * ServerBytes(meta, meta.fieldBytes) <= MAX_WIRE_PAYLOAD
    ensures Announced(meta, slrLen, n * ServerBytes(meta, meta.fieldBytes))
            == if 0 < ElementCount(meta.dims) < n then None else Some(n)
  {
    StridesAreTheServers(meta);
    var stride := ServerBytes(meta, meta.fieldBytes);
    hide ElementCount, GetStride, ServerBytes;
    RemainderIs(n * stride, stride, n, 0);
    if n > 0 {
      PositiveProduct(n, stride);
    }
  }

  lemma PositiveProduct(n: nat, stride: nat)
    requires n > 0 && stride > 0
    ensures n * stride > 0
  {
  }

  /** The length declared on put is that of the declared number of the server's elements, text
      with its length in characters. */
  lemma PutCount(meta: Meta)
    ensures PutLength(meta) == ElementCount(meta.dims) * ServerBytes(meta, meta.length)
    ensures GetLength(meta) == ElementCount(meta.dims) * ServerBytes(meta, meta.fieldBytes)
  {
    StridesAreTheServers(meta);
    hide ServerBytes, PutStride, GetStride, ElementCount;
  }

  /** A response with n elements, announced in the server's own bytes, gives those elements and
      leaves the stream right behind them. */
  lemma ResponseReadsBack(meta: Meta, raws: seq<seq<byte>>, slrLen: nat, rest: seq<byte>)
    requires AllReadable(meta, raws) && slrLen <= MAX_INT32 && ServerBytes(meta, meta.fieldBytes) > 0
    requires 0 <= |raws| * ServerBytes(meta, meta.fieldBytes) <= MAX_WIRE_PAYLOAD
    requires |raws| <= ElementCount(meta.dims)
    ensures var body := Word32BE(slrLen) + Word32BE(|raws| * ServerBytes(meta, meta.fieldBytes)) + Slots(meta, raws);
            Response(meta, body + rest) == Received(Packed(meta, raws), rest)
  {
    assert MAX_WIRE_PAYLOAD <= MAX_INT32;
    hide *;
    var lstrLen := |raws| * ServerBytes(meta, meta.fieldBytes);
    AnnouncedCount(meta, slrLen, |raws|);
    TwoLengths(slrLen, lstrLen, Slots(meta, raws), rest);
    ReadsWhatIsWritten(meta, raws, rest);
    ResponseParts(meta, Word32BE(slrLen) + Word32BE(lstrLen) + Slots(meta, raws) + rest);
  }

  lemma ResponseParts(meta: Meta, s: seq<byte>)
    requires |s| >= 8 && Announced(meta, Int32BE(s), Int32BE(s[4..8])).Some?
    ensures Response(meta, s) == RecvElements(meta, s[8..], Announced(meta, Int32BE(s), Int32BE(s[4..8])).value)
  {
    hide Announced, RecvElements;
  }

  lemma TwoLengths(a: nat, b: nat, more: seq<byte>, rest: seq<byte>)
    requires a <= MAX_INT32 && b <= MAX_INT32
    ensures var s := Word32BE(a) + Word32BE(b) + more + rest;
            |s| >= 8 && Int32BE(s) == a && Int32BE(s[4..8]) == b && s[8..] == more + rest
  {
    var s := Word32BE(a) + Word32BE(b) + more + rest;
    Int32RoundTrip(a);
    Int32RoundTrip(b);
    assert |Word32BE(a)| == 4 && |Word32BE(b)| == 4;
    assert s == Word32BE(a) + (Word32BE(b) + more + rest);
    Int32BEPrefix(Word32BE(a), Word32BE(b) + more + rest);
    assert s[4..8] == Word32BE(b) && s[8..] == more + rest;
    hide Word32BE, UInt32BE;
  }

  lemma {:induction false} TrimPadding(text: seq<byte>, n: nat)
    ensures TrimRight(text + Repeat(0x20, n), 0x20) == TrimRight(text, 0x20)
  {
    if n == 0 {
      assert text + Repeat(0x20, 0) == text;
    } else {
      TrimPadding(text, n - 1);
      var padded := text + Repeat(0x20, n);
      assert padded[..|padded| - 1] == text + Repeat(0x20, n - 1);
    }
  }

  /** What is kept of an element: fixed-size text loses trailing spaces and zeros, OCTETS
      gain the padding of their slot, and anything else is itself. */
  function Kept(meta: Meta, e: Element): Element
    requires Raw(meta, e).Some?
  {
    if meta.typeID != TEXT || !e.Text? then e
    else if meta.octets then Text(Raw(meta, e).value)
    else Text(TrimRight(TrimRight(e.bytes, 0x20), 0))
  }

  /** The value of an element that was never supplied. */
  function Zero(meta: Meta): Element {
    if meta.typeID == SHORT || meta.typeID == LONG || meta.typeID == INT64 then Number(0)
    else if meta.typeID == BOOLEAN then Flag(false)
    else if meta.typeID == TEXT && meta.octets then Text(Repeat(0, PutSize(meta)))
    else if meta.typeID == TEXT || meta.typeID == VARYING then Text([])
    else Bits(Repeat(0, PutSize(meta)))
  }

  lemma {:induction false} TrimZeros(n: nat)
    ensures TrimRight(TrimRight(Repeat(0, n), 0x20), 0) == []
  {
    if n > 0 {
      TrimZeros(n - 1);
      assert Repeat(0, n)[..n - 1] == Repeat(0, n - 1);
      assert TrimRight(Repeat(0, n - 1), 0x20) == Repeat(0, n - 1);
    }
  }

  lemma ZeroValue(meta: Meta)
    requires Symmetric(meta)
    ensures IsVarying(meta) || |ZeroRaw(meta)| == SlotSize(meta)
    ensures |Cut(meta, ZeroRaw(meta))| >= Width(meta) && Value(meta, Cut(meta, ZeroRaw(meta))) == Zero(meta)
  {
    if meta.typeID == TEXT && !meta.octets {
      TrimZeros(PutSize(meta));
    }
  }

  /** The decoded values of a stored array: what is kept of each element, then zeros up to
      the declared count. */
  lemma StoredValues(meta: Meta, elements: seq<Element>)
    requires Symmetric(meta) && Encodable(meta, elements) && |elements| <= ElementCount(meta.dims)
    ensures Shaped(meta, Stored(meta, elements))
    ensures var values := Values(meta, Stored(meta, elements));
            |values| == ElementCount(meta.dims)
            && (forall i | 0 <= i < |elements| :: values[i] == Kept(meta, elements[i]))
            && (forall i | |elements| <= i < |values| :: values[i] == Zero(meta))
  {
    ZeroValue(meta);
    StoredIsReadable(meta, elements);
    hide Raw, ElementCount, Kept, Value, Cut, ZeroRaw, Zero, SlotSize, Width;
    forall i | 0 <= i < |elements|
      ensures Value(meta, Cut(meta, Raws(meta, elements)[i])) == Kept(meta, elements[i])
    {
      ValueOfRaw(meta, elements[i]);
    }
  }

  /** The value of a stored element is what is kept of it. */
  lemma ValueOfRaw(meta: Meta, e: Element)
    requires Symmetric(meta) && Raw(meta, e).Some?
    ensures var raw := Cut(meta, Raw(meta, e).value);
            |raw| >= Width(meta)
            && Value(meta, raw) == Kept(meta, e)
  {
    match e
    case Number(v) => ValueOfNumber(meta, v);
    case Bits(b) =>
    case Flag(b) =>
    case Text(enc) => ValueOfText(meta, enc);
  }

  lemma ValueOfText(meta: Meta, enc: seq<byte>)
    requires Raw(meta, Text(enc)).Some?
    ensures Cut(meta, Raw(meta, Text(enc)).value) == Raw(meta, Text(enc)).value
    ensures Width(meta) == 0
    ensures Value(meta, Raw(meta, Text(enc)).value) == Kept(meta, Text(enc))
  {
    hide TrimRight;
    if meta.typeID == TEXT {
      TrimPadding(enc, RoundUp4(meta.length) - |enc|);
    }
  }

  lemma ValueOfNumber(meta: Meta, v: int)
    requires meta.typeID != QUAD && Raw(meta, Number(v)).Some?
    ensures |Raw(meta, Number(v)).value| >= Width(meta)
    ensures Value(meta, Raw(meta, Number(v)).value) == Number(v)
    ensures meta.typeID != BOOLEAN && meta.typeID != TEXT
  {
    Int32RoundTrip(v);
    if FitsInt64(v) {
      Int64RoundTrip(v);
    }
    if -0x8000 <= v <= 0x7fff {
      LowWord(v);
    }
    hide Word32BE, Word64BE, Int32BE, Int64BE, ToInt32, Int16;
    WordLengths(v);
  }

  lemma WordLengths(v: int)
    ensures |Word32BE(v)| == 4 && |Word64BE(v)| == 8
  {
  }

  lemma LowWord(v: int)
    requires -0x8000 <= v <= 0x7fff
    ensures Int16(v) == v
  {
  }

  /** Text survives a fixed-size slot exactly when it does not end in a space or a zero. */
  lemma TextSurvives(text: seq<byte>)
    ensures TrimRight(TrimRight(text, 0x20), 0) == text
            <==> (text == [] || (text[|text| - 1] != 0x20 && text[|text| - 1] != 0))
  {
    if text != [] && text[|text| - 1] == 0x20 {
      assert |TrimRight(text, 0x20)| < |text|;
    }
  }

  /** A QUAD column is written with 8 bytes an element and read with 4, so the reader takes
      the bytes of the wire form exactly when no element was stored. */
  lemma QuadIsLopsided(meta: Meta, elements: seq<Element>)
    requires meta.typeID == QUAD && Encodable(meta, elements) && |elements| <= ElementCount(meta.dims)
    ensures |PadSliceWire(meta, Slots(meta, Raws(meta, elements)), |elements|)|
               == Total(ElementCount(meta.dims), SlotSize(meta))
            <==> elements == []
  {
    forall i | 0 <= i < |elements|
      ensures |Slot(meta, Raws(meta, elements)[i])| == 8
    {
      assert |Raw(meta, elements[i]).value| == 8;
    }
    EqualSlots(meta, Raws(meta, elements), 8);
    QuadTotals(ElementCount(meta.dims), |elements|);
  }

  /** Fixed-size text is written with its length in characters and read with its length in
      bytes, so the reader takes the bytes of the wire form exactly when the two take the same
      number of words. */
  lemma TextNeedsOneGeometry(meta: Meta, elements: seq<Element>)
    requires meta.typeID == TEXT && Encodable(meta, elements)
    requires |elements| <= ElementCount(meta.dims) && ElementCount(meta.dims) > 0
    ensures |PadSliceWire(meta, Slots(meta, Raws(meta, elements)), |elements|)|
               == Total(ElementCount(meta.dims), SlotSize(meta))
            <==> Symmetric(meta)
  {
    var size := RoundUp4(meta.length);
    forall i | 0 <= i < |elements|
      ensures |Slot(meta, Raws(meta, elements)[i])| == size
    {
      assert |Raw(meta, elements[i]).value| == size;
    }
    EqualSlots(meta, Raws(meta, elements), size);
    var n, k := ElementCount(meta.dims), |elements|;
    hide ElementCount, Raw, Slot, Slots;
    TotalSplit(n, k, size);
    TotalsDiffer(n, size, SlotSize(meta));
    if n == k {
      NoTotal(size);
    }
  }

  lemma TotalSplit(n: nat, k: nat, size: nat)
    requires k <= n
    ensures Total(k, size) + Total(n - k, size) == Total(n, size)
  {
  }

  lemma TotalsDiffer(n: nat, a: nat, b: nat)
    requires n > 0
    ensures Total(n, a) == Total(n, b) <==> a == b
  {
    if a != b {
      assert n * (a - b) != 0;
      assert n * a - n * b == n * (a - b);
    }
  }

  lemma QuadTotals(n: nat, k: nat)
    requires k <= n
    ensures Total(k, 8) + Total(n - k, 4) == Total(n, 4) <==> k == 0
    ensures Total(k, 8) == Total(k, 4) <==> k == 0
  {
  }

  lemma {:induction false} EqualSlots(meta: Meta, raws: seq<seq<byte>>, size: nat)
    requires forall i | 0 <= i < |raws| :: |Slot(meta, raws[i])| == size
    ensures |Slots(meta, raws)| == Total(|raws|, size)
  {
    if raws != [] {
      var n := |raws| - 1;
      EqualSlots(meta, raws[..n], size);
      OneTotal(|raws|, size);
    }
  }
}
