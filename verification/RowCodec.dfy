/** Message rows: the batch writer's null bitmap and fields, and the row reader of protocol 13
    and later. */
module RowCodec {
  import opened Bytes
  import opened Collections
  import opened ModularPower
  import opened BigEndian
  import opened ArraySlice

  const BLOB := 520
  const ARRAY := 540
  const INT128 := 32752
  const DEC_FIXED := 32758
  const DEC64 := 32760
  const DEC128 := 32762
  const NULL_TYPE := 32766

  datatype Column = Column(sqlType: int, sqlLen: nat)

  /** The length a reader expects of a column: negative when it is on the wire. */
  function IoLength(x: Column): int {
    var t := x.sqlType;
    if t == TEXT then x.sqlLen
    else if t == VARYING then -1
    else if t == SHORT || t == LONG || t == FLOAT || t == TIME || t == DATE then 4
    else if t == DOUBLE || t == TIMESTAMP || t == BLOB || t == ARRAY || t == QUAD || t == INT64
            || t == TIME_TZ || t == DEC64 then 8
    else if t == TIMESTAMP_TZ then 12
    else if t == INT128 || t == DEC128 || t == DEC_FIXED then 16
    else if t == BOOLEAN then 1
    else 0
  }

  // --- bits ---------------------------------------------------------------

  function Weight(k: int): int
    requires 0 <= k < 8
  {
    if k == 0 then 1 else if k == 1 then 2 else if k == 2 then 4 else if k == 3 then 8
    else if k == 4 then 16 else if k == 5 then 32 else if k == 6 then 64 else 128
  }

  predicate Bit(b: byte, k: int)
    requires 0 <= k < 8
  {
    var v: int := b;
    v / Weight(k) % 2 == 1
  }

  /** Sets one bit of a byte. */
  function SetBit(b: byte, k: int): byte
    requires 0 <= k < 8
  {
    var v: int := b;
    if Bit(b, k) then b
    else
      BitFits(v, k);
      v + Weight(k)
  }

  lemma BitFits(v: int, k: int)
    requires 0 <= v < 256 && 0 <= k < 8 && v / Weight(k) % 2 == 0
    ensures v + Weight(k) < 256
  {
  }

  /** Setting a bit turns on that bit and leaves every other one. */
  lemma SetBitExact(b: byte, k: int, j: int)
    requires 0 <= k < 8 && 0 <= j < 8
    ensures Bit(SetBit(b, k), j) <==> j == k || Bit(b, j)
  {
    var v: int := b;
    if !Bit(b, k) {
      AddWeight(v, k, j);
    }
  }

  lemma AddWeight(v: int, k: int, j: int)
    requires 0 <= v < 256 && 0 <= k < 8 && 0 <= j < 8 && v / Weight(k) % 2 == 0
    ensures j == k ==> (v + Weight(k)) / Weight(j) % 2 == 1
    ensures j != k ==> (v + Weight(k)) / Weight(j) % 2 == v / Weight(j) % 2
  {
    Weights(k, j);
    var w, u := Weight(k), Weight(j);
    hide *;
    if j == k {
      SameBit(v, w);
    } else if j > k {
      HigherBit(v, w, u / (2 * w));
    } else {
      LowerBit(v, u, w / u / 2);
    }
  }

  lemma Weights(k: int, j: int)
    requires 0 <= k < 8 && 0 <= j < 8
    ensures Weight(k) > 0 && Weight(j) > 0
    ensures j > k ==> Weight(j) / (2 * Weight(k)) > 0 && Weight(j) == Weight(j) / (2 * Weight(k)) * (2 * Weight(k))
    ensures j < k ==> Weight(k) / Weight(j) / 2 > 0 && Weight(k) == Weight(j) * (2 * (Weight(k) / Weight(j) / 2))
  {
  }

  lemma SameBit(v: int, w: int)
    requires v >= 0 && w > 0 && v / w % 2 == 0
    ensures (v + w) / w % 2 == 1
  {
    QuotientOfSum(w, v / w + 1, v % w);
    assert v == w * (v / w) + v % w;
    assert w * (v / w + 1) == w * (v / w) + w;
  }

  /** The bits above a clear bit do not change when the bit is set. */
  lemma HigherBit(v: int, w: int, m: int)
    requires v >= 0 && w > 0 && m > 0 && v / w % 2 == 0
    ensures m * (2 * w) > 0 && (v + w) / (m * (2 * w)) == v / (m * (2 * w))
  {
    var a, r := v / w / 2, v % w;
    assert v == w * (2 * a) + r by {
      assert v / w == 2 * a;
      assert v == w * (v / w) + r;
    }
    HighPart(w, a, r);
    TwoDivisions(v, m, 2 * w);
    TwoDivisions(v + w, m, 2 * w);
  }

  lemma LowerBit(v: int, u: int, h: int)
    requires v >= 0 && u > 0 && h > 0
    ensures (v + u * (2 * h)) / u % 2 == v / u % 2
  {
    assert v == u * (v / u) + v % u;
    assert u * (v / u + 2 * h) == u * (v / u) + u * (2 * h);
    QuotientOfSum(u, v / u + 2 * h, v % u);
    Parity(v / u, h);
  }

  lemma QuotientOfSum(w: int, q: int, r: int)
    requires w > 0 && 0 <= r < w
    ensures (w * q + r) / w == q
  {
    RemainderIs(w * q + r, w, q, r);
  }

  /** The part above a clear bit does not change when the bit is set. */
  lemma HighPart(w: int, a: int, r: int)
    requires w > 0 && 0 <= r < w
    ensures (w * (2 * a) + r) / (2 * w) == a
    ensures (w * (2 * a) + r + w) / (2 * w) == a
  {
    assert w * (2 * a) == (2 * w) * a;
    RemainderIs(w * (2 * a) + r, 2 * w, a, r);
    RemainderIs(w * (2 * a) + r + w, 2 * w, a, r + w);
  }

  lemma Parity(x: int, h: int)
    ensures (x + 2 * h) % 2 == x % 2
  {
  }

  // --- the null bitmap ------------------------------------------------------

  /** The m-th bit of a run of bytes, counting from the low bit of the first. */
  predicate NullBit(bytes: seq<byte>, m: nat)
    requires m / 8 < |bytes|
  {
    Bit(bytes[m / 8], m % 8)
  }

  lemma SetNullBit(bytes: seq<byte>, i: nat, m: nat)
    requires i / 8 < |bytes| && m / 8 < |bytes|
    ensures NullBit(bytes[i / 8 := SetBit(bytes[i / 8], i % 8)], m) <==> m == i || NullBit(bytes, m)
  {
    SetBitExact(bytes[i / 8], i % 8, m % 8);
    hide Bit, SetBit;
    if m / 8 == i / 8 && m % 8 == i % 8 {
      assert m == i;
    }
  }

  lemma NoBits(n: nat, m: nat)
    requires m / 8 < n
    ensures !NullBit(Repeat(0, n), m)
  {
  }

  lemma ByteOf(i: nat, n: nat)
    requires i < n
    ensures i / 8 < (n + 7) / 8
  {
  }

  // --- fields ---------------------------------------------------------------

  /** The bytes of a converted argument. Text is cut to the column, integers wrap, and other
      types are sent as text. */
  function EncodeBatchField(x: Column, e: Element): Option<seq<byte>> {
    var t := x.sqlType;
    if t == SHORT || t == LONG then (if e.Number? then Some(Word32BE(e.v)) else None)
    else if t == INT64 || t == QUAD then (if e.Number? then Some(Word64BE(e.v)) else None)
    else if t == FLOAT || t == DATE || t == TIME then (if e.Bits? && |e.bytes| == 4 then Some(e.bytes) else None)
    else if t == DOUBLE || t == TIMESTAMP then (if e.Bits? && |e.bytes| == 8 then Some(e.bytes) else None)
    else if t == BOOLEAN then (if e.Flag? then Some([if e.b then 1 else 0]) else None)
    else if t == TEXT || t == VARYING then
      (if !e.Text? then None
       else Some(if x.sqlLen > 0 && |e.bytes| > x.sqlLen then e.bytes[..x.sqlLen] else e.bytes))
    else if t == BLOB || t == ARRAY then None
    else (if e.Text? then Some(e.bytes) else None)
  }

  function Spaces(n: nat): seq<byte> {
    Repeat(0x20, n)
  }

  /** The wire form of one field that is not null. */
  function FieldWire(x: Column, fb: seq<byte>): seq<byte> {
    if x.sqlType == NULL_TYPE then []
    else if x.sqlType == VARYING then Word32BE(|fb|) + fb + Spaces(Padding(|fb|))
    else if x.sqlType == TEXT then Cell(x, fb) + Spaces(Padding(x.sqlLen))
    else if x.sqlType == BOOLEAN then fb + Repeat(0, Padding(|fb|))
    else fb
  }

  /** Fixed-size text: cut to the column or filled with spaces. */
  function Cell(x: Column, fb: seq<byte>): (cell: seq<byte>)
    ensures |cell| == x.sqlLen
  {
    if |fb| > x.sqlLen then fb[..x.sqlLen] else fb + Spaces(x.sqlLen - |fb|)
  }

  /** What the reader hands on for one field. */
  function FieldRaw(x: Column, fb: seq<byte>): seq<byte> {
    if x.sqlType == NULL_TYPE then []
    else if x.sqlType == TEXT then Cell(x, fb)
    else fb
  }

  // --- writing rows -----------------------------------------------------------

  /** The converted fields, with nothing for a nil argument. */
  predicate Converts(xs: seq<Column>, args: seq<Option<Element>>) {
    |args| == |xs| && forall i | 0 <= i < |args| :: args[i].Some? ==> EncodeBatchField(xs[i], args[i].value).Some?
  }

  function FieldAt(x: Column, arg: Option<Element>): Option<seq<byte>> {
    match arg
    case None => None
    case Some(e) => EncodeBatchField(x, e)
  }

  function Fields(xs: seq<Column>, args: seq<Option<Element>>): (fields: seq<Option<seq<byte>>>)
    requires |args| == |xs|
    ensures |fields| == |xs|
    ensures forall i | 0 <= i < |xs| :: fields[i] == FieldAt(xs[i], args[i])
  {
    seq(|xs|, i requires 0 <= i < |xs| => FieldAt(xs[i], args[i]))
  }

  function PartOf(x: Column, field: Option<seq<byte>>): seq<byte> {
    match field
    case None => []
    case Some(fb) => FieldWire(x, fb)
  }

  /** The wire form of the first n fields. */
  function Body(xs: seq<Column>, fields: seq<Option<seq<byte>>>, n: nat): seq<byte>
    requires n <= |xs| == |fields|
  {
    if n == 0 then [] else Body(xs, fields, n - 1) + PartOf(xs[n - 1], fields[n - 1])
  }

  /** The bitmap marks exactly the null fields, in bytes rounded up to a multiple of four. */
  ghost predicate IsBitmap(bytes: seq<byte>, fields: seq<Option<seq<byte>>>) {
    && |bytes| == RoundUp4((|fields| + 7) / 8)
    && forall m: nat | m / 8 < |bytes| :: NullBit(bytes, m) <==> m < |fields| && fields[m] == None
  }

  method EncodeBatchRow(xs: seq<Column>, args: seq<Option<Element>>) returns (row: Option<seq<byte>>)
    ensures row.Some? <==> Converts(xs, args)
    ensures row.Some? ==>
              exists nulls :: IsBitmap(nulls, Fields(xs, args)) && row.value == nulls + Body(xs, Fields(xs, args), |xs|)
  {
    hide *;
    if |args| != |xs| {
      NotConverted(xs, args);
      return None;
    }
    var n := (|xs| + 7) / 8;
    if n % 4 != 0 {
      n := n + 4 - n % 4;
    }
    assert n == RoundUp4((|xs| + 7) / 8) by {
      Rounded((|xs| + 7) / 8);
    }
    var nullBytes, fieldBufs := CollectFields(xs, args, n);
    if fieldBufs == None {
      return None;
    }
    ghost var fields := Fields(xs, args);
    var out := nullBytes;
    BodyStart(xs, fields);
    assert out + [] == out;
    for i := 0 to |xs|
      invariant out == nullBytes + Body(xs, fields, i)
    {
      BodyStep(xs, fields, nullBytes, i);
      BitmapAt(nullBytes, fields, i);
      if NullBit(nullBytes, i) {
        assert out + [] == out;
        continue;
      }
      var wire := WriteField(xs[i], fieldBufs.value[i].value);
      out := out + wire;
    }
    assert out == nullBytes + Body(xs, fields, |xs|) && IsBitmap(nullBytes, fields);
    return Some(out);
  }

  lemma NotConverted(xs: seq<Column>, args: seq<Option<Element>>)
    requires |args| != |xs|
    ensures !Converts(xs, args)
  {
  }

  lemma Rounded(n: nat)
    ensures RoundUp4(n) == if n % 4 != 0 then n + 4 - n % 4 else n
  {
  }

  lemma BodyStart(xs: seq<Column>, fields: seq<Option<seq<byte>>>)
    requires |xs| == |fields|
    ensures Body(xs, fields, 0) == []
  {
  }

  lemma BodyStep(xs: seq<Column>, fields: seq<Option<seq<byte>>>, front: seq<byte>, i: nat)
    requires i < |xs| == |fields|
    ensures Body(xs, fields, i + 1) == Body(xs, fields, i) + PartOf(xs[i], fields[i])
    ensures front + Body(xs, fields, i + 1) == (front + Body(xs, fields, i)) + PartOf(xs[i], fields[i])
    ensures fields[i] == None ==> PartOf(xs[i], fields[i]) == []
    ensures fields[i].Some? ==> PartOf(xs[i], fields[i]) == FieldWire(xs[i], fields[i].value)
  {
  }

  lemma BitmapAt(nulls: seq<byte>, fields: seq<Option<seq<byte>>>, i: nat)
    requires IsBitmap(nulls, fields) && i < |fields|
    ensures i / 8 < |nulls| && (NullBit(nulls, i) <==> fields[i] == None)
  {
    hide NullBit;
    ByteOf(i, |fields|);
  }

  /** The first pass: converts every argument and marks the nil ones. */
  method CollectFields(xs: seq<Column>, args: seq<Option<Element>>, n: nat)
      returns (nulls: seq<byte>, fieldBufs: Option<seq<Option<seq<byte>>>>)
    requires |args| == |xs| && n == RoundUp4((|xs| + 7) / 8)
    ensures fieldBufs.Some? <==> Converts(xs, args)
    ensures fieldBufs.Some? ==> fieldBufs.value == Fields(xs, args) && IsBitmap(nulls, Fields(xs, args))
  {
    var nullBytes := new byte[n](_ => 0);
    var bufs: seq<Option<seq<byte>>> := [];
    ghost var fields := Fields(xs, args);
    assert nullBytes[..] == Repeat(0, n);
    NoneMarked(fields, n);
    AllConvert(xs, args);
    hide *;
    for i := 0 to |args|
      invariant bufs == fields[..i]
      invariant ConvertsTo(xs, args, i)
      invariant Marked(nullBytes[..], fields, i)
    {
      OneField(xs, args, i);
      RoundedHolds(i, |xs|);
      MarkNext(nullBytes[..], fields, i);
      if args[i] == None {
        ghost var before := nullBytes[..];
        nullBytes[i / 8] := SetBit(nullBytes[i / 8], i % 8);
        assert nullBytes[..] == before[i / 8 := SetBit(before[i / 8], i % 8)];
        bufs := bufs + [None];
        continue;
      }
      var b := EncodeBatchField(xs[i], args[i].value);
      if b == None {
        return [], None;
      }
      bufs := bufs + [b];
    }
    assert fields[..|args|] == fields;
    AllMarked(nullBytes[..], fields);
    return nullBytes[..], Some(bufs);
  }

  predicate ConvertsTo(xs: seq<Column>, args: seq<Option<Element>>, i: nat)
    requires i <= |xs| == |args|
  {
    forall k | 0 <= k < i :: args[k].Some? ==> EncodeBatchField(xs[k], args[k].value).Some?
  }

  /** The bits below i mark the null fields and no later bit is set. */
  ghost predicate Marked(nulls: seq<byte>, fields: seq<Option<seq<byte>>>, i: nat) {
    forall m: nat | m / 8 < |nulls| :: NullBit(nulls, m) <==> m < i && m < |fields| && fields[m] == None
  }

  lemma NoneMarked(fields: seq<Option<seq<byte>>>, n: nat)
    ensures Marked(Repeat(0, n), fields, 0)
  {
    forall m: nat | m / 8 < n
      ensures !NullBit(Repeat(0, n), m)
    {
      NoBits(n, m);
    }
  }

  lemma MarkNext(nulls: seq<byte>, fields: seq<Option<seq<byte>>>, i: nat)
    requires Marked(nulls, fields, i) && i < |fields| && i / 8 < |nulls|
    ensures fields[i] == None ==> Marked(nulls[i / 8 := SetBit(nulls[i / 8], i % 8)], fields, i + 1)
    ensures fields[i].Some? ==> Marked(nulls, fields, i + 1)
  {
    hide NullBit, SetBit;
    var next := nulls[i / 8 := SetBit(nulls[i / 8], i % 8)];
    forall m: nat | m / 8 < |nulls|
      ensures NullBit(next, m) <==> m == i || NullBit(nulls, m)
    {
      SetNullBit(nulls, i, m);
    }
  }

  lemma AllMarked(nulls: seq<byte>, fields: seq<Option<seq<byte>>>)
    requires Marked(nulls, fields, |fields|) && |nulls| == RoundUp4((|fields| + 7) / 8)
    ensures IsBitmap(nulls, fields)
  {
    hide NullBit, RoundUp4;
  }

  lemma OneField(xs: seq<Column>, args: seq<Option<Element>>, i: nat)
    requires |args| == |xs| && i < |xs|
    ensures Fields(xs, args)[i] == (if args[i] == None then None else EncodeBatchField(xs[i], args[i].value))
    ensures args[i].Some? && EncodeBatchField(xs[i], args[i].value) == None ==> !Converts(xs, args)
    ensures ConvertsTo(xs, args, i) && (args[i].Some? ==> EncodeBatchField(xs[i], args[i].value).Some?) ==>
              ConvertsTo(xs, args, i + 1)
    ensures Fields(xs, args)[..i + 1] == Fields(xs, args)[..i] + [Fields(xs, args)[i]]
  {
    hide EncodeBatchField;
  }

  lemma AllConvert(xs: seq<Column>, args: seq<Option<Element>>)
    requires |args| == |xs|
    ensures ConvertsTo(xs, args, 0)
    ensures ConvertsTo(xs, args, |xs|) ==> Converts(xs, args)
  {
    hide EncodeBatchField;
  }

  lemma RoundedHolds(i: nat, n: nat)
    requires i < n
    ensures i / 8 < RoundUp4((n + 7) / 8)
  {
    ByteOf(i, n);
  }

  /** The second pass's switch on the column type. */
  method WriteField(x: Column, fb: seq<byte>) returns (wire: seq<byte>)
    ensures wire == FieldWire(x, fb)
  {
    if x.sqlType == NULL_TYPE {
      return [];
    }
    hide Word32BE;
    if x.sqlType == VARYING {
      wire := Word32BE(|fb|) + fb;
      var pad := Padding(|fb|);
      if pad > 0 {
        wire := wire + Spaces(pad);
      }
    } else if x.sqlType == TEXT {
      var need := x.sqlLen;
      var cut := if |fb| > need then fb[..need] else fb;
      wire := cut;
      if |cut| < need {
        wire := wire + Spaces(need - |cut|);
      }
      var pad := Padding(need);
      if pad > 0 {
        wire := wire + Spaces(pad);
      }
    } else if x.sqlType == BOOLEAN {
      wire := fb;
      var pad := Padding(|fb|);
      if pad > 0 {
        wire := wire + Repeat(0, pad);
      }
    } else {
      wire := fb;
    }
  }

  // --- the form of a field on the wire ------------------------------------------

  /** The bytes of a null bitmap are read from the low bit of the first byte on. */
  lemma NullBitIs(bytes: seq<byte>, m: nat)
    requires m / 8 < |bytes|
    ensures Pow(2, m % 8) > 0
    ensures NullBit(bytes, m) <==> bytes[m / 8] as int / Pow(2, m % 8) % 2 == 1
  {
    assert Pow(2, 3) == 8;
    PowAdd(2, 3, 1);
    PowAdd(2, 3, 2);
    PowAdd(2, 3, 3);
    PowAdd(2, 6, 1);
    assert Weight(m % 8) == Pow(2, m % 8);
    hide Weight, Pow;
  }

  /** What is sent for a converted argument, by column type: integers big-endian in four or eight
      bytes, modulo their width; a float, date or time as its four or eight bytes; a BOOLEAN as
      one byte; text cut to the column's length, if it has one; any other type as its text. */
  lemma FieldBytes(x: Column, e: Element)
    ensures EncodeBatchField(x, e).Some? <==>
            if x.sqlType in {500, 496, 580, 550} then e.Number?
            else if x.sqlType in {482, 570, 560} then e.Bits? && |e.bytes| == 4
            else if x.sqlType in {480, 510} then e.Bits? && |e.bytes| == 8
            else if x.sqlType == 32764 then e.Flag?
            else x.sqlType !in {520, 540} && e.Text?
    ensures EncodeBatchField(x, e).Some? ==>
              var fb := EncodeBatchField(x, e).value;
              match e {
                case Number(v) =>
                  |fb| == (if x.sqlType in {500, 496} then 4 else 8)
                  && Big(fb) == v % (if |fb| == 4 then 0x1_0000_0000 else 0x1_0000_0000_0000_0000)
                case Bits(b) => fb == b
                case Flag(b) => fb == [if b then 1 else 0]
                case Text(b) => if x.sqlType in {452, 448} then IsCut(fb, b, x.sqlLen) else fb == b
              }
  {
    hide Big;
    if e.Number? {
      WordsAreBigEndian(e.v);
    }
    hide Word32BE, Word64BE;
  }

  /** The whole text when it fits the limit, or when there is none, and as much of it otherwise. */
  predicate IsCut(cut: seq<byte>, text: seq<byte>, limit: nat) {
    cut <= text && |cut| == if 0 < limit < |text| then limit else |text|
  }

  /** A field on the wire: a varying one behind its length, a fixed text in exactly its length;
      both are filled up to a multiple of four with spaces and a BOOLEAN with zeros. */
  lemma FieldForm(x: Column, fb: seq<byte>)
    ensures var wire := FieldWire(x, fb);
            match x.sqlType
            case 448 =>
              |wire| % 4 == 0 && |fb| <= |wire| - 4 < |fb| + 4 && Big(wire[..4]) == |fb| % 0x1_0000_0000
              && wire[4..4 + |fb|] == fb && forall i | 4 + |fb| <= i < |wire| :: wire[i] == ' ' as int
            case 452 =>
              |wire| % 4 == 0 && x.sqlLen <= |wire| < x.sqlLen + 4
              && (forall i | 0 <= i < |wire| ::
                    wire[i] == if i < |fb| && i < x.sqlLen then fb[i] else ' ' as int)
            case 32764 =>
              |wire| % 4 == 0 && |fb| <= |wire| < |fb| + 4 && fb <= wire
              && forall i | |fb| <= i < |wire| :: wire[i] == 0
            case 32766 => wire == []
            case _ => wire == fb
  {
    WordsAreBigEndian(|fb|);
    hide Word32BE, Word64BE, Big;
    if x.sqlType == VARYING {
      BehindLength(Word32BE(|fb|), fb, ' ' as int, Padding(|fb|));
    }
  }

  // --- reading rows -----------------------------------------------------------

  /** Reads one field that is not null. */
  function RecvField(x: Column, s: seq<byte>): Read<seq<byte>> {
    if IoLength(x) < 0 then
      match RecvInt(s)
      case Short => Short
      case Read(ln, rest) => if ln < 0 || ln > MAX_WIRE_PAYLOAD then Short else RecvAligned(rest, ln)
    else if IoLength(x) > MAX_WIRE_PAYLOAD then Short
    else RecvAligned(s, IoLength(x))
  }

  datatype Row = Broken | Row(values: seq<Option<seq<byte>>>, rest: seq<byte>)

  /** The first n values, null where the bitmap says so. */
  function RecvFields(xs: seq<Column>, nulls: seq<byte>, s: seq<byte>, n: nat): Row
    requires n <= |xs| && (|xs| + 7) / 8 <= |nulls|
  {
    if n == 0 then Row([], s)
    else
      match RecvFields(xs, nulls, s, n - 1)
      case Broken => Broken
      case Row(values, rest) =>
        ByteOf(n - 1, |xs|);
        if NullBit(nulls, n - 1) then Row(values + [None], rest)
        else
          match RecvField(xs[n - 1], rest)
          case Short => Broken
          case Read(raw, tail) => Row(values + [Some(raw)], tail)
  }

  lemma {:induction false} BrokenStays(xs: seq<Column>, nulls: seq<byte>, s: seq<byte>, i: nat, n: nat)
    requires i <= n <= |xs| && (|xs| + 7) / 8 <= |nulls| && RecvFields(xs, nulls, s, i).Broken?
    ensures RecvFields(xs, nulls, s, n).Broken?
  {
    hide RecvField, NullBit;
    if i < n {
      BrokenStays(xs, nulls, s, i, n - 1);
    }
  }

  /** A row: the bitmap, then the fields that are not null. */
  function RecvRow(xs: seq<Column>, s: seq<byte>): Row {
    match RecvAligned(s, (|xs| + 7) / 8)
    case Short => Broken
    case Read(nulls, body) => RecvFields(xs, nulls, body, |xs|)
  }

  method ReadRow(xs: seq<Column>, s: seq<byte>) returns (row: Row)
    ensures row == RecvRow(xs, s)
  {
    var n := (|xs| + 7) / 8;
    RowParts(xs, s);
    hide *;
    var head := RecvAligned(s, n);
    if head == Short {
      return Broken;
    }
    var nullBytes, body := head.taken, head.rest;
    var rest := body;
    var r: seq<Option<seq<byte>>> := [];
    NoFields(xs, nullBytes, body);
    for i := 0 to |xs|
      invariant RecvFields(xs, nullBytes, body, i) == Row(r, rest)
    {
      FieldsStep(xs, nullBytes, body, i);
      if NullBit(nullBytes, i) {
        r := r + [None];
        continue;
      }
      var raw := ReadField(xs[i], rest);
      if raw == Short {
        BrokenStays(xs, nullBytes, body, i + 1, |xs|);
        return Broken;
      }
      r := r + [Some(raw.taken)];
      rest := raw.rest;
    }
    return Row(r, rest);
  }

  lemma RowParts(xs: seq<Column>, s: seq<byte>)
    ensures var n := (|xs| + 7) / 8;
            match RecvAligned(s, n)
            case Short => RecvRow(xs, s) == Broken
            case Read(nulls, body) => |nulls| == n && RecvRow(xs, s) == RecvFields(xs, nulls, body, |xs|)
  {
  }

  lemma FieldsStep(xs: seq<Column>, nulls: seq<byte>, s: seq<byte>, i: nat)
    requires i < |xs| && (|xs| + 7) / 8 <= |nulls| && RecvFields(xs, nulls, s, i).Row?
    ensures i / 8 < |nulls|
    ensures RecvFields(xs, nulls, s, i + 1)
            == var before := RecvFields(xs, nulls, s, i);
               if NullBit(nulls, i) then Row(before.values + [None], before.rest)
               else match RecvField(xs[i], before.rest) {
                      case Short => Broken
                      case Read(raw, tail) => Row(before.values + [Some(raw)], tail)
                    }
  {
    hide RecvField, NullBit;
    ByteOf(i, |xs|);
  }

  method ReadField(x: Column, s: seq<byte>) returns (raw: Read<seq<byte>>)
    ensures raw == RecvField(x, s)
  {
    var ln: int;
    var rest := s;
    if IoLength(x) < 0 {
      var b := RecvInt(s);
      if b == Short {
        return Short;
      }
      ln := b.taken;
      rest := b.rest;
    } else {
      ln := IoLength(x);
    }
    if ln < 0 || ln > MAX_WIRE_PAYLOAD {
      return Short;
    }
    raw := RecvAligned(rest, ln);
  }

  /** How many bytes the reader takes for a field of a type: those of a number, date or time, of
      an identifier, of a decimal or 128-bit integer, or of the column's text. */
  function TypeBytes(x: Column): int {
    match x.sqlType
    case 452 => x.sqlLen              // TEXT
    case 500 => 4                     // SHORT
    case 496 => 4                     // LONG
    case 482 => 4                     // FLOAT
    case 560 => 4                     // TIME
    case 570 => 4                     // DATE
    case 480 => 8                     // DOUBLE
    case 510 => 8                     // TIMESTAMP
    case 520 => 8                     // BLOB
    case 540 => 8                     // ARRAY
    case 550 => 8                     // QUAD
    case 580 => 8                     // INT64
    case 32756 => 8                   // TIME WITH TIME ZONE
    case 32760 => 8                   // DECFLOAT(16)
    case 32754 => 12                  // TIMESTAMP WITH TIME ZONE
    case 32752 => 16                  // INT128
    case 32758 => 16                  // DECFIXED
    case 32762 => 16                  // DECFLOAT(34)
    case 32764 => 1                   // BOOLEAN
    case _ => 0
  }

  /** The bytes a server sends for a field, filled up to a multiple of four, are read as they are,
      with the stream right behind them: exactly those of the type, or any number of them behind
      their length for a varying one. */
  lemma ReaderTakes(x: Column, raw: seq<byte>, fill: seq<byte>, rest: seq<byte>)
    requires |fill| == Padding(|raw|) && |raw| <= MAX_WIRE_PAYLOAD
    ensures x.sqlType != 448 && |raw| == TypeBytes(x) ==> RecvField(x, raw + fill + rest) == Read(raw, rest)
    ensures x.sqlType == 448 ==> RecvField(x, Word32BE(|raw|) + (raw + fill + rest)) == Read(raw, rest)
  {
    hide RecvInt, RecvAligned, Word32BE;
    PayloadFits(|raw|);
    RecvAlignedReads(raw, fill, rest);
    RecvIntReads(|raw|, raw + fill + rest);
  }

  // --- the round trip -----------------------------------------------------------

  /** A field the reader takes back in full and in step: what is sent is as long as what is
      read, padding included. */
  predicate InStep(x: Column, fb: seq<byte>) {
    if x.sqlType == VARYING then |fb| <= MAX_WIRE_PAYLOAD
    else if x.sqlType == TEXT then x.sqlLen <= MAX_WIRE_PAYLOAD
    else if x.sqlType == BOOLEAN then |fb| == 1
    else if x.sqlType == NULL_TYPE then true
    else |fb| == IoLength(x) && |fb| % 4 == 0
  }

  /** The column types whose converted arguments are always in step; the other types are sent
      as text of any length. */
  predicate Supported(x: Column) {
    x.sqlType in {SHORT, LONG, FLOAT, DATE, TIME, INT64, QUAD, DOUBLE, TIMESTAMP, BOOLEAN, NULL_TYPE}
    || (x.sqlType in {TEXT, VARYING} && 0 < x.sqlLen <= MAX_WIRE_PAYLOAD)
  }

  lemma SupportedInStep(x: Column, e: Element)
    requires Supported(x) && EncodeBatchField(x, e).Some?
    ensures InStep(x, EncodeBatchField(x, e).value)
  {
    if e.Number? {
      WordLengths(e.v);
    }
  }

  /** A field out of step is not read back from any stream: what is taken is of another length. */
  lemma OutOfStep(x: Column, fb: seq<byte>, s: seq<byte>)
    requires !InStep(x, fb)
    ensures RecvField(x, s).Read? ==> |RecvField(x, s).taken| != |FieldRaw(x, fb)|
  {
    hide RecvInt, Cell;
  }

  lemma VaryingInStep(x: Column, fb: seq<byte>, rest: seq<byte>)
    requires x.sqlType == VARYING && |fb| <= MAX_WIRE_PAYLOAD
    ensures RecvField(x, FieldWire(x, fb) + rest) == Read(fb, rest)
  {
    var body := fb + Spaces(Padding(|fb|)) + rest;
    assert FieldWire(x, fb) + rest == Word32BE(|fb|) + body;
    hide *;
    RecvIntReads(|fb|, body);
    RecvAlignedReads(fb, Spaces(Padding(|fb|)), rest);
    VaryingRead(x, Word32BE(|fb|) + body, |fb|, body);
  }

  lemma VaryingRead(x: Column, s: seq<byte>, n: nat, body: seq<byte>)
    requires x.sqlType == VARYING && n <= MAX_WIRE_PAYLOAD && RecvInt(s) == Read(n, body)
    ensures RecvField(x, s) == RecvAligned(body, n)
  {
    hide RecvInt, RecvAligned;
  }

  lemma FixedInStep(x: Column, fb: seq<byte>, rest: seq<byte>)
    requires x.sqlType != VARYING && InStep(x, fb)
    ensures RecvField(x, FieldWire(x, fb) + rest) == Read(FieldRaw(x, fb), rest)
  {
    var raw := FieldRaw(x, fb);
    FixedWire(x, fb);
    FixedLength(x, fb, FieldWire(x, fb) + rest);
    hide *;
    var fill :| |fill| == Padding(|raw|) && FieldWire(x, fb) == raw + fill;
    RecvAlignedReads(raw, fill, rest);
  }

  lemma FixedWire(x: Column, fb: seq<byte>)
    requires x.sqlType != VARYING && InStep(x, fb)
    ensures exists fill :: |fill| == Padding(|FieldRaw(x, fb)|) && FieldWire(x, fb) == FieldRaw(x, fb) + fill
  {
    hide Cell, IoLength;
    var raw := FieldRaw(x, fb);
    var fill := if x.sqlType == TEXT then Spaces(Padding(x.sqlLen)) else Repeat(0, Padding(|raw|));
    assert x.sqlType != TEXT && x.sqlType != BOOLEAN ==> fill == [];
    assert FieldWire(x, fb) == raw + fill;
  }

  lemma FixedLength(x: Column, fb: seq<byte>, s: seq<byte>)
    requires x.sqlType != VARYING && InStep(x, fb)
    ensures RecvField(x, s) == RecvAligned(s, |FieldRaw(x, fb)|)
  {
    hide RecvAligned, RecvInt, Cell;
  }

  /** A field is read back from its wire form, with the stream right behind it, exactly when
      it is in step. */
  lemma FieldRoundTrip(x: Column, fb: seq<byte>, rest: seq<byte>)
    ensures RecvField(x, FieldWire(x, fb) + rest) == Read(FieldRaw(x, fb), rest) <==> InStep(x, fb)
  {
    hide RecvField, FieldWire;
    if !InStep(x, fb) {
      OutOfStep(x, fb, FieldWire(x, fb) + rest);
    } else if x.sqlType == VARYING {
      VaryingInStep(x, fb, rest);
    } else {
      FixedInStep(x, fb, rest);
    }
  }

  function RawOf(x: Column, field: Option<seq<byte>>): Option<seq<byte>> {
    match field
    case None => None
    case Some(fb) => Some(FieldRaw(x, fb))
  }

  /** The values a reader is to return: null for null, and the bytes of the other fields. */
  function RowValues(xs: seq<Column>, fields: seq<Option<seq<byte>>>): (raws: seq<Option<seq<byte>>>)
    requires |xs| == |fields|
    ensures |raws| == |xs|
    ensures forall i | 0 <= i < |xs| :: raws[i] == RawOf(xs[i], fields[i])
  {
    seq(|xs|, i requires 0 <= i < |xs| => RawOf(xs[i], fields[i]))
  }

  predicate AllInStep(xs: seq<Column>, fields: seq<Option<seq<byte>>>) {
    |xs| == |fields| && forall i | 0 <= i < |xs| :: fields[i].Some? ==> InStep(xs[i], fields[i].value)
  }

  lemma {:induction false} FieldsRoundTrip(xs: seq<Column>, fields: seq<Option<seq<byte>>>,
                                           nulls: seq<byte>, rest: seq<byte>, n: nat)
    requires n <= |xs| == |fields| && (|xs| + 7) / 8 <= |nulls|
    requires IsBitmap(nulls, fields) && AllInStep(xs, fields)
    ensures RecvFields(xs, nulls, Body(xs, fields, n) + rest, n) == Row(RowValues(xs, fields)[..n], rest)
    decreases n
  {
    hide *;
    BodyStart(xs, fields);
    if n == 0 {
      assert [] + rest == rest;
      NoFields(xs, nulls, rest);
    } else {
      var x, field := xs[n - 1], fields[n - 1];
      BodyStep(xs, fields, [], n - 1);
      var part := PartOf(x, field);
      FieldsRoundTrip(xs, fields, nulls, part + rest, n - 1);
      assert (Body(xs, fields, n - 1) + part) + rest == Body(xs, fields, n - 1) + (part + rest);
      FieldsStep(xs, nulls, Body(xs, fields, n) + rest, n - 1);
      BitmapAt(nulls, fields, n - 1);
      var values := RowValues(xs, fields);
      assert values[..n] == values[..n - 1] + [values[n - 1]];
      RawOfEither(x, field);
      if field == None {
        assert [] + rest == rest;
      } else {
        FieldOf(xs, fields, n - 1);
        FieldRoundTrip(x, field.value, rest);
      }
    }
  }

  lemma RawOfEither(x: Column, field: Option<seq<byte>>)
    ensures field == None ==> RawOf(x, field) == None
    ensures field.Some? ==> RawOf(x, field) == Some(FieldRaw(x, field.value))
  {
  }

  lemma NoFields(xs: seq<Column>, nulls: seq<byte>, s: seq<byte>)
    requires (|xs| + 7) / 8 <= |nulls|
    ensures RecvFields(xs, nulls, s, 0) == Row([], s)
  {
  }

  lemma FieldOf(xs: seq<Column>, fields: seq<Option<seq<byte>>>, i: nat)
    requires AllInStep(xs, fields) && i < |xs| && fields[i].Some?
    ensures InStep(xs[i], fields[i].value)
  {
  }

  /** The values read before are the first of the values read. */
  lemma {:induction false} EarlierValues(xs: seq<Column>, nulls: seq<byte>, s: seq<byte>, k: nat, n: nat)
    requires k <= n <= |xs| && (|xs| + 7) / 8 <= |nulls| && RecvFields(xs, nulls, s, n).Row?
    ensures RecvFields(xs, nulls, s, k).Row?
    ensures RecvFields(xs, nulls, s, k).values <= RecvFields(xs, nulls, s, n).values
    ensures |RecvFields(xs, nulls, s, k).values| == k
    decreases n
  {
    hide RecvField, NullBit;
    if n == 0 {
    } else if k == n {
      EarlierValues(xs, nulls, s, n - 1, n - 1);
    } else {
      EarlierValues(xs, nulls, s, k, n - 1);
    }
  }

  /** With a field out of step no stream is read as the row's values. */
  lemma NotReadBack(xs: seq<Column>, fields: seq<Option<seq<byte>>>, nulls: seq<byte>, s: seq<byte>, k: nat)
    requires k < |xs| == |fields| && fields[k].Some? && !InStep(xs[k], fields[k].value)
    requires (|xs| + 7) / 8 <= |nulls| && k / 8 < |nulls| && !NullBit(nulls, k)
    ensures RecvFields(xs, nulls, s, |xs|).Row? ==> RecvFields(xs, nulls, s, |xs|).values != RowValues(xs, fields)
  {
    hide RecvFields, RecvField, NullBit, InStep, FieldRaw;
    if RecvFields(xs, nulls, s, |xs|).Row? {
      EarlierValues(xs, nulls, s, k, |xs|);
      EarlierValues(xs, nulls, s, k + 1, |xs|);
      FieldsStep(xs, nulls, s, k);
      OutOfStep(xs[k], fields[k].value, RecvFields(xs, nulls, s, k).rest);
      assert RowValues(xs, fields)[k] == RawOf(xs[k], fields[k]);
    }
  }

  /** Reading an encoded row returns null where the argument was nil and each field's bytes
      elsewhere, and leaves the stream at the row's end, for any number of columns, exactly
      when every field is in step. */
  lemma RowRoundTrip(xs: seq<Column>, fields: seq<Option<seq<byte>>>, bitmap: seq<byte>, rest: seq<byte>)
    requires |xs| == |fields| && IsBitmap(bitmap, fields)
    ensures RecvRow(xs, bitmap + Body(xs, fields, |xs|) + rest) == Row(RowValues(xs, fields), rest)
            <==> AllInStep(xs, fields)
  {
    var body := Body(xs, fields, |xs|) + rest;
    Regroup(bitmap, Body(xs, fields, |xs|), rest);
    BehindBitmap(xs, fields, bitmap, body);
    if AllInStep(xs, fields) {
      hide *;
      FieldsRoundTrip(xs, fields, bitmap, rest, |xs|);
      assert RowValues(xs, fields)[..|xs|] == RowValues(xs, fields);
    } else {
      var k :| 0 <= k < |xs| && fields[k].Some? && !InStep(xs[k], fields[k].value);
      hide *;
      BitmapAt(bitmap, fields, k);
      NotReadBack(xs, fields, bitmap, body, k);
    }
  }

  lemma BehindBitmap(xs: seq<Column>, fields: seq<Option<seq<byte>>>, bitmap: seq<byte>, body: seq<byte>)
    requires |xs| == |fields| && IsBitmap(bitmap, fields)
    ensures (|xs| + 7) / 8 <= |bitmap|
    ensures RecvRow(xs, bitmap + body) == RecvFields(xs, bitmap, body, |xs|)
  {
    var n := (|xs| + 7) / 8;
    assert |bitmap| == RoundUp4(n);
    hide *;
    RoundedIsAligned(n);
    var nulls, fill := bitmap[..n], bitmap[n..];
    assert bitmap == nulls + fill;
    RecvAlignedReads(nulls, fill, body);
    RowParts(xs, bitmap + body);
    SameFields(xs, bitmap, nulls, body, |xs|);
  }

  /** The reader looks only at the bitmap bytes it needs, not at their padding. */
  lemma {:induction false} SameFields(xs: seq<Column>, bitmap: seq<byte>, nulls: seq<byte>, s: seq<byte>, n: nat)
    requires n <= |xs| && (|xs| + 7) / 8 == |nulls| && nulls <= bitmap
    ensures RecvFields(xs, nulls, s, n) == RecvFields(xs, bitmap, s, n)
  {
    if n > 0 {
      SameFields(xs, bitmap, nulls, s, n - 1);
      ByteOf(n - 1, |xs|);
      assert NullBit(nulls, n - 1) == NullBit(bitmap, n - 1);
      hide NullBit, RecvField;
    }
  }

  /** Every row of supported columns that encodes is in step. */
  lemma SupportedRows(xs: seq<Column>, args: seq<Option<Element>>)
    requires Converts(xs, args) && forall i | 0 <= i < |xs| :: Supported(xs[i])
    ensures AllInStep(xs, Fields(xs, args))
  {
    hide InStep, EncodeBatchField, Supported;
    forall i | 0 <= i < |xs| && args[i].Some?
      ensures InStep(xs[i], Fields(xs, args)[i].value)
    {
      SupportedInStep(xs[i], args[i].value);
    }
  }
}
