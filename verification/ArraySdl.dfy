/** Slice descriptors: the byte language that names an array column and the bounds of each
    axis, its writer, and a reader for the grammar. */
module ArraySdl {
  import opened Bytes
  import opened Collections
  import opened ArrayShape

  const SDL_VERSION1: byte := 1
  const SDL_RELATION: byte := 2
  const SDL_FIELD: byte := 4
  const SDL_STRUCT: byte := 6
  const SDL_VARIABLE: byte := 7
  const SDL_SCALAR: byte := 8
  const SDL_TINY: byte := 9
  const SDL_SHORT: byte := 10
  const SDL_LONG: byte := 11
  const SDL_DO2: byte := 34
  const SDL_DO1: byte := 35
  const SDL_ELEMENT: byte := 36
  const SDL_EOC: byte := 255

  datatype Column = Column(blrType: int, scale: int, length: nat, fieldBytes: nat, table: seq<byte>, field: seq<byte>)

  /** The low eight bits. */
  function Low8(v: int): byte {
    v % 256
  }

  function Int8(b: byte): int {
    var v: int := b;
    if v >= 128 then v - 256 else v
  }

  // --- bounds -------------------------------------------------------------

  /** A bound in the shortest integer form that holds it. */
  function BoundBytes(v: int): seq<byte> {
    if -128 <= v <= 127 then [SDL_TINY, Low8(v)]
    else if -0x8000 <= v <= 0x7fff then [SDL_SHORT] + Word16LE(v)
    else [SDL_LONG] + Word32LE(v)
  }

  /** Reads one integer form. */
  function ReadBound(s: seq<byte>): Read<int> {
    if |s| >= 2 && s[0] == SDL_TINY then Read(Int8(s[1]), s[2..])
    else if |s| >= 3 && s[0] == SDL_SHORT then Read(Int16LE(s[1..]), s[3..])
    else if |s| >= 5 && s[0] == SDL_LONG then Read(Int32LE(s[1..]), s[5..])
    else Short
  }

  /** A bound is read back exactly when it fits 32 bits. */
  lemma BoundRoundTrip(v: int, rest: seq<byte>)
    ensures ReadBound(BoundBytes(v) + rest) == Read(v, rest) <==> FitsInt32(v)
    ensures ReadBound(BoundBytes(v) + rest).Read? && ReadBound(BoundBytes(v) + rest).rest == rest
  {
    if -128 <= v <= 127 {
      assert ([SDL_TINY, Low8(v)] + rest)[2..] == rest;
    } else if -0x8000 <= v <= 0x7fff {
      ShortBound(v, rest);
    } else {
      LongBound(v, rest);
    }
  }

  lemma ShortBound(v: int, rest: seq<byte>)
    requires -0x8000 <= v <= 0x7fff
    ensures ReadBound([SDL_SHORT] + Word16LE(v) + rest) == Read(v, rest)
  {
    var s := [SDL_SHORT] + Word16LE(v) + rest;
    assert s[1..] == Word16LE(v) + rest && s[3..] == rest;
    WordsKeepLowBits(v);
    assert UInt16LE(s[1..]) == UInt16LE(Word16LE(v));
    hide Word16LE, UInt16LE;
  }

  lemma LongBound(v: int, rest: seq<byte>)
    ensures ReadBound([SDL_LONG] + Word32LE(v) + rest) == Read(ToInt32(v), rest)
    ensures ToInt32(v) == v <==> FitsInt32(v)
  {
    var s := [SDL_LONG] + Word32LE(v) + rest;
    assert |Word32LE(v)| == 4;
    Int32BEPrefix(Word32LE(v), rest);
    Int32RoundTrip(v);
    hide Word32LE, UInt32LE;
    assert s[1..] == Word32LE(v) + rest && s[5..] == rest;
  }

  /** No form that reads as the bound is shorter than the one chosen. */
  lemma ShortestBound(v: int, s: seq<byte>)
    requires FitsInt32(v) && ReadBound(s) == Read(v, [])
    ensures |BoundBytes(v)| <= |s|
  {
  }

  // --- the descriptor -------------------------------------------------------

  predicate HasScale(blrType: int) {
    blrType == 7 || blrType == 8 || blrType == 9 || blrType == 16
  }

  predicate HasLength(blrType: int) {
    blrType == 14 || blrType == 15 || blrType == 37 || blrType == 40 || blrType == 41
  }

  function Payload(column: Column, forGet: bool): seq<byte> {
    if HasScale(column.blrType) then [Low8(column.scale)]
    else if HasLength(column.blrType) then Word16LE(if forGet then column.fieldBytes else column.length)
    else []
  }

  function Header(column: Column, forGet: bool): seq<byte> {
    [SDL_VERSION1, SDL_STRUCT, 1, Low8(column.blrType)] + Payload(column, forGet)
    + Name(SDL_RELATION, column.table) + Name(SDL_FIELD, column.field)
  }

  function Name(tag: byte, name: seq<byte>): seq<byte> {
    [tag, Low8(|name|)] + name
  }

  /** The loop over one axis: lower bound 1 is implied by the tag. */
  function Loop(d: Dimension, i: int): seq<byte> {
    (if d.lowerBound == 1 then [SDL_DO1, Low8(i)] else [SDL_DO2, Low8(i)] + BoundBytes(d.lowerBound))
    + BoundBytes(d.lowerBound + d.length - 1)
  }

  /** The loops over the axes from the i-th on. */
  function Loops(dims: seq<Dimension>, i: nat): seq<byte>
    requires i <= |dims|
    decreases |dims| - i
  {
    if i == |dims| then [] else Loop(dims[i], i) + Loops(dims, i + 1)
  }

  function Variables(n: nat, i: nat): seq<byte>
    requires i <= n
    decreases n - i
  {
    if i == n then [] else [SDL_VARIABLE, Low8(i)] + Variables(n, i + 1)
  }

  function Descriptor(column: Column, dims: seq<Dimension>, forGet: bool): seq<byte> {
    Header(column, forGet) + Loops(dims, 0) + ElementPart(|dims|)
  }

  function ElementPart(n: nat): seq<byte> {
    [SDL_ELEMENT, 1, SDL_SCALAR, 0, Low8(n)] + Variables(n, 0) + [SDL_EOC]
  }

  method AppendDimensionBound(sdl: seq<byte>, v: int) returns (r: seq<byte>)
    ensures r == sdl + BoundBytes(v)
  {
    if -128 <= v && v <= 127 {
      r := sdl + [SDL_TINY, Low8(v)];
    } else if -0x8000 <= v && v <= 0x7fff {
      r := sdl + [SDL_SHORT] + Word16LE(v);
      assert r == sdl + ([SDL_SHORT] + Word16LE(v));
    } else {
      r := sdl + [SDL_LONG] + Word32LE(v);
      assert r == sdl + ([SDL_LONG] + Word32LE(v));
    }
  }

  method GenerateSDL(column: Column, dims: seq<Dimension>, forGet: bool) returns (sdl: seq<byte>)
    ensures sdl == Descriptor(column, dims, forGet)
  {
    sdl := [SDL_VERSION1, SDL_STRUCT, 1, Low8(column.blrType)];
    if HasScale(column.blrType) {
      sdl := sdl + [Low8(column.scale)];
    } else if HasLength(column.blrType) {
      var textLen := column.length;
      if forGet {
        textLen := column.fieldBytes;
      }
      sdl := sdl + Word16LE(textLen);
    }
    sdl := sdl + [SDL_RELATION, Low8(|column.table|)];
    sdl := sdl + column.table;
    sdl := sdl + [SDL_FIELD, Low8(|column.field|)];
    sdl := sdl + column.field;
    assert sdl == Header(column, forGet);
    sdl := AppendLoops(sdl, dims);
    sdl := sdl + [SDL_ELEMENT, 1, SDL_SCALAR, 0, Low8(|dims|)];
    sdl := AppendVariables(sdl, |dims|);
    sdl := sdl + [SDL_EOC];
  }

  method AppendLoops(sdl: seq<byte>, dims: seq<Dimension>) returns (r: seq<byte>)
    ensures r == sdl + Loops(dims, 0)
  {
    r := sdl;
    hide *;
    for i := 0 to |dims|
      invariant r + Loops(dims, i) == sdl + Loops(dims, 0)
    {
      LoopsStep(dims, i, r);
      r := AppendLoop(r, dims[i], i);
    }
    LoopsEnd(dims);
    assert r + [] == r;
  }

  lemma LoopsStep(dims: seq<Dimension>, i: nat, before: seq<byte>)
    requires i < |dims|
    ensures Loops(dims, i) == Loop(dims[i], i) + Loops(dims, i + 1)
    ensures before + Loops(dims, i) == (before + Loop(dims[i], i)) + Loops(dims, i + 1)
  {
    hide Loop;
  }

  lemma LoopsEnd(dims: seq<Dimension>)
    ensures Loops(dims, |dims|) == []
  {
  }

  /** The tag and the variable of one axis, its lower bound unless that is 1, and its upper
      bound. */
  method AppendLoop(sdl: seq<byte>, d: Dimension, i: int) returns (r: seq<byte>)
    ensures r == sdl + Loop(d, i)
  {
    hide BoundBytes;
    if d.lowerBound == 1 {
      r := sdl + [SDL_DO1, Low8(i)];
    } else {
      r := sdl + [SDL_DO2, Low8(i)];
      r := AppendDimensionBound(r, d.lowerBound);
    }
    r := AppendDimensionBound(r, d.lowerBound + d.length - 1);
  }

  method AppendVariables(sdl: seq<byte>, n: nat) returns (r: seq<byte>)
    ensures r == sdl + Variables(n, 0)
  {
    r := sdl;
    for i := 0 to n
      invariant r + Variables(n, i) == sdl + Variables(n, 0)
    {
      assert r + ([SDL_VARIABLE, Low8(i)] + Variables(n, i + 1)) == (r + [SDL_VARIABLE, Low8(i)]) + Variables(n, i + 1);
      r := r + [SDL_VARIABLE, Low8(i)];
    }
    assert r + [] == r;
  }

  // --- a reader of the grammar ----------------------------------------------

  /** An axis as the grammar states it. */
  datatype Bounds = Bounds(lower: int, upper: int)

  datatype Parsed = Parsed(blrType: byte, scale: int, length: int,
                           table: seq<byte>, field: seq<byte>, axes: seq<Bounds>)

  function ReadName(s: seq<byte>, tag: byte): Read<seq<byte>> {
    if |s| < 2 || s[0] != tag then Short
    else
      var n: int := s[1];
      if |s| < 2 + n then Short else Read(s[2..2 + n], s[2 + n..])
  }

  /** One loop, which must bind the i-th variable. */
  function ReadLoop(s: seq<byte>, i: nat): Read<Bounds> {
    if |s| < 2 || s[1] as int != i then Short
    else if s[0] == SDL_DO1 then
      match ReadBound(s[2..])
      case Short => Short
      case Read(upper, rest) => Read(Bounds(1, upper), rest)
    else if s[0] == SDL_DO2 then
      match ReadBound(s[2..])
      case Short => Short
      case Read(lower, rest) =>
        match ReadBound(rest)
        case Short => Short
        case Read(upper, tail) => Read(Bounds(lower, upper), tail)
    else Short
  }

  predicate AtLoop(s: seq<byte>) {
    |s| > 0 && (s[0] == SDL_DO1 || s[0] == SDL_DO2)
  }

  /** All loops up to the element part. */
  function ReadLoops(s: seq<byte>, i: nat): Read<seq<Bounds>>
    decreases |s|
  {
    if !AtLoop(s) then Read([], s)
    else
      match ReadLoop(s, i)
      case Short => Short
      case Read(axis, rest) =>
        if |rest| >= |s| then Short
        else
          match ReadLoops(rest, i + 1)
          case Short => Short
          case Read(more, tail) => Read([axis] + more, tail)
  }

  /** The element part: one scalar of all n variables in order, and the end mark. */
  predicate EndsWithElement(s: seq<byte>, n: nat) {
    && n < 256 && |s| == 6 + 2 * n
    && s[0] == 36 && s[1] == 1 && s[2] == 8 && s[3] == 0 && s[4] as int == n
    && (forall i | 0 <= i < n :: s[5 + 2 * i] == 7 && s[6 + 2 * i] as int == i)
    && s[5 + 2 * n] == 255
  }

  /** The types whose scale follows them: short, long, quad and int64. */
  predicate ScaleFollows(blrType: int) {
    blrType in {7, 8, 9, 16}
  }

  /** The types whose length follows them: text and C strings, both in two forms, and varying. */
  predicate LengthFollows(blrType: int) {
    blrType in {14, 15, 40, 41, 37}
  }

  /** Scale and length of the payload, 0 where the type has none. */
  function ReadPayload(s: seq<byte>, blrType: byte): Read<(int, int)> {
    if ScaleFollows(blrType) then (if |s| < 1 then Short else Read((Int8(s[0]), 0), s[1..]))
    else if LengthFollows(blrType) then (if |s| < 2 then Short else Read((0, UInt16LE(s)), s[2..]))
    else Read((0, 0), s)
  }

  function Parse(s: seq<byte>): Option<Parsed> {
    if |s| < 4 || s[0] != SDL_VERSION1 || s[1] != SDL_STRUCT || s[2] != 1 then None
    else
      match ReadPayload(s[4..], s[3])
      case Short => None
      case Read(payload, names) =>
        match ReadName(names, SDL_RELATION)
        case Short => None
        case Read(table, fields) =>
          match ReadName(fields, SDL_FIELD)
          case Short => None
          case Read(field, loops) =>
            match ReadLoops(loops, 0)
            case Short => None
            case Read(axes, element) =>
              if EndsWithElement(element, |axes|)
              then Some(Parsed(s[3], payload.0, payload.1, table, field, axes))
              else None
  }

  // --- the round trip -------------------------------------------------------

  function BoundsOf(d: Dimension): Bounds {
    Bounds(d.lowerBound, d.lowerBound + d.length - 1)
  }

  predicate Representable(d: Dimension) {
    FitsInt32(d.lowerBound) && FitsInt32(d.lowerBound + d.length - 1)
  }

  function AxesFrom(dims: seq<Dimension>, i: nat): seq<Bounds>
    requires i <= |dims|
  {
    seq(|dims| - i, k requires 0 <= k < |dims| - i => BoundsOf(dims[i + k]))
  }

  lemma LoopReadsBack(d: Dimension, i: nat, rest: seq<byte>)
    requires Representable(d) && i < 256
    ensures ReadLoop(Loop(d, i) + rest, i) == Read(BoundsOf(d), rest)
    ensures AtLoop(Loop(d, i) + rest) && |Loop(d, i)| > 0
  {
    var upper := BoundBytes(d.lowerBound + d.length - 1);
    BoundRoundTrip(d.lowerBound + d.length - 1, rest);
    if d.lowerBound == 1 {
      ShortLoopReadsBack(d, i, upper, rest);
    } else {
      BoundRoundTrip(d.lowerBound, upper + rest);
      LongLoopReadsBack(d, i, BoundBytes(d.lowerBound), upper, rest);
    }
  }

  lemma ShortLoopReadsBack(d: Dimension, i: nat, upper: seq<byte>, rest: seq<byte>)
    requires i < 256 && d.lowerBound == 1 && upper == BoundBytes(d.lowerBound + d.length - 1)
    requires ReadBound(upper + rest) == Read(d.lowerBound + d.length - 1, rest)
    ensures ReadLoop(Loop(d, i) + rest, i) == Read(BoundsOf(d), rest)
    ensures AtLoop(Loop(d, i) + rest) && |Loop(d, i)| > 0
  {
    hide BoundBytes, ReadBound;
    var s := [SDL_DO1, Low8(i)] + upper + rest;
    assert Loop(d, i) + rest == s;
    assert s[2..] == upper + rest;
  }

  lemma LongLoopReadsBack(d: Dimension, i: nat, lower: seq<byte>, upper: seq<byte>, rest: seq<byte>)
    requires i < 256 && d.lowerBound != 1
    requires lower == BoundBytes(d.lowerBound) && upper == BoundBytes(d.lowerBound + d.length - 1)
    requires ReadBound(lower + (upper + rest)) == Read(d.lowerBound, upper + rest)
    requires ReadBound(upper + rest) == Read(d.lowerBound + d.length - 1, rest)
    ensures ReadLoop(Loop(d, i) + rest, i) == Read(BoundsOf(d), rest)
    ensures AtLoop(Loop(d, i) + rest) && |Loop(d, i)| > 0
  {
    hide BoundBytes, ReadBound;
    var s := [SDL_DO2, Low8(i)] + (lower + (upper + rest));
    assert Loop(d, i) + rest == s;
    assert s[2..] == lower + (upper + rest);
  }

  lemma {:induction false} LoopsReadBack(dims: seq<Dimension>, i: nat, rest: seq<byte>)
    requires i <= |dims| < 256 && !AtLoop(rest)
    requires forall k | 0 <= k < |dims| :: Representable(dims[k])
    ensures ReadLoops(Loops(dims, i) + rest, i) == Read(AxesFrom(dims, i), rest)
    decreases |dims| - i
  {
    hide *;
    AxesSteps(dims, i);
    if i == |dims| {
      LoopsEnd(dims);
      ReadLoopsEnd(rest, |dims|);
      assert [] + rest == rest;
    } else {
      var loop, tail := Loop(dims[i], i), Loops(dims, i + 1) + rest;
      LoopsStep(dims, i, []);
      assert Loops(dims, i) + rest == loop + tail by {
        Regroup(loop, Loops(dims, i + 1), rest);
      }
      LoopReadsBack(dims[i], i, tail);
      LoopsReadBack(dims, i + 1, rest);
      ReadLoopsStep(loop, tail, i, BoundsOf(dims[i]), AxesFrom(dims, i + 1), rest);
    }
  }

  lemma ReadLoopsEnd(s: seq<byte>, i: nat)
    requires !AtLoop(s)
    ensures ReadLoops(s, i) == Read([], s)
  {
  }

  lemma ReadLoopsStep(loop: seq<byte>, tail: seq<byte>, i: nat, axis: Bounds, more: seq<Bounds>, rest: seq<byte>)
    requires AtLoop(loop + tail) && ReadLoop(loop + tail, i) == Read(axis, tail) && |loop| > 0
    requires ReadLoops(tail, i + 1) == Read(more, rest)
    ensures ReadLoops(loop + tail, i) == Read([axis] + more, rest)
  {
    hide ReadLoop;
  }

  lemma AxesSteps(dims: seq<Dimension>, i: nat)
    requires i <= |dims|
    ensures i == |dims| ==> AxesFrom(dims, i) == []
    ensures i < |dims| ==> AxesFrom(dims, i) == [BoundsOf(dims[i])] + AxesFrom(dims, i + 1)
  {
  }

  lemma NameReadsBack(tag: byte, name: seq<byte>, rest: seq<byte>)
    requires |name| < 256
    ensures ReadName(Name(tag, name) + rest, tag) == Read(name, rest)
  {
    var s := Name(tag, name) + rest;
    assert Low8(|name|) == |name|;
    assert s[2..2 + |name|] == name && s[2 + |name|..] == rest;
  }

  /** What a reader is to find in a descriptor. */
  function Meaning(column: Column, dims: seq<Dimension>, forGet: bool): Parsed {
    Parsed(Low8(column.blrType),
           if ScaleFollows(column.blrType) then column.scale else 0,
           if LengthFollows(column.blrType) then (if forGet then column.fieldBytes else column.length) else 0,
           column.table, column.field, AxesFrom(dims, 0))
  }

  predicate Fits(column: Column, forGet: bool) {
    && 0 <= column.blrType < 256
    && (ScaleFollows(column.blrType) ==> -128 <= column.scale <= 127)
    && (LengthFollows(column.blrType) ==> (if forGet then column.fieldBytes else column.length) < 0x1_0000)
    && |column.table| < 256 && |column.field| < 256
  }

  lemma Word16ReadsBack(n: nat, rest: seq<byte>)
    requires n < 0x1_0000
    ensures UInt16LE(Word16LE(n) + rest) == n && (Word16LE(n) + rest)[2..] == rest
  {
    WordsKeepLowBits(n);
    assert UInt16LE(Word16LE(n) + rest) == UInt16LE(Word16LE(n));
  }

  lemma PayloadReadsBack(column: Column, forGet: bool, rest: seq<byte>)
    requires Fits(column, forGet)
    ensures Low8(column.blrType) == column.blrType
    ensures ReadPayload(Payload(column, forGet) + rest, Low8(column.blrType))
            == Read((if ScaleFollows(column.blrType) then column.scale else 0,
                     if LengthFollows(column.blrType) then (if forGet then column.fieldBytes else column.length)
                     else 0), rest)
  {
    var s := Payload(column, forGet) + rest;
    if ScaleFollows(column.blrType) {
      assert s[1..] == rest;
    } else if LengthFollows(column.blrType) {
      var n := if forGet then column.fieldBytes else column.length;
      Word16ReadsBack(n, rest);
      hide Word16LE, UInt16LE;
    } else {
      assert s == rest;
    }
  }

  /** Reading a generated descriptor recovers the type, its scale or length, the relation, the
      field and the bounds of every axis, for any number of axes a byte can count. */
  lemma DescriptorRoundTrip(column: Column, dims: seq<Dimension>, forGet: bool)
    requires Fits(column, forGet) && |dims| < 256
    requires forall k | 0 <= k < |dims| :: Representable(dims[k])
    ensures Parse(Descriptor(column, dims, forGet)) == Some(Meaning(column, dims, forGet))
  {
    var element := ElementPart(|dims|);
    var loops := Loops(dims, 0) + element;
    var fields := Name(SDL_FIELD, column.field) + loops;
    var names := Name(SDL_RELATION, column.table) + fields;
    var s := Descriptor(column, dims, forGet);
    DescriptorParts(column, dims, forGet, names, fields, loops, element);
    PayloadReadsBack(column, forGet, names);
    NameReadsBack(SDL_RELATION, column.table, fields);
    NameReadsBack(SDL_FIELD, column.field, loops);
    ElementIsRead(|dims|);
    hide Loops, Name, Payload, Header, Descriptor, ElementPart;
    hide ReadPayload, ReadName, ReadLoops, ReadLoop, EndsWithElement;
    LoopsReadBack(dims, 0, element);
  }

  lemma DescriptorParts(column: Column, dims: seq<Dimension>, forGet: bool,
                        names: seq<byte>, fields: seq<byte>, loops: seq<byte>, element: seq<byte>)
    requires element == ElementPart(|dims|) && loops == Loops(dims, 0) + element
    requires fields == Name(SDL_FIELD, column.field) + loops && names == Name(SDL_RELATION, column.table) + fields
    ensures var s := Descriptor(column, dims, forGet);
            |s| >= 4 && s[..4] == [SDL_VERSION1, SDL_STRUCT, 1, Low8(column.blrType)]
            && s[0] == SDL_VERSION1 && s[1] == SDL_STRUCT && s[2] == 1 && s[3] == Low8(column.blrType)
            && s[4..] == Payload(column, forGet) + names
  {
    hide Loops, Name, Payload, ElementPart, Low8, Variables;
    var start := [SDL_VERSION1, SDL_STRUCT, 1, Low8(column.blrType)];
    assert Descriptor(column, dims, forGet) == start + (Payload(column, forGet) + names);
  }

  lemma ElementIsRead(n: nat)
    requires n < 256
    ensures EndsWithElement(ElementPart(n), n) && !AtLoop(ElementPart(n))
  {
    VariablesAt(n, 0);
    var s, vars := ElementPart(n), Variables(n, 0);
    assert s == [SDL_ELEMENT, 1, SDL_SCALAR, 0, Low8(n)] + vars + [SDL_EOC];
    hide Variables, ElementPart;
    forall i | 0 <= i < n
      ensures s[5 + 2 * i] == 7 && s[6 + 2 * i] as int == i
    {
      assert s[5 + 2 * i] == vars[2 * i] && s[6 + 2 * i] == vars[2 * i + 1];
    }
  }

  lemma {:induction false} VariablesAt(n: nat, i: nat)
    requires i <= n < 256
    ensures |Variables(n, i)| == 2 * (n - i)
    ensures forall k | 0 <= k < n - i :: Variables(n, i)[2 * k] == 7 && Variables(n, i)[2 * k + 1] as int == i + k
    decreases n - i
  {
    if i < n {
      VariablesAt(n, i + 1);
      var rest := Variables(n, i + 1);
      assert Variables(n, i) == [SDL_VARIABLE, Low8(i)] + rest;
      hide Variables;
      forall k | 0 <= k < n - i
        ensures ([SDL_VARIABLE, Low8(i)] + rest)[2 * k] == 7
                && ([SDL_VARIABLE, Low8(i)] + rest)[2 * k + 1] as int == i + k
      {
        if k > 0 {
          assert rest[2 * (k - 1)] == 7 && rest[2 * (k - 1) + 1] as int == i + 1 + (k - 1);
        }
      }
    }
  }

  /** The descriptor of column F, NUMERIC(.., 2), of table T for a slice [1:3], byte by byte. */
  lemma SmallDescriptor()
    ensures Descriptor(Column(8, -2, 4, 4, [84], [70]), [Dimension(1, 3)], false)
            == [1, 6, 1, 8, 254, 2, 1, 84, 4, 1, 70, 35, 0, 9, 3, 36, 1, 8, 0, 1, 7, 0, 255]
  {
    var dims := [Dimension(1, 3)];
    assert Loops(dims, 1) == [] && Loops(dims, 0) == [35, 0, 9, 3];
    assert Variables(1, 1) == [] && Variables(1, 0) == [7, 0];
    assert Header(Column(8, -2, 4, 4, [84], [70]), false) == [1, 6, 1, 8, 254, 2, 1, 84, 4, 1, 70];
  }
}
