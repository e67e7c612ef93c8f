/** Column descriptions: the parser of a describe-vars response and the loop that asks for the
    rest of a truncated one. */
module Describe {
  import opened Bytes
  import opened Collections

  const INFO_END: byte := 1
  const INFO_TRUNCATED: byte := 2
  const SQL_BIND: byte := 5
  const SQL_DESCRIBE_VARS: byte := 7
  const SQL_DESCRIBE_END: byte := 8
  const SQL_SQLDA_SEQ: byte := 9
  const SQL_TYPE: byte := 11
  const SQL_SUB_TYPE: byte := 12
  const SQL_SCALE: byte := 13
  const SQL_LENGTH: byte := 14
  const SQL_NULL_IND: byte := 15
  const SQL_FIELD: byte := 16
  const SQL_RELATION: byte := 17
  const SQL_OWNER: byte := 18
  const SQL_ALIAS: byte := 19
  const MAX_COLUMNS := 65535

  datatype Var = Var(sqlType: int, subType: int, scale: int, length: int, nullOk: bool,
                     field: seq<byte>, relation: seq<byte>, owner: seq<byte>, aliasName: seq<byte>)

  const BLANK := Var(0, 0, 0, 0, false, [], [], [], [])

  predicate IsNumber(tag: byte) {
    SQL_TYPE <= tag <= SQL_NULL_IND
  }

  predicate IsIndexed(tag: byte) {
    SQL_TYPE <= tag <= SQL_ALIAS
  }

  /** Rounds an odd type down: the low bit only says that the column is nullable. */
  function EvenType(t: int): int {
    if t % 2 != 0 then t - 1 else t
  }

  /** The effect of one item on the description of its column. */
  function Set(v: Var, tag: byte, payload: seq<byte>): Var
    requires IsNumber(tag) ==> |payload| >= 4
  {
    if tag == SQL_TYPE then v.(sqlType := EvenType(Int32LE(payload)))
    else if tag == SQL_SUB_TYPE then v.(subType := Int32LE(payload))
    else if tag == SQL_SCALE then v.(scale := Int32LE(payload))
    else if tag == SQL_LENGTH then v.(length := Int32LE(payload))
    else if tag == SQL_NULL_IND then v.(nullOk := Int32LE(payload) != 0)
    else if tag == SQL_FIELD then v.(field := payload)
    else if tag == SQL_RELATION then v.(relation := payload)
    else if tag == SQL_OWNER then v.(owner := payload)
    else if tag == SQL_ALIAS then v.(aliasName := payload)
    else v
  }

  /** The state of the parser: the current column, counted from 1, and all descriptions. */
  datatype State = State(index: int, vars: seq<Var>)

  /** One item with its payload. It fails on a number that is too short and on a column that
      does not exist; tags it does not know are skipped. */
  function Apply(s: State, tag: byte, payload: seq<byte>): Option<State> {
    if tag == SQL_SQLDA_SEQ then
      if |payload| < 4 then None
      else
        var index := Int32LE(payload);
        if index < 1 || index > |s.vars| then None else Some(s.(index := index))
    else if IsIndexed(tag) then
      if s.index < 1 || s.index > |s.vars| then None
      else if IsNumber(tag) && |payload| < 4 then None
      else Some(s.(vars := s.vars[s.index - 1 := Set(s.vars[s.index - 1], tag, payload)]))
    else Some(s)
  }

  /** How parsing stops: on an error, or with the index to go on from (-1 when done). */
  datatype Outcome = Bad(vars: seq<Var>) | Stop(vars: seq<Var>, next: int)

  function Parse(buf: seq<byte>, s: State): (r: Outcome)
    requires 0 <= s.index <= |s.vars|
    ensures |r.vars| == |s.vars|
    ensures r.Stop? ==> -1 <= r.next <= |s.vars|
    decreases |buf|
  {
    if buf == [] || buf[0] == INFO_END then Stop(s.vars, -1)
    else if buf[0] == INFO_TRUNCATED then Stop(s.vars, s.index)
    else if buf[0] == SQL_DESCRIBE_END then Parse(buf[1..], s)
    else if |buf| < 3 then Bad(s.vars)
    else
      var n := UInt16LE(buf[1..]);
      if 3 + n > |buf| then Bad(s.vars)
      else
        match Apply(s, buf[0], buf[3..3 + n])
        case None => Bad(s.vars)
        case Some(next) => Parse(buf[3 + n..], next)
  }

  /** Applies one item to the descriptions in place. */
  method ApplyItem(xsqlda: array<Var>, index: int, tag: byte, payload: seq<byte>) returns (next: Option<int>)
    modifies xsqlda
    ensures match Apply(State(index, old(xsqlda[..])), tag, payload)
            case None => next == None && xsqlda[..] == old(xsqlda[..])
            case Some(s) => next == Some(s.index) && xsqlda[..] == s.vars
  {
    if tag == SQL_SQLDA_SEQ {
      if |payload| < 4 {
        return None;
      }
      var seqNo := Int32LE(payload);
      if seqNo < 1 || seqNo > xsqlda.Length {
        return None;
      }
      return Some(seqNo);
    }
    if IsIndexed(tag) {
      if index < 1 || index > xsqlda.Length {
        return None;
      }
      if IsNumber(tag) && |payload| < 4 {
        return None;
      }
      xsqlda[index - 1] := Set(xsqlda[index - 1], tag, payload);
      return Some(index);
    }
    return Some(index);
  }

  /** Parses the items of a response into the descriptions. It never reads outside the buffer
      nor writes outside the descriptions, whatever the bytes are. */
  method ParseSelectItems(buf: seq<byte>, xsqlda: array<Var>) returns (next: Option<int>)
    modifies xsqlda
    ensures match Parse(buf, State(0, old(xsqlda[..])))
            case Bad(vars) => next == None && xsqlda[..] == vars
            case Stop(vars, n) => next == Some(n) && xsqlda[..] == vars
  {
    hide *;
    var index, i := 0, 0;
    assert buf[0..] == buf;
    ghost var whole := Parse(buf, State(0, xsqlda[..]));
    while i < |buf|
      invariant 0 <= i <= |buf| && 0 <= index <= xsqlda.Length
      invariant Parse(buf[i..], State(index, xsqlda[..])) == whole
    {
      ParseStep(buf, i, State(index, xsqlda[..]));
      var item := buf[i];
      if item == INFO_END {
        break;
      }
      if item == INFO_TRUNCATED {
        return Some(index);
      }
      if item == SQL_DESCRIBE_END {
        i := i + 1;
        continue;
      }
      i := i + 1;
      if i + 2 > |buf| {
        return None;
      }
      var ln := UInt16LE(buf[i..i + 2]);
      i := i + 2;
      if i + ln > |buf| {
        return None;
      }
      var payload := buf[i..i + ln];
      i := i + ln;
      ghost var before := State(index, xsqlda[..]);
      var applied := ApplyItem(xsqlda, index, item, payload);
      if applied == None {
        return None;
      }
      ApplyKeeps(before, item, payload);
      index := applied.value;
      assert Apply(before, item, payload) == Some(State(index, xsqlda[..]));
    }
    if i >= |buf| {
      assert buf[i..] == [];
      ParseNothing(State(index, xsqlda[..]));
    }
    return Some(-1);
  }

  lemma ParseNothing(s: State)
    requires 0 <= s.index <= |s.vars|
    ensures Parse([], s) == Stop(s.vars, -1)
  {
  }

  lemma ApplyKeeps(s: State, tag: byte, payload: seq<byte>)
    requires 0 <= s.index <= |s.vars|
    ensures match Apply(s, tag, payload)
            case None => true
            case Some(next) => 0 <= next.index <= |next.vars| && |next.vars| == |s.vars|
  {
  }

  /** What the parser does at a position of a buffer. */
  lemma ParseStep(buf: seq<byte>, i: nat, s: State)
    requires i < |buf| && 0 <= s.index <= |s.vars|
    ensures var r, item := Parse(buf[i..], s), buf[i];
            && (item == INFO_END ==> r == Stop(s.vars, -1))
            && (item == INFO_TRUNCATED ==> r == Stop(s.vars, s.index))
            && (item == SQL_DESCRIBE_END ==> r == Parse(buf[i + 1..], s))
            && (item != INFO_END && item != INFO_TRUNCATED && item != SQL_DESCRIBE_END ==>
                  if i + 3 > |buf| then r == Bad(s.vars)
                  else
                    var n := UInt16LE(buf[i + 1..i + 3]);
                    if i + 3 + n > |buf| then r == Bad(s.vars)
                    else
                      match Apply(s, item, buf[i + 3..i + 3 + n])
                      case None => r == Bad(s.vars)
                      case Some(next) => 0 <= next.index <= |next.vars| && r == Parse(buf[i + 3 + n..], next))
  {
    hide *;
    var rest := buf[i..];
    ParseOne(rest, s);
    TailsOfTail(buf, i, 1, 1);
    if i + 3 <= |buf| {
      SameWord(buf, i + 1);
      var n := UInt16LE(rest[1..]);
      if i + 3 + n <= |buf| {
        TailsOfTail(buf, i, 3, 3 + n);
        ApplyKeeps(s, buf[i], buf[i + 3..i + 3 + n]);
      }
    }
  }

  lemma TailsOfTail(buf: seq<byte>, i: nat, a: nat, b: nat)
    requires i + b <= |buf| && a <= b
    ensures buf[i..][a..b] == buf[i + a..i + b]
    ensures buf[i..][b..] == buf[i + b..]
  {
  }

  lemma ParseOne(rest: seq<byte>, s: State)
    requires rest != [] && 0 <= s.index <= |s.vars|
    ensures var r, item := Parse(rest, s), rest[0];
            && (item == INFO_END ==> r == Stop(s.vars, -1))
            && (item == INFO_TRUNCATED ==> r == Stop(s.vars, s.index))
            && (item == SQL_DESCRIBE_END ==> r == Parse(rest[1..], s))
            && (item != INFO_END && item != INFO_TRUNCATED && item != SQL_DESCRIBE_END ==>
                  if |rest| < 3 then r == Bad(s.vars)
                  else
                    var n := UInt16LE(rest[1..]);
                    if 3 + n > |rest| then r == Bad(s.vars)
                    else
                      match Apply(s, item, rest[3..3 + n])
                      case None => r == Bad(s.vars)
                      case Some(next) => 0 <= next.index <= |next.vars| && r == Parse(rest[3 + n..], next))
  {
    if |rest| >= 3 && 3 + UInt16LE(rest[1..]) <= |rest| {
      ApplyKeeps(s, rest[0], rest[3..3 + UInt16LE(rest[1..])]);
    }
    hide Apply, UInt16LE;
  }

  lemma SameWord(buf: seq<byte>, i: nat)
    requires i + 2 <= |buf|
    ensures UInt16LE(buf[i..]) == UInt16LE(buf[i..i + 2])
  {
  }

  // --- continuation ---------------------------------------------------------------

  datatype Described = Failed | Described(vars: seq<Var>, asked: seq<seq<byte>>)

  /** What a description request asks for: the column to start at. */
  function Asked(next: int): seq<byte> {
    Word16LE(next)
  }

  /** The items of a continuation behind its own header, if that is well formed. */
  function ContinuationItems(buf: seq<byte>): Option<seq<byte>> {
    if |buf| < 4 then None
    else
      var n := Int16LE(buf[2..4]);
      if n < 0 || 4 + n >= |buf| then None else Some(buf[4 + n..])
  }

  /** As long as the parser gives an index to go on from, the next reply is parsed into the
      same descriptions. */
  function Continue(vars: seq<Var>, next: int, replies: seq<seq<byte>>, asked: seq<seq<byte>>): Described
    decreases |replies|
  {
    if next <= 0 then Described(vars, asked)
    else if replies == [] then Failed
    else
      match ContinuationItems(replies[0])
      case None => Failed
      case Some(items) =>
        match Parse(items, State(0, vars))
        case Bad(_) => Failed
        case Stop(more, n) => Continue(more, n, replies[1..], asked + [Asked(next)])
  }

  /** The number of columns a bind description announces, if it is one. */
  function Announced(buf: seq<byte>): Option<nat> {
    if |buf| < 8 || buf[0] != SQL_BIND || buf[1] != SQL_DESCRIBE_VARS then None
    else if Int16LE(buf[2..4]) != 4 then None
    else if Int32LE(buf[4..8]) < 0 || Int32LE(buf[4..8]) > MAX_COLUMNS then None
    else Some(Int32LE(buf[4..8]))
  }

  /** Two bytes, the low one first. */
  function LowFirst(low: byte, high: byte): nat {
    (low as int) + 256 * (high as int)
  }

  /** A continuation holds items exactly when some are left behind its four bytes and the length
      they end in, a signed 16-bit one. */
  lemma ContinuationExact(buf: seq<byte>)
    ensures ContinuationItems(buf)
            == if |buf| > 4 && LowFirst(buf[2], buf[3]) < 0x8000 && |buf| > 4 + LowFirst(buf[2], buf[3])
               then Some(buf[4 + LowFirst(buf[2], buf[3])..]) else None
  {
    if |buf| >= 4 {
      assert buf[2..4] == [buf[2], buf[3]];
      assert UInt16LE(buf[2..4]) == LowFirst(buf[2], buf[3]);
    }
  }

  /** A reply describes bind variables exactly when it starts with 5, 7, 4, 0 and a count of up to
      65535 columns. */
  lemma AnnouncedExact(buf: seq<byte>)
    ensures Announced(buf)
            == if |buf| >= 8 && buf[..4] == [5, 7, 4, 0] && 0 <= Int32LE(buf[4..8]) <= 65535
               then Some(Int32LE(buf[4..8])) else None
  {
    hide Int32LE;
    if |buf| >= 8 {
      assert buf[2..4] == [buf[2], buf[3]];
      assert Int16LE(buf[2..4]) == 4 <==> buf[2] == 4 && buf[3] == 0;
    }
  }

  function Blanks(n: nat): (vars: seq<Var>)
    ensures |vars| == n && forall i | 0 <= i < n :: vars[i] == BLANK
  {
    seq(n, i => BLANK)
  }

  /** The whole conversation: a first reply and the replies to continuation requests. A first
      reply that is no bind description gives no columns. */
  function Conversation(first: seq<byte>, more: seq<seq<byte>>): Described {
    match Announced(first)
    case None => Described([], [])
    case Some(n) =>
      match Parse(first[8..], State(0, Blanks(n)))
      case Bad(_) => Failed
      case Stop(vars, next) => Continue(vars, next, more, [])
  }

  method FetchBindXsqlda(first: seq<byte>, more: seq<seq<byte>>) returns (r: Described)
    ensures r == Conversation(first, more)
  {
    if |first| < 8 {
      return Described([], []);
    }
    if first[0] != SQL_BIND || first[1] != SQL_DESCRIBE_VARS {
      return Described([], []);
    }
    var ln := Int16LE(first[2..4]);
    if ln != 4 || 4 + ln > |first| {
      return Described([], []);
    }
    var colLen := Int32LE(first[4..8]);
    if colLen < 0 || colLen > MAX_COLUMNS {
      return Described([], []);
    }
    var inputXsqlda := new Var[colLen](_ => BLANK);
    assert inputXsqlda[..] == Blanks(colLen);
    var nextIndex := ParseSelectItems(first[8..], inputXsqlda);
    if nextIndex == None {
      return Failed;
    }
    var replies := more;
    var asked: seq<seq<byte>> := [];
    hide Parse, Announced, ContinuationItems;
    while nextIndex.value > 0
      invariant nextIndex.Some?
      invariant Continue(inputXsqlda[..], nextIndex.value, replies, asked) == Conversation(first, more)
      decreases |replies|
    {
      if |replies| == 0 {
        return Failed;
      }
      var items := ItemsOf(replies[0]);
      if items == None {
        return Failed;
      }
      asked := asked + [Asked(nextIndex.value)];
      nextIndex := ParseSelectItems(items.value, inputXsqlda);
      if nextIndex == None {
        return Failed;
      }
      replies := replies[1..];
    }
    return Described(inputXsqlda[..], asked);
  }

  method ItemsOf(buf: seq<byte>) returns (items: Option<seq<byte>>)
    ensures items == ContinuationItems(buf)
  {
    if |buf| < 4 {
      return None;
    }
    var ln := Int16LE(buf[2..4]);
    if ln < 0 || 4 + ln >= |buf| {
      return None;
    }
    return Some(buf[4 + ln..]);
  }

  // --- what a server sends ----------------------------------------------------------

  /** One item of a description; a mark ends a column and carries nothing. */
  datatype Item = Mark | Item(tag: byte, payload: seq<byte>)

  /** An item about a column: any tag but the four that steer the parser. */
  predicate ColumnItem(item: Item) {
    item.Mark? ||
    (&& item.tag !in {1, 2, 8, 9}
     && |item.payload| < 0x1_0000
     && (IsNumber(item.tag) ==> |item.payload| >= 4))
  }

  predicate ColumnItems(items: seq<Item>) {
    forall i | 0 <= i < |items| :: ColumnItem(items[i])
  }

  function ItemWire(item: Item): seq<byte> {
    match item
    case Mark => [8]
    case Item(tag, payload) => [tag] + Word16LE(|payload|) + payload
  }

  function Wire(items: seq<Item>): seq<byte> {
    if items == [] then [] else ItemWire(items[0]) + Wire(items[1..])
  }

  function SetItem(v: Var, item: Item): Var
    requires ColumnItem(item)
  {
    match item
    case Mark => v
    case Item(tag, payload) => Set(v, tag, payload)
  }

  /** A column's description after its items, in order. */
  function Column(v: Var, items: seq<Item>): Var
    requires ColumnItems(items)
    decreases |items|
  {
    if items == [] then v else Column(SetItem(v, items[0]), items[1..])
  }

  /** The items from the s-th column on, each column led by its number. */
  function Stream(cols: seq<seq<Item>>, s: nat): seq<Item>
    requires 1 <= s <= |cols| + 1
    decreases |cols| + 1 - s
  {
    if s > |cols| then [] else [Item(9, Word32LE(s))] + cols[s - 1] + Stream(cols, s + 1)
  }

  // --- repeated items -----------------------------------------------------------------

  /** Two items on the same field: the later one wins; on different fields they commute. */
  lemma SetTwice(v: Var, a: Item, b: Item)
    requires ColumnItem(a) && ColumnItem(b)
    ensures a.Item? && b.Item? && a.tag == b.tag ==> SetItem(SetItem(v, a), b) == SetItem(v, b)
    ensures !(a.Item? && b.Item? && a.tag == b.tag) ==> SetItem(SetItem(v, a), b) == SetItem(SetItem(v, b), a)
  {
    hide Int32LE, EvenType;
  }

  /** An item that occurs among later ones leaves no trace of having come before them. */
  lemma {:induction false} Absorb(v: Var, a: Item, items: seq<Item>)
    requires ColumnItem(a) && ColumnItems(items) && (a.Mark? || exists i :: 0 <= i < |items| && items[i] == a)
    ensures Column(SetItem(v, a), items) == Column(v, items)
    decreases |items|
  {
    if a.Mark? {
    } else {
      var i :| 0 <= i < |items| && items[i] == a;
      var b := items[0];
      SetTwice(v, a, b);
      if b.Item? && b.tag == a.tag {
      } else {
        assert items[1..][i - 1] == a;
        Absorb(SetItem(v, b), a, items[1..]);
      }
    }
  }

  /** Reading a beginning of a column and then all of it is reading all of it. */
  lemma {:induction false} Restart(v: Var, items: seq<Item>, t: nat)
    requires ColumnItems(items) && t <= |items|
    ensures Column(Column(v, items[..t]), items) == Column(v, items)
    decreases t
  {
    if t > 0 {
      assert items[..t][1..] == items[1..t];
      AbsorbAll(v, items[..t], items);
    }
  }

  lemma {:induction false} AbsorbAll(v: Var, front: seq<Item>, items: seq<Item>)
    requires ColumnItems(front) && ColumnItems(items) && forall i | 0 <= i < |front| :: front[i] in items
    ensures Column(Column(v, front), items) == Column(v, items)
    decreases |front|
  {
    if front != [] {
      AbsorbAll(SetItem(v, front[0]), front[1..], items);
      assert front[0] in items;
      Absorb(v, front[0], items);
    }
  }

  // --- reading the wire ---------------------------------------------------------------

  lemma WireAppend(a: seq<Item>, b: seq<Item>)
    ensures Wire(a + b) == Wire(a) + Wire(b)
    decreases |a|
  {
    hide ItemWire;
    if a == [] {
      assert a + b == b;
    } else {
      WireAppend(a[1..], b);
      assert (a + b)[1..] == a[1..] + b;
    }
  }

  /** One tagged item on the wire. */
  lemma ParseItem(tag: byte, payload: seq<byte>, rest: seq<byte>, s: State)
    requires tag != INFO_END && tag != INFO_TRUNCATED && tag != SQL_DESCRIBE_END && |payload| < 0x1_0000
    requires 0 <= s.index <= |s.vars| && Apply(s, tag, payload).Some?
    ensures var next := Apply(s, tag, payload).value;
            0 <= next.index <= |next.vars| && Parse(ItemWire(Item(tag, payload)) + rest, s) == Parse(rest, next)
  {
    var buf := ItemWire(Item(tag, payload)) + rest;
    LengthReadsBack(tag, payload, rest);
    ParseOne(buf, s);
    hide *;
  }

  /** An item that is no column number within the description, a column's item before any number,
      or a number shorter than four bytes is an error, and no other tagged item is. */
  lemma ItemRefused(tag: byte, payload: seq<byte>, rest: seq<byte>, s: State)
    requires tag !in {1, 2, 8} && |payload| < 0x1_0000 && 0 <= s.index <= |s.vars|
    ensures var refused := if tag == 9 then |payload| < 4 || !(1 <= Int32LE(payload) <= |s.vars|)
                           else 11 <= tag <= 19 && (s.index == 0 || (tag <= 15 && |payload| < 4));
            && (refused <==> Apply(s, tag, payload) == None)
            && Parse(ItemWire(Item(tag, payload)) + rest, s)
               == if refused then Bad(s.vars) else Parse(rest, Apply(s, tag, payload).value)
  {
    var buf := ItemWire(Item(tag, payload)) + rest;
    LengthReadsBack(tag, payload, rest);
    ParseOne(buf, s);
    hide ItemWire, Int32LE, UInt16LE, Set, Parse;
  }

  /** An item whose length or payload is cut off is an error. */
  lemma CutItemRefused(buf: seq<byte>, s: State)
    requires buf != [] && buf[0] !in {1, 2, 8} && 0 <= s.index <= |s.vars|
    requires |buf| >= 3 ==> 3 + LowFirst(buf[1], buf[2]) > |buf|
    ensures Parse(buf, s) == Bad(s.vars)
  {
  }

  lemma LengthReadsBack(tag: byte, payload: seq<byte>, rest: seq<byte>)
    requires |payload| < 0x1_0000
    ensures var buf := ItemWire(Item(tag, payload)) + rest;
            && |buf| >= 3 && buf[0] == tag && UInt16LE(buf[1..]) == |payload|
            && 3 + |payload| <= |buf| && buf[3..3 + |payload|] == payload && buf[3 + |payload|..] == rest
  {
    var word := Word16LE(|payload|);
    var buf := [tag] + word + payload + rest;
    WordsKeepLowBits(|payload|);
    assert |word| == 2;
    assert buf[1..] == word + (payload + rest);
    assert UInt16LE(buf[1..]) == UInt16LE(word);
    hide Word16LE, UInt16LE;
    assert buf[3..3 + |payload|] == payload && buf[3 + |payload|..] == rest;
  }

  /** The items of one column change only its description. */
  lemma {:induction false} ParseColumn(items: seq<Item>, rest: seq<byte>, vars: seq<Var>, index: int)
    requires ColumnItems(items) && 1 <= index <= |vars|
    ensures var v := Column(vars[index - 1], items);
            Parse(Wire(items) + rest, State(index, vars)) == Parse(rest, State(index, vars[index - 1 := v]))
    decreases |items|
  {
    if items == [] {
      assert Wire(items) + rest == rest;
      assert vars[index - 1 := vars[index - 1]] == vars;
    } else {
      var item, more := items[0], Wire(items[1..]) + rest;
      var v := SetItem(vars[index - 1], item);
      var next := vars[index - 1 := v];
      ColumnParts(items);
      ParseColumnItem(item, more, vars, index);
      ParseColumn(items[1..], rest, next, index);
      hide *;
      WireCons(items, rest);
      ColumnCons(vars[index - 1], items);
      assert next[index - 1 := Column(v, items[1..])] == vars[index - 1 := Column(v, items[1..])];
    }
  }

  lemma ColumnParts(items: seq<Item>)
    requires ColumnItems(items) && items != []
    ensures ColumnItem(items[0]) && ColumnItems(items[1..])
  {
    hide ColumnItem;
  }

  lemma WireCons(items: seq<Item>, rest: seq<byte>)
    requires items != []
    ensures Wire(items) + rest == ItemWire(items[0]) + (Wire(items[1..]) + rest)
  {
    hide ItemWire;
  }

  lemma ColumnCons(v: Var, items: seq<Item>)
    requires ColumnItems(items) && items != []
    ensures ColumnItem(items[0]) && ColumnItems(items[1..])
    ensures Column(v, items) == Column(SetItem(v, items[0]), items[1..])
  {
    hide ColumnItem, SetItem;
  }

  lemma ParseColumnItem(item: Item, rest: seq<byte>, vars: seq<Var>, index: int)
    requires ColumnItem(item) && 1 <= index <= |vars|
    ensures Parse(ItemWire(item) + rest, State(index, vars))
            == Parse(rest, State(index, vars[index - 1 := SetItem(vars[index - 1], item)]))
  {
    var s := State(index, vars);
    match item
    case Mark =>
      assert ([SQL_DESCRIBE_END] + rest)[1..] == rest;
      ParseOne([SQL_DESCRIBE_END] + rest, s);
      assert vars[index - 1 := vars[index - 1]] == vars;
    case Item(tag, payload) =>
      ApplyColumnItem(tag, payload, vars, index);
      ParseItem(tag, payload, rest, s);
  }

  lemma ApplyColumnItem(tag: byte, payload: seq<byte>, vars: seq<Var>, index: int)
    requires ColumnItem(Item(tag, payload)) && 1 <= index <= |vars|
    ensures Apply(State(index, vars), tag, payload)
            == Some(State(index, vars[index - 1 := Set(vars[index - 1], tag, payload)]))
  {
    if !IsIndexed(tag) {
      assert Set(vars[index - 1], tag, payload) == vars[index - 1];
      assert vars[index - 1 := vars[index - 1]] == vars;
    }
  }

  lemma ParseSeq(s: nat, rest: seq<byte>, vars: seq<Var>, index: int)
    requires 1 <= s <= |vars| <= 65535 && 0 <= index <= |vars|
    ensures Parse(ItemWire(Item(SQL_SQLDA_SEQ, Word32LE(s))) + rest, State(index, vars)) == Parse(rest, State(s, vars))
  {
    Int32RoundTrip(s);
    assert |Word32LE(s)| == 4;
    assert Apply(State(index, vars), SQL_SQLDA_SEQ, Word32LE(s)) == Some(State(s, vars));
    hide Apply, Word32LE;
    ParseItem(SQL_SQLDA_SEQ, Word32LE(s), rest, State(index, vars));
  }

  // --- cut descriptions -----------------------------------------------------------------

  predicate AllColumns(cols: seq<seq<Item>>) {
    forall i | 0 <= i < |cols| :: ColumnItems(cols[i])
  }

  /** The column that the first t items from column s on end in. */
  function EndColumn(cols: seq<seq<Item>>, s: nat, t: nat): nat
    requires 1 <= s <= |cols| && t >= 1
    decreases |cols| - s
  {
    if s == |cols| || t <= 1 + |cols[s - 1]| then s else EndColumn(cols, s + 1, t - 1 - |cols[s - 1]|)
  }

  /** The descriptions after the first t items from column s on. */
  function AfterItems(cols: seq<seq<Item>>, s: nat, t: nat, vars: seq<Var>): (r: seq<Var>)
    requires 1 <= s <= |cols| == |vars| && t >= 1 && AllColumns(cols)
    ensures |r| == |vars|
    decreases |cols| - s
  {
    var items := cols[s - 1];
    if s == |cols| || t <= 1 + |items| then
      var k := if t - 1 <= |items| then t - 1 else |items|;
      PrefixColumns(items, k);
      vars[s - 1 := Column(vars[s - 1], items[..k])]
    else AfterItems(cols, s + 1, t - 1 - |items|, vars[s - 1 := Column(vars[s - 1], items)])
  }

  lemma PrefixColumns(items: seq<Item>, k: nat)
    requires k <= |items| && ColumnItems(items)
    ensures ColumnItems(items[..k])
  {
    hide ColumnItem;
  }

  /** Parsing the first t items from column s on, whatever follows them. */
  lemma {:induction false} ParseFront(cols: seq<seq<Item>>, s: nat, t: nat, rest: seq<byte>, vars: seq<Var>, index: int)
    requires 1 <= s <= |cols| == |vars| <= 65535 && AllColumns(cols) && 0 <= index <= |vars|
    requires 1 <= t <= |Stream(cols, s)|
    ensures 1 <= EndColumn(cols, s, t) <= |vars|
    ensures Parse(Wire(Stream(cols, s)[..t]) + rest, State(index, vars))
            == Parse(rest, State(EndColumn(cols, s, t), AfterItems(cols, s, t, vars)))
    decreases |cols| - s
  {
    hide *;
    var items := cols[s - 1];
    EndInRange(cols, s, t);
    AfterParts(cols, s, t, vars);
    if s == |cols| || t <= 1 + |items| {
      StreamFront(cols, s, t);
      FrontOfColumn(s, items[..t - 1], rest, vars, index);
    } else {
      StreamLater(cols, s, t);
      var later := Stream(cols, s + 1)[..t - 1 - |items|];
      FrontThenLater(s, items, later, rest, vars, index);
      ParseFront(cols, s + 1, t - 1 - |items|, rest, vars[s - 1 := Column(vars[s - 1], items)], s);
    }
  }

  lemma StreamFront(cols: seq<seq<Item>>, s: nat, t: nat)
    requires 1 <= s <= |cols| && 1 <= t <= |Stream(cols, s)| && (s == |cols| || t <= 1 + |cols[s - 1]|)
    ensures t - 1 <= |cols[s - 1]|
    ensures Wire(Stream(cols, s)[..t]) == Wire([Item(SQL_SQLDA_SEQ, Word32LE(s))] + cols[s - 1][..t - 1])
  {
    StreamParts(cols, s, t);
    hide Wire, Stream;
  }

  lemma StreamLater(cols: seq<seq<Item>>, s: nat, t: nat)
    requires 1 <= s < |cols| && 1 <= t <= |Stream(cols, s)| && t > 1 + |cols[s - 1]|
    ensures t - 1 - |cols[s - 1]| <= |Stream(cols, s + 1)|
    ensures Wire(Stream(cols, s)[..t])
            == Wire(([Item(SQL_SQLDA_SEQ, Word32LE(s))] + cols[s - 1]) + Stream(cols, s + 1)[..t - 1 - |cols[s - 1]|])
  {
    StreamParts(cols, s, t);
    hide Wire, Stream;
  }

  lemma FrontThenLater(s: nat, items: seq<Item>, later: seq<Item>, rest: seq<byte>, vars: seq<Var>, index: int)
    requires 1 <= s <= |vars| <= 65535 && ColumnItems(items) && 0 <= index <= |vars|
    ensures Parse(Wire(([Item(SQL_SQLDA_SEQ, Word32LE(s))] + items) + later) + rest, State(index, vars))
            == Parse(Wire(later) + rest, State(s, vars[s - 1 := Column(vars[s - 1], items)]))
  {
    hide *;
    var front := [Item(SQL_SQLDA_SEQ, Word32LE(s))] + items;
    FrontOfColumn(s, items, Wire(later) + rest, vars, index);
    WireAppend(front, later);
    Regroup(Wire(front), Wire(later), rest);
  }

  lemma StreamParts(cols: seq<seq<Item>>, s: nat, t: nat)
    requires 1 <= s <= |cols| && 1 <= t <= |Stream(cols, s)|
    ensures var first, items := Item(SQL_SQLDA_SEQ, Word32LE(s)), cols[s - 1];
            if s == |cols| || t <= 1 + |items| then
              t - 1 <= |items| && Stream(cols, s)[..t] == [first] + items[..t - 1]
            else
              t - 1 - |items| <= |Stream(cols, s + 1)|
              && Stream(cols, s)[..t] == ([first] + items) + Stream(cols, s + 1)[..t - 1 - |items|]
  {
    hide Word32LE;
    var first, items := Item(SQL_SQLDA_SEQ, Word32LE(s)), cols[s - 1];
    assert Stream(cols, s) == [first] + items + Stream(cols, s + 1);
    if s == |cols| {
      assert Stream(cols, s + 1) == [];
    }
  }

  lemma AfterParts(cols: seq<seq<Item>>, s: nat, t: nat, vars: seq<Var>)
    requires 1 <= s <= |cols| == |vars| && AllColumns(cols) && 1 <= t <= |Stream(cols, s)|
    ensures var items := cols[s - 1];
            ColumnItems(items)
            && if s == |cols| || t <= 1 + |items| then
                 EndColumn(cols, s, t) == s && t - 1 <= |items| && ColumnItems(items[..t - 1])
                 && AfterItems(cols, s, t, vars) == vars[s - 1 := Column(vars[s - 1], items[..t - 1])]
               else
                 EndColumn(cols, s, t) == EndColumn(cols, s + 1, t - 1 - |items|)
                 && AfterItems(cols, s, t, vars)
                    == AfterItems(cols, s + 1, t - 1 - |items|, vars[s - 1 := Column(vars[s - 1], items)])
  {
    StreamParts(cols, s, t);
    PrefixColumns(cols[s - 1], if t - 1 <= |cols[s - 1]| then t - 1 else 0);
    hide Stream, Column, ColumnItems;
    assert ColumnItems(cols[s - 1]) by {
      ColumnOf(cols, s);
    }
  }

  lemma ColumnOf(cols: seq<seq<Item>>, s: nat)
    requires 1 <= s <= |cols| && AllColumns(cols)
    ensures ColumnItems(cols[s - 1])
  {
  }

  lemma FrontOfColumn(s: nat, items: seq<Item>, rest: seq<byte>, vars: seq<Var>, index: int)
    requires 1 <= s <= |vars| <= 65535 && ColumnItems(items) && 0 <= index <= |vars|
    ensures Parse(Wire([Item(SQL_SQLDA_SEQ, Word32LE(s))] + items) + rest, State(index, vars))
            == Parse(rest, State(s, vars[s - 1 := Column(vars[s - 1], items)]))
  {
    var first := Item(SQL_SQLDA_SEQ, Word32LE(s));
    hide *;
    WireCons([first] + items, rest);
    assert ([first] + items)[1..] == items;
    ParseSeq(s, Wire(items) + rest, vars, index);
    ParseColumn(items, rest, vars, s);
  }

  // --- cut descriptions equal whole ones ----------------------------------------------

  /** The descriptions a whole response gives. */
  function Complete(cols: seq<seq<Item>>, vars: seq<Var>): (r: seq<Var>)
    requires |cols| == |vars| && AllColumns(cols)
    ensures |r| == |vars|
    ensures forall i | 0 <= i < |vars| :: ColumnItems(cols[i]) && r[i] == Column(vars[i], cols[i])
  {
    seq(|cols|, i requires 0 <= i < |cols| => Column(vars[i], cols[i]))
  }

  /** Descriptions on the way: columns before s are done, column s would still come out right
      from its beginning, and later ones are untouched. */
  ghost predicate Midway(cols: seq<seq<Item>>, start: seq<Var>, vars: seq<Var>, s: nat)
    requires |cols| == |start| == |vars| && AllColumns(cols)
  {
    && 1 <= s <= |cols|
    && (forall i | 0 <= i < s - 1 :: vars[i] == Column(start[i], cols[i]))
    && Column(vars[s - 1], cols[s - 1]) == Column(start[s - 1], cols[s - 1])
    && (forall i | s <= i < |cols| :: vars[i] == start[i])
  }

  /** Any t items from the column asked for leave the descriptions midway at the column they
      end in; all of them complete the descriptions. */
  lemma {:induction false} AnyCut(cols: seq<seq<Item>>, s: nat, t: nat, start: seq<Var>, vars: seq<Var>)
    requires |cols| == |start| == |vars| && AllColumns(cols) && Midway(cols, start, vars, s)
    requires 1 <= t <= |Stream(cols, s)|
    ensures Midway(cols, start, AfterItems(cols, s, t, vars), EndColumn(cols, s, t))
    ensures t == |Stream(cols, s)| ==> AfterItems(cols, s, t, vars) == Complete(cols, start)
    decreases |cols| - s
  {
    assert 1 <= s <= |cols|;
    hide *;
    AfterParts(cols, s, t, vars);
    StreamLength(cols, s);
    var items := cols[s - 1];
    ColumnOf(cols, s);
    if s == |cols| || t <= 1 + |items| {
      NothingLater(cols, s);
      MidwayCut(cols, s, t - 1, start, vars);
    } else {
      MidwayNext(cols, s, start, vars);
      AnyCut(cols, s + 1, t - 1 - |items|, start, vars[s - 1 := Column(vars[s - 1], items)]);
    }
  }

  /** Any beginning of the current column leaves the descriptions midway there; all of the
      last column completes them. */
  lemma MidwayCut(cols: seq<seq<Item>>, s: nat, k: nat, start: seq<Var>, vars: seq<Var>)
    requires |cols| == |start| == |vars| && AllColumns(cols) && Midway(cols, start, vars, s)
    requires k <= |cols[s - 1]| && ColumnItems(cols[s - 1][..k]) && ColumnItems(cols[s - 1])
    ensures Midway(cols, start, vars[s - 1 := Column(vars[s - 1], cols[s - 1][..k])], s)
    ensures s == |cols| && k == |cols[s - 1]| ==>
              vars[s - 1 := Column(vars[s - 1], cols[s - 1][..k])] == Complete(cols, start)
  {
    hide Column, ColumnItems;
    Restart(vars[s - 1], cols[s - 1], k);
    if k == |cols[s - 1]| {
      assert cols[s - 1][..k] == cols[s - 1];
    }
  }

  lemma MidwayNext(cols: seq<seq<Item>>, s: nat, start: seq<Var>, vars: seq<Var>)
    requires |cols| == |start| == |vars| && AllColumns(cols) && Midway(cols, start, vars, s) && s < |cols|
    requires ColumnItems(cols[s - 1])
    ensures Midway(cols, start, vars[s - 1 := Column(vars[s - 1], cols[s - 1])], s + 1)
  {
    hide Column, ColumnItems;
  }

  lemma StreamLength(cols: seq<seq<Item>>, s: nat)
    requires 1 <= s <= |cols|
    ensures |Stream(cols, s)| == 1 + |cols[s - 1]| + |Stream(cols, s + 1)|
    ensures s == |cols| <==> |Stream(cols, s + 1)| == 0
  {
    if s < |cols| {
      assert |Stream(cols, s + 1)| > 0;
    }
  }

  lemma NothingLater(cols: seq<seq<Item>>, s: nat)
    requires 1 <= s <= |cols|
    ensures |Stream(cols, s)| <= 1 + |cols[s - 1]| ==> s == |cols|
  {
    StreamLength(cols, s);
  }

  /** A continuation reply: its own header, items, and the mark that ends or cuts them. */
  function Reply(count: nat, items: seq<Item>, whole: bool): seq<byte> {
    [5, 7, 4, 0] + Word32LE(count) + Wire(items) + [EndMark(whole)]
  }

  /** A server's replies: each starts at the column asked for and is cut after any positive
      number of items, and the last one is whole. */
  function Replies(cols: seq<seq<Item>>, s: nat, cuts: seq<nat>): seq<seq<byte>>
    requires 1 <= s <= |cols|
    decreases |cuts|
  {
    var all := Stream(cols, s);
    if cuts == [] || cuts[0] == 0 || cuts[0] > |all| then [Reply(|cols|, all, true)]
    else
      EndInRange(cols, s, cuts[0]);
      [Reply(|cols|, all[..cuts[0]], false)] + Replies(cols, EndColumn(cols, s, cuts[0]), cuts[1..])
  }

  lemma {:induction false} EndInRange(cols: seq<seq<Item>>, s: nat, t: nat)
    requires 1 <= s <= |cols| && t >= 1
    ensures s <= EndColumn(cols, s, t) <= |cols|
    decreases |cols| - s
  {
    if !(s == |cols| || t <= 1 + |cols[s - 1]|) {
      EndInRange(cols, s + 1, t - 1 - |cols[s - 1]|);
    }
  }

  function EndMark(whole: bool): byte {
    if whole then 1 else 2
  }

  lemma ReplyParts(count: nat, items: seq<Item>, whole: bool)
    requires count <= 65535
    ensures var buf := Reply(count, items, whole);
            && Announced(buf) == Some(count)
            && |buf| >= 8 && buf[8..] == Wire(items) + [EndMark(whole)]
            && ContinuationItems(buf) == Some(Wire(items) + [EndMark(whole)])
  {
    var word := Word32LE(count);
    var tail := Wire(items) + [EndMark(whole)];
    var buf := Reply(count, items, whole);
    Int32RoundTrip(count);
    assert |word| == 4;
    assert buf == [SQL_BIND, SQL_DESCRIBE_VARS, 4, 0] + word + tail;
    hide Word32LE, Wire;
    assert buf[4..8] == word && buf[8..] == tail;
    assert buf[2..4] == [4, 0];
    assert Int16LE([4, 0]) == 4;
  }

  lemma ParseMark(whole: bool, s: State)
    requires 0 <= s.index <= |s.vars|
    ensures Parse([EndMark(whole)], s) == Stop(s.vars, if whole then -1 else s.index)
  {
    ParseOne([EndMark(whole)], s);
  }

  /** Parsing one reply: the descriptions after its items, and the column they end in when it
      was cut. */
  lemma ParseReply(cols: seq<seq<Item>>, s: nat, t: nat, whole: bool, vars: seq<Var>)
    requires 1 <= s <= |cols| == |vars| <= 65535 && AllColumns(cols) && 1 <= t <= |Stream(cols, s)|
    ensures Parse(Wire(Stream(cols, s)[..t]) + [EndMark(whole)], State(0, vars))
            == Stop(AfterItems(cols, s, t, vars), if whole then -1 else EndColumn(cols, s, t))
    ensures 1 <= EndColumn(cols, s, t) <= |cols|
  {
    hide *;
    EndInRange(cols, s, t);
    ParseFront(cols, s, t, [EndMark(whole)], vars, 0);
    ParseMark(whole, State(EndColumn(cols, s, t), AfterItems(cols, s, t, vars)));
  }

  lemma AskedBytes(next: int)
    ensures Asked(next) == [next % 256, next / 256 % 256]
  {
  }

  /** The columns asked for in turn, as two bytes, the low one first. */
  function AskedFor(cols: seq<seq<Item>>, s: nat, cuts: seq<nat>): seq<seq<byte>>
    requires 1 <= s <= |cols|
    decreases |cuts|
  {
    if cuts == [] || cuts[0] == 0 || cuts[0] > |Stream(cols, s)| then []
    else
      EndInRange(cols, s, cuts[0]);
      var e := EndColumn(cols, s, cuts[0]);
      [[e % 256, e / 256 % 256]] + AskedFor(cols, e, cuts[1..])
  }

  /** The loop over any replies, however cut, ends with the whole descriptions. */
  lemma {:induction false} CutsAreWhole(cols: seq<seq<Item>>, s: nat, cuts: seq<nat>, start: seq<Var>, vars: seq<Var>,
                                        asked: seq<seq<byte>>)
    requires 1 <= s <= |cols| == |vars| == |start| <= 65535 && AllColumns(cols) && Midway(cols, start, vars, s)
    ensures Continue(vars, s, Replies(cols, s, cuts), asked)
            == Described(Complete(cols, start), asked + [Asked(s)] + AskedFor(cols, s, cuts))
    decreases |cuts|
  {
    hide *;
    var all := Stream(cols, s);
    StreamSome(cols, s);
    RepliesParts(cols, s, cuts);
    var cut := cuts != [] && cuts[0] != 0 && cuts[0] <= |all|;
    var t := if cut then cuts[0] else |all|;
    ReplyParts(|cols|, all[..t], !cut);
    ParseReply(cols, s, t, !cut, vars);
    AnyCut(cols, s, t, start, vars);
    var replies := Replies(cols, s, cuts);
    var next := AfterItems(cols, s, t, vars);
    if cut {
      var e := EndColumn(cols, s, t);
      CutsAreWhole(cols, e, cuts[1..], start, next, asked + [Asked(s)]);
      ContinueStep(vars, s, replies, asked, Wire(all[..t]) + [EndMark(false)], next, e);
      assert asked + [Asked(s)] + ([Asked(e)] + AskedFor(cols, e, cuts[1..]))
          == (asked + [Asked(s)]) + [Asked(e)] + AskedFor(cols, e, cuts[1..]);
    } else {
      ContinueStep(vars, s, replies, asked, Wire(all[..t]) + [EndMark(true)], next, -1);
      ContinueEnds(next, replies[1..], asked + [Asked(s)]);
      assert asked + [Asked(s)] + [] == asked + [Asked(s)];
    }
  }

  lemma StreamSome(cols: seq<seq<Item>>, s: nat)
    requires 1 <= s <= |cols|
    ensures |Stream(cols, s)| >= 1 && Stream(cols, s)[..|Stream(cols, s)|] == Stream(cols, s)
  {
  }

  lemma RepliesParts(cols: seq<seq<Item>>, s: nat, cuts: seq<nat>)
    requires 1 <= s <= |cols|
    ensures var all := Stream(cols, s);
            var replies := Replies(cols, s, cuts);
            replies != []
            && if cuts != [] && cuts[0] != 0 && cuts[0] <= |all| then
                 1 <= EndColumn(cols, s, cuts[0]) <= |cols|
                 && replies[0] == Reply(|cols|, all[..cuts[0]], false)
                 && replies[1..] == Replies(cols, EndColumn(cols, s, cuts[0]), cuts[1..])
                 && AskedFor(cols, s, cuts)
                    == [Asked(EndColumn(cols, s, cuts[0]))] + AskedFor(cols, EndColumn(cols, s, cuts[0]), cuts[1..])
               else
                 replies[0] == Reply(|cols|, all, true) && AskedFor(cols, s, cuts) == []
  {
    hide Stream, EndColumn, Reply, Asked;
    if cuts != [] && cuts[0] != 0 {
      EndInRange(cols, s, cuts[0]);
      AskedBytes(EndColumn(cols, s, cuts[0]));
    }
  }

  lemma ContinueStep(vars: seq<Var>, s: int, replies: seq<seq<byte>>, asked: seq<seq<byte>>, items: seq<byte>,
                     next: seq<Var>, e: int)
    requires s > 0 && replies != [] && ContinuationItems(replies[0]) == Some(items)
    requires Parse(items, State(0, vars)) == Stop(next, e)
    ensures Continue(vars, s, replies, asked) == Continue(next, e, replies[1..], asked + [Asked(s)])
  {
    hide Parse, ContinuationItems, Asked;
  }

  lemma ContinueEnds(vars: seq<Var>, replies: seq<seq<byte>>, asked: seq<seq<byte>>)
    ensures Continue(vars, -1, replies, asked) == Described(vars, asked)
    ensures Continue(vars, 0, replies, asked) == Described(vars, asked)
  {
  }

  /** However a server cuts its description, as long as every cut reply holds a column number,
      the columns assembled are those of the reply sent whole, and each continuation asks for
      the column the last one ended in. */
  lemma CutDescription(cols: seq<seq<Item>>, cuts: seq<nat>)
    requires 1 <= |cols| <= 65535 && AllColumns(cols)
    ensures var replies := Replies(cols, 1, cuts);
            Conversation(replies[0], replies[1..]) == Described(Complete(cols, Blanks(|cols|)), AskedFor(cols, 1, cuts))
    ensures Conversation(Reply(|cols|, Stream(cols, 1), true), []) == Described(Complete(cols, Blanks(|cols|)), [])
  {
    WholeOrCut(cols, cuts);
    WholeOrCut(cols, []);
    RepliesParts(cols, 1, []);
    hide *;
    assert Replies(cols, 1, [])[1..] == [] by {
      OneReply(cols);
    }
  }

  lemma OneReply(cols: seq<seq<Item>>)
    requires 1 <= |cols|
    ensures |Replies(cols, 1, [])| == 1
  {
    hide Stream, Reply;
  }

  lemma WholeOrCut(cols: seq<seq<Item>>, cuts: seq<nat>)
    requires 1 <= |cols| <= 65535 && AllColumns(cols)
    ensures var replies := Replies(cols, 1, cuts);
            Conversation(replies[0], replies[1..]) == Described(Complete(cols, Blanks(|cols|)), AskedFor(cols, 1, cuts))
  {
    RepliesParts(cols, 1, cuts);
    hide *;
    if cuts != [] && cuts[0] != 0 && cuts[0] <= |Stream(cols, 1)| {
      FirstCut(cols, cuts[0], cuts[1..], Replies(cols, 1, cuts)[1..]);
    } else {
      FirstWhole(cols, Replies(cols, 1, cuts)[1..]);
    }
  }

  /** The first reply, with all descriptions still blank. */
  lemma FirstReply(cols: seq<seq<Item>>, t: nat, whole: bool, more: seq<seq<byte>>)
    requires 1 <= |cols| <= 65535 && AllColumns(cols) && 1 <= t <= |Stream(cols, 1)|
    ensures 1 <= EndColumn(cols, 1, t) <= |cols|
    ensures Conversation(Reply(|cols|, Stream(cols, 1)[..t], whole), more)
            == Continue(AfterItems(cols, 1, t, Blanks(|cols|)), if whole then -1 else EndColumn(cols, 1, t), more, [])
    ensures Midway(cols, Blanks(|cols|), AfterItems(cols, 1, t, Blanks(|cols|)), EndColumn(cols, 1, t))
    ensures t == |Stream(cols, 1)| ==> AfterItems(cols, 1, t, Blanks(|cols|)) == Complete(cols, Blanks(|cols|))
  {
    var vars := Blanks(|cols|);
    assert Midway(cols, vars, vars, 1);
    hide *;
    var items := Stream(cols, 1)[..t];
    ReplyParts(|cols|, items, whole);
    ParseReply(cols, 1, t, whole, vars);
    AnyCut(cols, 1, t, vars, vars);
    ConversationStart(Reply(|cols|, items, whole), more, |cols|, AfterItems(cols, 1, t, vars),
                      if whole then -1 else EndColumn(cols, 1, t));
  }

  lemma FirstWhole(cols: seq<seq<Item>>, more: seq<seq<byte>>)
    requires 1 <= |cols| <= 65535 && AllColumns(cols)
    ensures Conversation(Reply(|cols|, Stream(cols, 1), true), more) == Described(Complete(cols, Blanks(|cols|)), [])
  {
    hide *;
    StreamSome(cols, 1);
    FirstReply(cols, |Stream(cols, 1)|, true, more);
    ContinueEnds(Complete(cols, Blanks(|cols|)), more, []);
  }

  lemma FirstCut(cols: seq<seq<Item>>, t: nat, cuts: seq<nat>, more: seq<seq<byte>>)
    requires 1 <= |cols| <= 65535 && AllColumns(cols) && 1 <= t <= |Stream(cols, 1)|
    requires 1 <= EndColumn(cols, 1, t) <= |cols| && more == Replies(cols, EndColumn(cols, 1, t), cuts)
    ensures Conversation(Reply(|cols|, Stream(cols, 1)[..t], false), more)
            == Described(Complete(cols, Blanks(|cols|)),
                         [Asked(EndColumn(cols, 1, t))] + AskedFor(cols, EndColumn(cols, 1, t), cuts))
  {
    hide *;
    var e := EndColumn(cols, 1, t);
    FirstReply(cols, t, false, more);
    CutsAreWhole(cols, e, cuts, Blanks(|cols|), AfterItems(cols, 1, t, Blanks(|cols|)), []);
    assert [] + [Asked(e)] + AskedFor(cols, e, cuts) == [Asked(e)] + AskedFor(cols, e, cuts);
  }

  lemma ConversationStart(first: seq<byte>, more: seq<seq<byte>>, n: nat, vars: seq<Var>, next: int)
    requires |first| >= 8 && Announced(first) == Some(n) && Parse(first[8..], State(0, Blanks(n))) == Stop(vars, next)
    ensures Conversation(first, more) == Continue(vars, next, more, [])
  {
    hide Parse, Announced, Continue;
  }

  // --- what a description says -----------------------------------------------------------

  /** The payload of the last item with a tag. */
  function Last(items: seq<Item>, tag: byte): Option<seq<byte>> {
    if items == [] then None
    else
      match Last(items[1..], tag)
      case Some(payload) => Some(payload)
      case None => if items[0].Item? && items[0].tag == tag then Some(items[0].payload) else None
  }

  function NumberOr(said: Option<seq<byte>>, otherwise: int): int {
    match said
    case None => otherwise
    case Some(payload) => if |payload| < 4 then otherwise else Int32LE(payload)
  }

  function NameOr(said: Option<seq<byte>>, otherwise: seq<byte>): seq<byte> {
    match said
    case None => otherwise
    case Some(payload) => payload
  }

  lemma LastCons(items: seq<Item>, tag: byte)
    requires items != []
    ensures Last(items, tag) == if Last(items[1..], tag).Some? then Last(items[1..], tag)
                                else if items[0].Item? && items[0].tag == tag then Some(items[0].payload)
                                else None
  {
  }

  lemma NoItems(v: Var)
    ensures ColumnItems([]) && Column(v, []) == v && forall tag :: Last([], tag) == None
  {
  }

  lemma {:induction false} TypeField(v: Var, items: seq<Item>)
    requires ColumnItems(items)
    ensures var r := Column(v, items);
            && (Last(items, 11) == None ==> r.sqlType == v.sqlType)
            && (Last(items, 11).Some? ==>
                  var t := NumberOr(Last(items, 11), 0);
                  |Last(items, 11).value| >= 4 && r.sqlType == t - t % 2)
    decreases |items|
  {
    hide Int32LE, Last, Column, ColumnItems;
    if items == [] {
      NoItems(v);
    } else {
      ColumnCons(v, items);
      TypeField(SetItem(v, items[0]), items[1..]);
      LastCons(items, 11);
    }
  }

  lemma {:induction false} NumberFields(v: Var, items: seq<Item>)
    requires ColumnItems(items)
    ensures var r := Column(v, items);
            && r.subType == NumberOr(Last(items, 12), v.subType)
            && r.scale == NumberOr(Last(items, 13), v.scale)
            && r.length == NumberOr(Last(items, 14), v.length)
            && (forall tag | tag in {12, 13, 14} && Last(items, tag).Some? :: |Last(items, tag).value| >= 4)
    decreases |items|
  {
    hide Int32LE, EvenType, Last, Column, ColumnItems;
    if items == [] {
      NoItems(v);
    } else {
      ColumnCons(v, items);
      NumberFields(SetItem(v, items[0]), items[1..]);
      LastCons(items, 12);
      LastCons(items, 13);
      LastCons(items, 14);
    }
  }

  lemma {:induction false} NullField(v: Var, items: seq<Item>)
    requires ColumnItems(items)
    ensures var r := Column(v, items);
            && (Last(items, 15) == None ==> r.nullOk == v.nullOk)
            && (Last(items, 15).Some? ==>
                  |Last(items, 15).value| >= 4 && r.nullOk == (NumberOr(Last(items, 15), 0) != 0))
    decreases |items|
  {
    hide Int32LE, EvenType, Last, Column, ColumnItems;
    if items == [] {
      NoItems(v);
    } else {
      ColumnCons(v, items);
      NullField(SetItem(v, items[0]), items[1..]);
      LastCons(items, 15);
    }
  }

  lemma {:induction false} NameFields(v: Var, items: seq<Item>)
    requires ColumnItems(items)
    ensures var r := Column(v, items);
            && r.field == NameOr(Last(items, 16), v.field)
            && r.relation == NameOr(Last(items, 17), v.relation)
            && r.owner == NameOr(Last(items, 18), v.owner)
            && r.aliasName == NameOr(Last(items, 19), v.aliasName)
    decreases |items|
  {
    hide Int32LE, EvenType, Last, Column, ColumnItems;
    if items == [] {
      NoItems(v);
    } else {
      ColumnCons(v, items);
      NameFields(SetItem(v, items[0]), items[1..]);
      LastCons(items, 16);
      LastCons(items, 17);
      LastCons(items, 18);
      LastCons(items, 19);
    }
  }

  /** Every field holds what the last item with its own tag said, or what it held before: 11 the
      type, rounded down to even, 12 the sub type, 13 the scale, 14 the length, 15 whether null
      is allowed, 16 to 19 the names. */
  lemma ColumnFields(v: Var, items: seq<Item>)
    requires ColumnItems(items)
    ensures var r := Column(v, items);
            && (Last(items, 11) == None ==> r.sqlType == v.sqlType)
            && (Last(items, 11).Some? ==> var t := NumberOr(Last(items, 11), 0); r.sqlType == t - t % 2)
            && r.subType == NumberOr(Last(items, 12), v.subType)
            && r.scale == NumberOr(Last(items, 13), v.scale)
            && r.length == NumberOr(Last(items, 14), v.length)
            && (Last(items, 15) == None ==> r.nullOk == v.nullOk)
            && (Last(items, 15).Some? ==> r.nullOk == (NumberOr(Last(items, 15), 0) != 0))
            && r.field == NameOr(Last(items, 16), v.field)
            && r.relation == NameOr(Last(items, 17), v.relation)
            && r.owner == NameOr(Last(items, 18), v.owner)
            && r.aliasName == NameOr(Last(items, 19), v.aliasName)
  {
    hide *;
    TypeField(v, items);
    NumberFields(v, items);
    NullField(v, items);
    NameFields(v, items);
  }

  /** A column as the server knows it. */
  datatype Info = Info(sqlType: int, subType: int, scale: int, length: int, nullInd: int,
                       field: seq<byte>, relation: seq<byte>, owner: seq<byte>, aliasName: seq<byte>)

  /** An item says it, and none with the same tag says anything else. */
  predicate Says(items: seq<Item>, tag: byte, payload: seq<byte>) {
    Item(tag, payload) in items
    && forall i | 0 <= i < |items| :: items[i].Item? && items[i].tag == tag ==> items[i].payload == payload
  }

  /** The items say all of a column, in any order, with marks, repetitions and unknown tags
      anywhere. */
  predicate Tells(items: seq<Item>, c: Info) {
    && FitsInt32(c.sqlType) && FitsInt32(c.subType) && FitsInt32(c.scale) && FitsInt32(c.length) && FitsInt32(c.nullInd)
    && Says(items, 11, Word32LE(c.sqlType)) && Says(items, 12, Word32LE(c.subType))
    && Says(items, 13, Word32LE(c.scale)) && Says(items, 14, Word32LE(c.length))
    && Says(items, 15, Word32LE(c.nullInd))
    && Says(items, 16, c.field) && Says(items, 17, c.relation)
    && Says(items, 18, c.owner) && Says(items, 19, c.aliasName)
  }

  /** What a reader is to make of it: the low bit of the type is dropped. */
  function Understood(c: Info): Var {
    Var(c.sqlType - c.sqlType % 2, c.subType, c.scale, c.length, c.nullInd != 0,
        c.field, c.relation, c.owner, c.aliasName)
  }

  lemma {:induction false} SaidLast(items: seq<Item>, tag: byte, payload: seq<byte>)
    requires Says(items, tag, payload)
    ensures Last(items, tag) == Some(payload)
  {
    var first, rest := items[0], items[1..];
    assert items == [first] + rest;
    assert forall i | 0 <= i < |rest| :: rest[i] == items[i + 1];
    if Item(tag, payload) in rest {
      SaidLast(rest, tag, payload);
    } else {
      NotSaid(rest, tag);
    }
  }

  lemma {:induction false} NotSaid(items: seq<Item>, tag: byte)
    requires forall i | 0 <= i < |items| :: !(items[i].Item? && items[i].tag == tag)
    ensures Last(items, tag) == None
  {
    if items != [] {
      NotSaid(items[1..], tag);
    }
  }

  /** A column that is told in full is understood as it is, whatever was there before. */
  lemma ToldIsUnderstood(v: Var, items: seq<Item>, c: Info)
    requires ColumnItems(items) && Tells(items, c)
    ensures Column(v, items) == Understood(c)
  {
    hide Says, Last, Column, ColumnItems, Int32LE, Word32LE;
    ColumnFields(v, items);
    SaidNumber(items, 11, c.sqlType);
    SaidNumber(items, 12, c.subType);
    SaidNumber(items, 13, c.scale);
    SaidNumber(items, 14, c.length);
    SaidNumber(items, 15, c.nullInd);
    SaidLast(items, 16, c.field);
    SaidLast(items, 17, c.relation);
    SaidLast(items, 18, c.owner);
    SaidLast(items, 19, c.aliasName);
  }

  lemma SaidNumber(items: seq<Item>, tag: byte, n: int)
    requires Says(items, tag, Word32LE(n)) && FitsInt32(n)
    ensures Last(items, tag).Some? && forall otherwise :: NumberOr(Last(items, tag), otherwise) == n
  {
    SaidLast(items, tag, Word32LE(n));
    Int32RoundTrip(n);
    assert |Word32LE(n)| == 4;
    hide Word32LE, Int32LE, Last, Says;
  }

  /** However a server cuts its description, the columns assembled are the ones it told. */
  lemma DescriptionIsUnderstood(cols: seq<seq<Item>>, infos: seq<Info>, cuts: seq<nat>)
    requires 1 <= |cols| <= 65535 && AllColumns(cols) && |infos| == |cols|
    requires forall i | 0 <= i < |cols| :: Tells(cols[i], infos[i])
    ensures var replies := Replies(cols, 1, cuts);
            var r := Conversation(replies[0], replies[1..]);
            r.Described? && |r.vars| == |infos| && r.asked == AskedFor(cols, 1, cuts)
            && forall i | 0 <= i < |infos| :: r.vars[i] == Understood(infos[i])
  {
    hide Tells, Understood, Column, ColumnItems, Conversation, Replies, AskedFor;
    CutDescription(cols, cuts);
    forall i | 0 <= i < |infos|
      ensures Complete(cols, Blanks(|cols|))[i] == Understood(infos[i])
    {
      assert ColumnItems(cols[i]);
      ToldIsUnderstood(Blanks(|cols|)[i], cols[i], infos[i]);
    }
  }

  /** An item that says nothing about a column. */
  predicate Idle(item: Item) {
    item.Mark? || !IsIndexed(item.tag)
  }

  /** A cut reply without any column number is an error as soon as it describes a column;
      otherwise it gives index 0, which ends the loop at once: no continuation is asked for and
      the descriptions stay as they were. */
  lemma {:induction false} CutWithoutNumber(items: seq<Item>, vars: seq<Var>, replies: seq<seq<byte>>)
    requires ColumnItems(items)
    ensures Parse(Wire(items) + [INFO_TRUNCATED], State(0, vars))
            == if forall i | 0 <= i < |items| :: Idle(items[i]) then Stop(vars, 0) else Bad(vars)
    ensures Continue(vars, 0, replies, []) == Described(vars, [])
    decreases |items|
  {
    if items == [] {
      ParseOne([INFO_TRUNCATED], State(0, vars));
      assert Wire(items) + [INFO_TRUNCATED] == [INFO_TRUNCATED];
    } else {
      ColumnParts(items);
      CutWithoutNumber(items[1..], vars, replies);
      IdleItem(items[0], Wire(items[1..]) + [INFO_TRUNCATED], vars);
      WireCons(items, [INFO_TRUNCATED]);
      hide Parse, Wire, ItemWire, Idle, ColumnItem;
      assert forall i | 0 < i < |items| :: items[i] == items[1..][i - 1];
      if !Idle(items[0]) {
        assert exists i :: 0 <= i < |items| && !Idle(items[i]);
      }
    }
  }

  /** Before any column number an item either changes nothing or is an error. */
  lemma IdleItem(item: Item, rest: seq<byte>, vars: seq<Var>)
    requires ColumnItem(item)
    ensures Parse(ItemWire(item) + rest, State(0, vars))
            == if Idle(item) then Parse(rest, State(0, vars)) else Bad(vars)
  {
    var s := State(0, vars);
    match item
    case Mark =>
      assert ([SQL_DESCRIBE_END] + rest)[1..] == rest;
      ParseOne([SQL_DESCRIBE_END] + rest, s);
    case Item(tag, payload) =>
      LengthReadsBack(tag, payload, rest);
      ParseOne(ItemWire(item) + rest, s);
      assert Apply(s, tag, payload) == if IsIndexed(tag) then None else Some(s);
      hide Parse, ItemWire, Apply;
  }
}
