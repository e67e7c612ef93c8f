/** Shapes of array columns: element counts, the shape of a partially stored array, the
    linear indices of its present elements, and filling a scan target with them. */
module ArrayShape {
  import opened Bytes
  import opened ModularPower

  datatype Dimension = Dimension(lowerBound: int, length: int)

  const MAX_INT: int := 0x7fff_ffff_ffff_ffff

  /** 64-bit wrap-around. */
  function Wrap(v: int): int {
    var u := v % 0x1_0000_0000_0000_0000;
    if u > MAX_INT then u - 0x1_0000_0000_0000_0000 else u
  }

  predicate Positive(dims: seq<Dimension>) {
    forall i | 0 <= i < |dims| :: dims[i].length > 0
  }

  function Product(dims: seq<Dimension>): int {
    if dims == [] then 1 else dims[0].length * Product(dims[1..])
  }

  // --- counting ---------------------------------------------------------

  /** The number of elements of a shape, or 0 when it is empty, holds a non-positive length or
      overflows. */
  function ElementCount(dims: seq<Dimension>): int {
    if dims != [] && Positive(dims) && Product(dims) <= MAX_INT then Product(dims) else 0
  }

  lemma {:induction false} ProductPositive(dims: seq<Dimension>)
    requires Positive(dims)
    ensures Product(dims) >= 1
  {
    if dims != [] {
      ProductPositive(dims[1..]);
      MulAtLeast(dims[0].length, Product(dims[1..]));
    }
  }

  lemma MulAtLeast(a: int, b: int)
    requires a >= 1 && b >= 1
    ensures a * b >= a && a * b >= b
  {
    assert (a - 1) * (b - 1) >= 0;
  }

  lemma {:induction false} ProductSplit(p: seq<Dimension>, q: seq<Dimension>)
    ensures Product(p + q) == Product(p) * Product(q)
  {
    if p == [] {
      assert p + q == q;
    } else {
      assert (p + q)[1..] == p[1..] + q;
      ProductSplit(p[1..], q);
      assert p[0].length * (Product(p[1..]) * Product(q)) == p[0].length * Product(p[1..]) * Product(q);
    }
  }

  lemma ProductSnoc(dims: seq<Dimension>, i: nat)
    requires i < |dims|
    ensures Product(dims[..i + 1]) == Product(dims[..i]) * dims[i].length
  {
    assert dims[..i + 1] == dims[..i] + [dims[i]];
    ProductSplit(dims[..i], [dims[i]]);
    assert Product([dims[i]]) == dims[i].length * Product([dims[i]][1..]);
  }

  /** A prefix of a positive shape never holds more than the whole. */
  lemma PrefixAtMost(dims: seq<Dimension>, i: nat)
    requires Positive(dims) && i <= |dims|
    ensures 1 <= Product(dims[..i]) <= Product(dims)
    ensures 1 <= Product(dims[i..]) <= Product(dims)
  {
    assert dims[..i] + dims[i..] == dims;
    ProductSplit(dims[..i], dims[i..]);
    ProductPositive(dims[..i]);
    ProductPositive(dims[i..]);
    MulAtLeast(Product(dims[..i]), Product(dims[i..]));
  }

  lemma DivisionGuard(count: int, length: int)
    requires count >= 1 && length >= 1
    ensures count > MAX_INT / length <==> count * length > MAX_INT
  {
    var q := MAX_INT / length;
    assert MAX_INT == length * q + MAX_INT % length;
    hide *;
    if count > q {
      ScaleUp(q + 1, count, length);
      assert (q + 1) * length == length * q + length;
    } else {
      ScaleUp(count, q, length);
    }
  }

  lemma ScaleUp(a: int, b: int, n: int)
    requires a <= b && n >= 0
    ensures a * n <= b * n
  {
    assert (b - a) * n >= 0;
  }

  method AllElementsCount(dims: seq<Dimension>) returns (count: int)
    ensures count == ElementCount(dims) >= 0
    ensures count > 0 <==> dims != [] && (forall i | 0 <= i < |dims| :: dims[i].length > 0)
                           && Product(dims) <= 0x7fff_ffff_ffff_ffff
    ensures count > 0 ==> count == Product(dims)
  {
    if Positive(dims) {
      ProductPositive(dims);
    }
    if |dims| == 0 {
      return 0;
    }
    count := 1;
    for i := 0 to |dims|
      invariant Positive(dims[..i]) && 1 <= count == Product(dims[..i]) <= MAX_INT
    {
      ProductSnoc(dims, i);
      if dims[i].length <= 0 {
        return 0;
      }
      DivisionGuard(count, dims[i].length);
      if count > MAX_INT / dims[i].length {
        if Positive(dims) {
          PrefixAtMost(dims, i + 1);
        }
        return 0;
      }
      MulAtLeast(count, dims[i].length);
      count := count * dims[i].length;
    }
    assert dims[..|dims|] == dims;
  }

  /** The element count of all axes after the first, in wrapping arithmetic. */
  function Trailing(dims: seq<Dimension>): int {
    WrappedProduct(if dims == [] then [] else dims[1..])
  }

  function WrappedProduct(dims: seq<Dimension>): int {
    if dims == [] then 1 else Wrap(WrappedProduct(dims[..|dims| - 1]) * dims[|dims| - 1].length)
  }

  method ElementsInTrailingAxes(dims: seq<Dimension>) returns (total: int)
    ensures total == Trailing(dims)
  {
    total := 1;
    var i := 1;
    while i < |dims|
      invariant 1 <= i && (i <= |dims| || |dims| == 0)
      invariant |dims| > 0 ==> total == WrappedProduct(dims[1..i])
      invariant |dims| == 0 ==> total == 1
    {
      assert dims[1..i + 1][..i - 1] == dims[1..i];
      total := Wrap(total * dims[i].length);
      i := i + 1;
    }
    if |dims| > 0 {
      assert dims[1..i] == dims[1..];
    }
  }

  lemma {:induction false} NoWrap(dims: seq<Dimension>)
    requires Positive(dims) && Product(dims) <= MAX_INT
    ensures WrappedProduct(dims) == Product(dims)
  {
    if dims != [] {
      var n := |dims| - 1;
      assert Positive(dims[..n]) && dims[..n + 1] == dims;
      assert WrappedProduct(dims) == Wrap(WrappedProduct(dims[..n]) * dims[n].length);
      hide *;
      PrefixAtMost(dims, n);
      ProductSnoc(dims, n);
      NoWrap(dims[..n]);
      ProductPositive(dims);
      WrapFits(Product(dims));
    }
  }

  lemma WrapFits(v: int)
    requires 0 <= v <= MAX_INT
    ensures Wrap(v) == v
  {
  }

  /** A shape whose count is not zero has exact trailing products at every axis. */
  lemma TrailingExact(dims: seq<Dimension>, i: nat)
    requires ElementCount(dims) > 0 && i < |dims|
    ensures Trailing(dims[i..]) == Product(dims[i + 1..]) >= 1
    ensures Product(dims[i..]) == dims[i].length * Product(dims[i + 1..])
  {
    ProductPositive(dims);
    PrefixAtMost(dims, i + 1);
    assert dims[i..][1..] == dims[i + 1..];
    NoWrap(dims[i + 1..]);
  }

  // --- the shape of a short array ---------------------------------------

  /** The declared axes less the missing elements, as many as fit off each axis in turn. */
  function Shrunk(declared: seq<Dimension>, missing: int): Option<seq<Dimension>> {
    if declared == [] then Some([])
    else
      var tail := Trailing(declared);
      if tail <= 0 then None
      else
        match Shrunk(declared[1..], missing % tail)
        case None => None
        case Some(rest) => Some([Dimension(declared[0].lowerBound, declared[0].length - missing / tail)] + rest)
  }

  function Prepended(done: seq<Dimension>, rest: Option<seq<Dimension>>): Option<seq<Dimension>> {
    match rest
    case None => None
    case Some(r) => Some(done + r)
  }

  lemma ShrunkStep(declared: seq<Dimension>, i: nat, missing: int, done: seq<Dimension>)
    requires i < |declared|
    ensures var tail := Trailing(declared[i..]);
            Prepended(done, Shrunk(declared[i..], missing))
            == if tail <= 0 then None
               else Prepended(done + [Dimension(declared[i].lowerBound, declared[i].length - missing / tail)],
                              Shrunk(declared[i + 1..], missing % tail))
  {
    assert declared[i..][1..] == declared[i + 1..];
    var tail := Trailing(declared[i..]);
    hide Trailing;
    if tail > 0 {
      var d := Dimension(declared[i].lowerBound, declared[i].length - missing / tail);
      var rest := Shrunk(declared[i + 1..], missing % tail);
      if rest.Some? {
        assert done + ([d] + rest.value) == done + [d] + rest.value;
      }
    }
  }

  method ShrinkDimensions(declared: seq<Dimension>, actual: nat) returns (r: Option<seq<Dimension>>)
    ensures r == if ElementCount(declared) < actual then None else Shrunk(declared, ElementCount(declared) - actual)
  {
    hide ElementCount, Trailing;
    var count := AllElementsCount(declared);
    var missing := count - actual;
    if missing < 0 {
      return None;
    }
    var out := new Dimension[|declared|](_ => Dimension(0, 0));
    ghost var whole := Shrunk(declared, missing);
    assert declared[0..] == declared;
    assert whole.Some? ==> out[..0] + whole.value == whole.value;
    for i := 0 to |declared|
      invariant missing >= 0
      invariant whole == Prepended(out[..i], Shrunk(declared[i..], missing))
    {
      ShrunkStep(declared, i, missing, out[..i]);
      var tail := ElementsInTrailingAxes(declared[i..]);
      if tail <= 0 {
        return None;
      }
      ghost var done := out[..i];
      out[i] := Dimension(declared[i].lowerBound, declared[i].length - missing / tail);
      missing := missing % tail;
      assert out[..i + 1] == done + [out[i]];
    }
    assert declared[|declared|..] == [] && out[..] + [] == out[..] == out[..|declared|];
    r := Some(out[..]);
  }

  /** What was taken off each axis, weighted by the elements one step of it stands for. */
  function Deficit(declared: seq<Dimension>, actual: seq<Dimension>): int
    requires |declared| == |actual|
  {
    if declared == [] then 0
    else (declared[0].length - actual[0].length) * Product(declared[1..]) + Deficit(declared[1..], actual[1..])
  }

  ghost predicate Within(declared: seq<Dimension>, actual: seq<Dimension>) {
    |declared| == |actual|
    && forall i | 0 <= i < |declared| ::
         0 <= actual[i].length <= declared[i].length && actual[i].lowerBound == declared[i].lowerBound
  }

  lemma DivisionParts(a: int, b: int)
    requires b > 0
    ensures a == a / b * b + a % b && 0 <= a % b < b
  {
  }

  lemma QuotientBound(a: int, b: int, n: int)
    requires b > 0 && 0 <= a <= n * b
    ensures 0 <= a / b <= n
    ensures a < n * b ==> a / b < n
  {
  }

  /** For every declared shape and every number of stored elements it can hold, each axis stays
      between 0 and its declared length and the weighted deficits add up to the missing
      elements; later axes never shrink to nothing. */
  lemma {:induction false} ShrunkExact(declared: seq<Dimension>, missing: int)
    requires ElementCount(declared) > 0 && 0 <= missing <= Product(declared)
    ensures Shrunk(declared, missing).Some?
    ensures var actual := Shrunk(declared, missing).value;
            && Within(declared, actual)
            && Deficit(declared, actual) == missing
            && (missing < Product(declared) ==> Positive(actual))
  {
    TrailingExact(declared, 0);
    assert declared[0..] == declared;
    var tail := Product(declared[1..]);
    DivisionParts(missing, tail);
    QuotientBound(missing, tail, declared[0].length);
    if |declared| > 1 {
      PrefixAtMost(declared, 1);
      ShrunkExact(declared[1..], missing % tail);
    } else {
      assert declared[1..] == [];
      assert Shrunk(declared[1..], missing % tail) == Some([]);
    }
    var rest := Shrunk(declared[1..], missing % tail).value;
    var actual := Shrunk(declared, missing).value;
    assert actual[1..] == rest;
    assert forall i | 1 <= i < |actual| :: actual[i] == rest[i - 1] && declared[i] == declared[1..][i - 1];
  }

  // --- the present elements ---------------------------------------------

  datatype Range = Range(start: int, end: int)

  class RangeList {
    var ranges: seq<Range>

    constructor ()
      ensures ranges == []
    {
      ranges := [];
    }
  }

  /** The runs of present elements in the declared order, from position `pos` on. */
  function Ranges(declared: seq<Dimension>, actual: seq<Dimension>, pos: int): seq<Range>
    requires |declared| == |actual|
    decreases |declared|, 1
  {
    if declared == [] then []
    else if |declared| == 1 then [Range(pos, pos + actual[0].length - 1)]
    else Rows(declared, actual, actual[0].length, pos)
  }

  /** The runs of the first `rows` steps of the first axis. */
  function Rows(declared: seq<Dimension>, actual: seq<Dimension>, rows: int, pos: int): seq<Range>
    requires |declared| == |actual| > 1
    decreases |declared|, 0, rows
  {
    if rows <= 0 then []
    else Rows(declared, actual, rows - 1, pos)
         + Ranges(declared[1..], actual[1..], pos + RowStart(declared, rows - 1))
  }

  /** The offset of a step of the first axis. */
  function RowStart(declared: seq<Dimension>, row: int): int
    requires declared != []
  {
    row * Product(declared[1..])
  }

  lemma RowAdvance(rows: int, tail: int)
    ensures (rows + 1) * tail == rows * tail + tail
  {
  }

  /** Appends the runs through `out` and returns the position behind the declared shape. */
  method WalkPresentRanges(out: RangeList, declared: seq<Dimension>, actual: seq<Dimension>, pos: int)
      returns (end: int)
    requires |declared| == |actual|
    requires ElementCount(declared) > 0 && Within(declared, actual)
    modifies out
    ensures out.ranges == old(out.ranges) + Ranges(declared, actual, pos)
    ensures end == pos + Product(declared)
    decreases |declared|
  {
    TrailingExact(declared, 0);
    assert declared[0..] == declared;
    RowStarts(declared, 0);
    if |declared| > 1 {
      PrefixAtMost(declared, 1);
      assert ElementCount(declared[1..]) > 0 && Within(declared[1..], actual[1..]);
      hide Ranges, ElementCount, Trailing, RowStart;
      end := pos;
      for i := 0 to actual[0].length
        invariant out.ranges == old(out.ranges) + Rows(declared, actual, i, pos)
        invariant end == pos + RowStart(declared, i)
      {
        ghost var before := out.ranges;
        RowStarts(declared, i);
        end := WalkPresentRanges(out, declared[1..], actual[1..], end);
        assert before + Ranges(declared[1..], actual[1..], pos + RowStart(declared, i))
            == old(out.ranges) + Rows(declared, actual, i + 1, pos);
      }
      var trailing := ElementsInTrailingAxes(declared);
      end := end + trailing * (declared[0].length - actual[0].length);
      RowsLeft(declared, actual[0].length);
      assert Ranges(declared, actual, pos) == Rows(declared, actual, actual[0].length, pos) by {
        UnfoldRanges(declared, actual, pos);
      }
    } else {
      out.ranges := out.ranges + [Range(pos, pos + actual[0].length - 1)];
      end := pos + declared[0].length;
      assert Product(declared[1..]) == 1;
    }
  }

  lemma UnfoldRanges(declared: seq<Dimension>, actual: seq<Dimension>, pos: int)
    requires |declared| == |actual| > 1
    ensures Ranges(declared, actual, pos) == Rows(declared, actual, actual[0].length, pos)
  {
  }

  /** The steps not walked are skipped by one multiplication. */
  lemma RowsLeft(declared: seq<Dimension>, rows: int)
    requires declared != []
    ensures RowStart(declared, rows) + Product(declared[1..]) * (declared[0].length - rows) == Product(declared)
  {
    hide *;
    ProductCons(declared, rows);
    Distribute(Product(declared[1..]), rows, declared[0].length - rows);
  }

  lemma ProductCons(declared: seq<Dimension>, rows: int)
    requires declared != []
    ensures Product(declared) == declared[0].length * Product(declared[1..])
    ensures RowStart(declared, rows) == rows * Product(declared[1..])
  {
  }

  lemma Distribute(tail: int, a: int, b: int)
    ensures a * tail + tail * b == (a + b) * tail
  {
  }

  /** The coordinates of linear index `k`, read as a mixed-radix number over the declared
      lengths, lie below the actual length on every axis. */
  predicate Present(declared: seq<Dimension>, actual: seq<Dimension>, k: nat)
    requires |declared| == |actual| && Positive(declared)
    decreases |declared|
  {
    declared == [] ||
    (ProductPositive(declared[1..]);
     var tail := Product(declared[1..]);
     k / tail < actual[0].length && Present(declared[1..], actual[1..], k % tail))
  }

  /** The present linear indices below `n`, in increasing order, moved by `pos`. */
  function PresentBelow(declared: seq<Dimension>, actual: seq<Dimension>, n: nat, pos: int): seq<int>
    requires |declared| == |actual| && Positive(declared)
  {
    if n == 0 then []
    else PresentBelow(declared, actual, n - 1, pos) + (if Present(declared, actual, n - 1) then [pos + (n - 1)] else [])
  }

  function Span(start: int, count: nat): seq<int> {
    seq(count, i => start + i)
  }

  function Indices(rs: seq<Range>): seq<int> {
    if rs == [] then []
    else
      var r := rs[|rs| - 1];
      Indices(rs[..|rs| - 1]) + (if r.start <= r.end then Span(r.start, r.end - r.start + 1) else [])
  }

  lemma {:induction false} IndicesAppend(p: seq<Range>, q: seq<Range>)
    ensures Indices(p + q) == Indices(p) + Indices(q)
  {
    if q == [] {
      assert p + q == p;
    } else {
      var n := |q| - 1;
      assert (p + q)[..|p + q| - 1] == p + q[..n];
      IndicesAppend(p, q[..n]);
    }
  }

  lemma RowIndex(row: nat, k: nat, tail: int)
    requires 0 <= k < tail
    ensures row * tail >= 0 && (row * tail + k) / tail == row && (row * tail + k) % tail == k
    decreases row
  {
    if row > 0 {
      RowIndex(row - 1, k, tail);
      RowAdvance(row - 1, tail);
      AddDivisor((row - 1) * tail + k, tail);
    }
  }

  lemma AddDivisor(a: nat, b: int)
    requires b > 0
    ensures (a + b) / b == a / b + 1 && (a + b) % b == a % b
  {
    assert b * (a / b + 1) == b * (a / b) + b;
    RemainderIs(a + b, b, a / b + 1, a % b);
  }

  /** A row of the first axis holds the present indices of the remaining axes, moved to the
      row, or nothing when the row is beyond the actual length. */
  lemma {:induction false} RowPresent(declared: seq<Dimension>, actual: seq<Dimension>, row: nat, n: nat, pos: int)
    requires |declared| == |actual| > 1 && Positive(declared) && n <= Product(declared[1..])
    ensures var base := RowStart(declared, row);
            base >= 0
            && PresentBelow(declared, actual, base + n, pos)
            == PresentBelow(declared, actual, base, pos)
               + if row < actual[0].length then PresentBelow(declared[1..], actual[1..], n, pos + base) else []
  {
    RowStarts(declared, row);
    NothingBelow(declared[1..], actual[1..], pos + RowStart(declared, row));
    if n > 0 {
      RowPresent(declared, actual, row, n - 1, pos);
      PresentInRow(declared, actual, row, n - 1);
      hide *;
      var base := RowStart(declared, row);
      BelowStep(declared, actual, base + (n - 1), pos);
      BelowStep(declared[1..], actual[1..], n - 1, pos + base);
    }
  }

  lemma NothingBelow(declared: seq<Dimension>, actual: seq<Dimension>, pos: int)
    requires |declared| == |actual| && Positive(declared)
    ensures PresentBelow(declared, actual, 0, pos) == []
  {
  }

  lemma BelowStep(declared: seq<Dimension>, actual: seq<Dimension>, n: nat, pos: int)
    requires |declared| == |actual| && Positive(declared)
    ensures PresentBelow(declared, actual, n + 1, pos)
            == PresentBelow(declared, actual, n, pos) + (if Present(declared, actual, n) then [pos + n] else [])
  {
    hide Present;
  }

  /** An index is present exactly when its row is and its place in the row is. */
  lemma PresentInRow(declared: seq<Dimension>, actual: seq<Dimension>, row: nat, k: nat)
    requires |declared| == |actual| > 1 && Positive(declared) && k < Product(declared[1..])
    ensures Positive(declared[1..]) && RowStart(declared, row) >= 0
    ensures Present(declared, actual, RowStart(declared, row) + k)
            <==> row < actual[0].length && Present(declared[1..], actual[1..], k)
  {
    RowIndex(row, k, Product(declared[1..]));
    RowStarts(declared, row);
  }

  lemma RowStarts(declared: seq<Dimension>, row: nat)
    requires declared != [] && Positive(declared)
    ensures RowStart(declared, row) >= 0
    ensures RowStart(declared, 0) == 0
    ensures RowStart(declared, row + 1) == RowStart(declared, row) + Product(declared[1..])
  {
    ProductPositive(declared[1..]);
    RowIndex(row, 0, Product(declared[1..]));
    RowAdvance(row, Product(declared[1..]));
  }

  /** The rows of the first axis, given the listing of one row. */
  lemma {:induction false} RowsExact(declared: seq<Dimension>, actual: seq<Dimension>, rows: nat, pos: int)
    requires |declared| == |actual| > 1 && Positive(declared) && Positive(declared[1..])
    requires rows <= actual[0].length && Product(declared[1..]) >= 0
    requires forall p :: Indices(Ranges(declared[1..], actual[1..], p))
                         == PresentBelow(declared[1..], actual[1..], Product(declared[1..]), p)
    ensures RowStart(declared, rows) >= 0
    ensures Indices(Rows(declared, actual, rows, pos)) == PresentBelow(declared, actual, RowStart(declared, rows), pos)
    decreases rows
  {
    RowStarts(declared, rows);
    if rows == 0 {
      assert Rows(declared, actual, 0, pos) == [];
    } else {
      hide *;
      RowsExact(declared, actual, rows - 1, pos);
      RowsNext(declared, actual, rows, pos);
    }
  }

  lemma RowsNext(declared: seq<Dimension>, actual: seq<Dimension>, rows: nat, pos: int)
    requires |declared| == |actual| > 1 && Positive(declared) && Positive(declared[1..])
    requires 0 < rows <= actual[0].length && Product(declared[1..]) >= 0 && RowStart(declared, rows - 1) >= 0
    requires var base := RowStart(declared, rows - 1);
             && Indices(Rows(declared, actual, rows - 1, pos)) == PresentBelow(declared, actual, base, pos)
             && Indices(Ranges(declared[1..], actual[1..], pos + base))
             == PresentBelow(declared[1..], actual[1..], Product(declared[1..]), pos + base)
    ensures RowStart(declared, rows) >= 0
    ensures Indices(Rows(declared, actual, rows, pos)) == PresentBelow(declared, actual, RowStart(declared, rows), pos)
  {
    hide *;
    RowStarts(declared, rows - 1);
    RowPresent(declared, actual, rows - 1, Product(declared[1..]), pos);
    RowsStep(declared, actual, rows, pos);
  }

  lemma RowsStep(declared: seq<Dimension>, actual: seq<Dimension>, rows: nat, pos: int)
    requires |declared| == |actual| > 1 && rows > 0
    ensures Indices(Rows(declared, actual, rows, pos))
         == Indices(Rows(declared, actual, rows - 1, pos))
            + Indices(Ranges(declared[1..], actual[1..], pos + RowStart(declared, rows - 1)))
  {
    hide Ranges, Indices, RowStart;
    IndicesAppend(Rows(declared, actual, rows - 1, pos),
                  Ranges(declared[1..], actual[1..], pos + RowStart(declared, rows - 1)));
  }

  lemma {:induction false} RowsBeyond(declared: seq<Dimension>, actual: seq<Dimension>, rows: nat, pos: int)
    requires |declared| == |actual| > 1 && Positive(declared) && 0 <= actual[0].length <= rows
    ensures RowStart(declared, rows) >= 0 && RowStart(declared, actual[0].length) >= 0
    ensures PresentBelow(declared, actual, RowStart(declared, rows), pos)
         == PresentBelow(declared, actual, RowStart(declared, actual[0].length), pos)
    decreases rows
  {
    RowStarts(declared, rows);
    RowStarts(declared, actual[0].length);
    if rows > actual[0].length {
      hide *;
      RowStarts(declared, rows - 1);
      RowsBeyond(declared, actual, rows - 1, pos);
      RowPresent(declared, actual, rows - 1, Product(declared[1..]), pos);
    }
  }

  lemma {:induction false} LineExact(declared: seq<Dimension>, actual: seq<Dimension>, n: nat, pos: int)
    requires |declared| == |actual| == 1 && Positive(declared) && 0 <= actual[0].length
    ensures PresentBelow(declared, actual, n, pos)
         == Span(pos, if n < actual[0].length then n else actual[0].length)
  {
    if n > 0 {
      LineExact(declared, actual, n - 1, pos);
      assert declared[1..] == [] && Product(declared[1..]) == 1;
      assert Present(declared, actual, n - 1) <==> n - 1 < actual[0].length;
    }
  }

  lemma LineRanges(declared: seq<Dimension>, actual: seq<Dimension>, pos: int)
    requires |declared| == |actual| == 1 && Positive(declared) && 0 <= actual[0].length <= declared[0].length
    ensures Product(declared) == declared[0].length
    ensures Indices(Ranges(declared, actual, pos)) == PresentBelow(declared, actual, declared[0].length, pos)
  {
    LineExact(declared, actual, declared[0].length, pos);
    assert declared[1..] == [] && Product(declared[1..]) == 1;
    hide PresentBelow;
    var r := Range(pos, pos + actual[0].length - 1);
    assert [r][..0] == [];
    assert Indices([r]) == Indices([]) + (if r.start <= r.end then Span(r.start, r.end - r.start + 1) else []);
  }

  /** For any rank, the runs list in increasing order, each once, exactly the linear indices
      whose coordinates lie below the actual length on every axis. */
  lemma {:induction false} RangesExact(declared: seq<Dimension>, actual: seq<Dimension>, pos: int)
    requires declared != [] && Positive(declared) && Within(declared, actual)
    ensures Product(declared) >= 1
    ensures Indices(Ranges(declared, actual, pos)) == PresentBelow(declared, actual, Product(declared), pos)
    decreases |declared|
  {
    ProductPositive(declared);
    if |declared| == 1 {
      hide Ranges, Indices, PresentBelow, Present;
      LineRanges(declared, actual, pos);
    } else {
      ProductPositive(declared[1..]);
      assert Positive(declared[1..]) && Within(declared[1..], actual[1..]);
      assert 0 <= actual[0].length <= declared[0].length;
      assert RowStart(declared, declared[0].length) == Product(declared);
      UnfoldRanges(declared, actual, pos);
      hide *;
      forall p {
        RangesExact(declared[1..], actual[1..], p);
      }
      RowsExact(declared, actual, actual[0].length, pos);
      RowsBeyond(declared, actual, declared[0].length, pos);
    }
  }

  ghost predicate Ascending(l: seq<int>) {
    forall i, j | 0 <= i < j < |l| :: l[i] < l[j]
  }

  ghost predicate OnlyPresent(declared: seq<Dimension>, actual: seq<Dimension>, n: nat, pos: int, l: seq<int>)
    requires |declared| == |actual| && Positive(declared)
  {
    forall i | 0 <= i < |l| :: pos <= l[i] < pos + n && Present(declared, actual, l[i] - pos)
  }

  ghost predicate EveryPresent(declared: seq<Dimension>, actual: seq<Dimension>, n: nat, pos: int, l: seq<int>)
    requires |declared| == |actual| && Positive(declared)
  {
    forall k | 0 <= k < n && Present(declared, actual, k) :: pos + k in l
  }

  /** What the listing means: strictly increasing, and exactly the present indices. */
  lemma {:induction false} PresentBelowMeans(declared: seq<Dimension>, actual: seq<Dimension>, n: nat, pos: int)
    requires |declared| == |actual| && Positive(declared)
    ensures var l := PresentBelow(declared, actual, n, pos);
            Ascending(l) && OnlyPresent(declared, actual, n, pos, l) && EveryPresent(declared, actual, n, pos, l)
  {
    hide Ascending, OnlyPresent, EveryPresent, Present;
    if n == 0 {
      NothingListed(declared, actual, pos);
    } else {
      PresentBelowMeans(declared, actual, n - 1, pos);
      var l := PresentBelow(declared, actual, n - 1, pos);
      ListsNext(declared, actual, n - 1, pos, l);
      assert l + [] == l;
    }
  }

  lemma NothingListed(declared: seq<Dimension>, actual: seq<Dimension>, pos: int)
    requires |declared| == |actual| && Positive(declared)
    ensures Ascending([]) && OnlyPresent(declared, actual, 0, pos, []) && EveryPresent(declared, actual, 0, pos, [])
  {
  }

  /** One more index, listed when it is present. */
  lemma ListsNext(declared: seq<Dimension>, actual: seq<Dimension>, n: nat, pos: int, l: seq<int>)
    requires |declared| == |actual| && Positive(declared)
    requires Ascending(l) && OnlyPresent(declared, actual, n, pos, l) && EveryPresent(declared, actual, n, pos, l)
    ensures var next := if Present(declared, actual, n) then l + [pos + n] else l;
            Ascending(next) && OnlyPresent(declared, actual, n + 1, pos, next)
            && EveryPresent(declared, actual, n + 1, pos, next)
  {
    AscendingNext(declared, actual, n, pos, l);
    OnlyNext(declared, actual, n, pos, l);
    EveryNext(declared, actual, n, pos, l);
    hide *;
  }

  lemma AscendingNext(declared: seq<Dimension>, actual: seq<Dimension>, n: nat, pos: int, l: seq<int>)
    requires |declared| == |actual| && Positive(declared)
    requires Ascending(l) && OnlyPresent(declared, actual, n, pos, l)
    ensures Ascending(l + [pos + n])
  {
    hide Present, Positive;
  }

  lemma OnlyNext(declared: seq<Dimension>, actual: seq<Dimension>, n: nat, pos: int, l: seq<int>)
    requires |declared| == |actual| && Positive(declared) && OnlyPresent(declared, actual, n, pos, l)
    ensures OnlyPresent(declared, actual, n + 1, pos, l)
    ensures Present(declared, actual, n) ==> OnlyPresent(declared, actual, n + 1, pos, l + [pos + n])
  {
    hide Present, Positive;
    if Present(declared, actual, n) {
      var next := l + [pos + n];
      forall i | 0 <= i < |next|
        ensures pos <= next[i] < pos + (n + 1) && Present(declared, actual, next[i] - pos)
      {
        if i == |l| {
          assert next[i] - pos == n;
        }
      }
    }
  }

  lemma EveryNext(declared: seq<Dimension>, actual: seq<Dimension>, n: nat, pos: int, l: seq<int>)
    requires |declared| == |actual| && Positive(declared) && EveryPresent(declared, actual, n, pos, l)
    ensures Present(declared, actual, n) ==> EveryPresent(declared, actual, n + 1, pos, l + [pos + n])
    ensures !Present(declared, actual, n) ==> EveryPresent(declared, actual, n + 1, pos, l)
  {
    hide Present, Positive;
    assert (l + [pos + n])[|l|] == pos + n;
    forall k | 0 <= k < n + 1 && Present(declared, actual, k)
      ensures pos + k in l + [pos + n]
    {
      if k < n {
        assert pos + k in l;
      }
    }
  }

  // --- filling a scan target --------------------------------------------

  class ArraySetter<T> {
    const zero: T
    var slots: array<T>
    var dims: seq<Dimension>

    constructor (zero: T)
      ensures this.zero == zero && fresh(slots) && slots.Length == 0 && dims == []
    {
      this.zero := zero;
      slots := new T[0];
      dims := [];
    }

    /** Sizes the target; an empty shape makes it empty. */
    method SetDimensions(dimensions: seq<Dimension>)
      modifies this
      ensures dims == dimensions && fresh(slots) && slots.Length == ElementCount(dimensions)
    {
      var n := AllElementsCount(dimensions);
      if Positive(dimensions) {
        ProductPositive(dimensions);
      }
      slots := new T[n](_ => zero);
      dims := dimensions;
    }
  }

  lemma {:induction false} ShrunkByNothing(declared: seq<Dimension>)
    requires ElementCount(declared) > 0
    ensures Shrunk(declared, 0) == Some(declared)
  {
    TrailingExact(declared, 0);
    assert declared[0..] == declared;
    if |declared| > 1 {
      PrefixAtMost(declared, 1);
      ShrunkByNothing(declared[1..]);
    } else {
      assert declared[1..] == [];
    }
    NothingOff(declared, Trailing(declared));
  }

  lemma NothingOff(declared: seq<Dimension>, tail: int)
    requires declared != [] && tail == Trailing(declared) > 0 && Shrunk(declared[1..], 0) == Some(declared[1..])
    ensures Shrunk(declared, 0) == Some(declared)
  {
    hide Trailing;
    assert 0 / tail == 0 && 0 % tail == 0;
    assert [Dimension(declared[0].lowerBound, declared[0].length - 0)] + declared[1..] == declared;
  }

  lemma {:induction false} AllPresent(declared: seq<Dimension>, k: nat)
    requires Positive(declared) && k < Product(declared)
    ensures Present(declared, declared, k)
  {
    if declared != [] {
      ProductPositive(declared[1..]);
      QuotientBound(k, Product(declared[1..]), declared[0].length);
      DivisionParts(k, Product(declared[1..]));
      AllPresent(declared[1..], k % Product(declared[1..]));
    }
  }

  lemma {:induction false} FullListing(declared: seq<Dimension>, n: nat)
    requires Positive(declared) && n <= Product(declared)
    ensures PresentBelow(declared, declared, n, 0) == Span(0, n)
  {
    if n > 0 {
      AllPresent(declared, n - 1);
      FullListing(declared, n - 1);
    }
  }

  predicate Fillable(declared: seq<Dimension>, n: nat) {
    n <= ElementCount(declared) && (|declared| > 1 ==> n == ElementCount(declared))
  }

  /** For a shape that may be filled, the runs are all the elements in wire order and the
      actual shape holds exactly that many. */
  lemma FillableRanges(declared: seq<Dimension>, n: nat)
    requires n > 0 && Fillable(declared, n)
    ensures Shrunk(declared, ElementCount(declared) - n).Some?
    ensures var actual := Shrunk(declared, ElementCount(declared) - n).value;
            && Within(declared, actual) && ElementCount(actual) == n
            && Indices(Ranges(declared, actual, 0)) == Span(0, n)
  {
    var missing := ElementCount(declared) - n;
    ShrunkExact(declared, missing);
    var actual := Shrunk(declared, missing).value;
    RangesExact(declared, actual, 0);
    if |declared| > 1 {
      ShrunkByNothing(declared);
      FullListing(declared, Product(declared));
    } else {
      assert declared[1..] == [] && actual[1..] == [];
      assert Product(declared) == declared[0].length && Product(actual) == actual[0].length;
      assert Deficit(declared, actual) == declared[0].length - actual[0].length;
      LineExact(declared, actual, declared[0].length, 0);
    }
  }

  /** In a list of runs covering 0, 1, ..., n - 1 each run starts where the ones before it
      stopped. */
  lemma RunStart(ranges: seq<Range>, j: nat, n: nat)
    requires j < |ranges| && Indices(ranges) == Span(0, n)
    ensures var idx, r := |Indices(ranges[..j])|, ranges[j];
            && idx <= n
            && (r.start <= r.end ==> r.start == idx && r.end < n && |Indices(ranges[..j + 1])| == r.end + 1)
            && (r.start > r.end ==> |Indices(ranges[..j + 1])| == idx)
  {
    hide Indices;
    var r := ranges[j];
    IndicesFront(ranges, j);
    IndicesFront(ranges, j + 1);
    IndicesSnoc(ranges, j);
    var idx := |Indices(ranges[..j])|;
    if r.start <= r.end {
      assert Indices(ranges)[idx] == Indices(ranges[..j + 1])[idx] == r.start;
    }
  }

  lemma IndicesFront(ranges: seq<Range>, j: nat)
    requires j <= |ranges|
    ensures Indices(ranges[..j]) <= Indices(ranges)
  {
    assert ranges == ranges[..j] + ranges[j..];
    IndicesAppend(ranges[..j], ranges[j..]);
  }

  lemma IndicesSnoc(ranges: seq<Range>, j: nat)
    requires j < |ranges|
    ensures var r := ranges[j];
            Indices(ranges[..j + 1])
            == Indices(ranges[..j]) + if r.start <= r.end then Span(r.start, r.end - r.start + 1) else []
  {
    assert ranges[..j + 1][..j] == ranges[..j];
  }

  /** Converts the elements the runs name, in order, into consecutive slots. */
  method FillSlots<E, T>(slots: array<T>, ranges: seq<Range>, elements: seq<E>, convert: E -> Option<T>)
      returns (ok: bool)
    requires slots.Length == |elements| && Indices(ranges) == Span(0, |elements|)
    modifies slots
    ensures ok <==> forall i | 0 <= i < |elements| :: convert(elements[i]).Some?
    ensures ok ==> forall i | 0 <= i < |elements| :: convert(elements[i]) == Some(slots[i])
  {
    var idx := 0;
    for j := 0 to |ranges|
      invariant idx == |Indices(ranges[..j])| <= |elements|
      invariant forall i | 0 <= i < idx :: convert(elements[i]) == Some(slots[i])
    {
      RunStart(ranges, j, |elements|);
      hide Indices;
      var r := ranges[j];
      var i := r.start;
      while i <= r.end && idx < |elements|
        invariant r.start <= r.end ==> i == idx <= r.end + 1 <= |elements|
        invariant r.start > r.end ==> i == r.start && idx == |Indices(ranges[..j])|
        invariant 0 <= idx <= |elements|
        invariant forall k | 0 <= k < idx :: convert(elements[k]) == Some(slots[k])
        decreases r.end - i
      {
        var v := convert(elements[i]);
        if v == None {
          return false;
        }
        slots[idx] := v.value;
        idx := idx + 1;
        i := i + 1;
      }
    }
    assert ranges[..|ranges|] == ranges;
    ok := true;
  }

  /** Fills the target with the converted elements. It succeeds exactly when the elements
      fit the declared shape (all of it, for more than one axis) and each one converts; then
      the target has one slot per element and element i is in slot i. */
  method FillArraySetter<E, T>(setter: ArraySetter<T>, declared: seq<Dimension>, elements: Option<seq<E>>,
                               convert: E -> Option<T>) returns (ok: bool)
    modifies setter
    ensures ok <==> elements == None || elements.value == []
                    || (var n, count := |elements.value|, ElementCount(declared);
                        n <= count && (|declared| == 1 || n == count)
                        && forall i | 0 <= i < |elements.value| :: convert(elements.value[i]).Some?)
    ensures ok ==> fresh(setter.slots)
                   && setter.slots.Length == (if elements == None then 0 else |elements.value|)
    ensures ok && elements.Some? ==>
              forall i | 0 <= i < |elements.value| :: convert(elements.value[i]) == Some(setter.slots[i])
    ensures ok && elements.Some? && elements.value != [] ==>
              Within(declared, setter.dims) && ElementCount(setter.dims) == |elements.value|
  {
    if elements == None || |elements.value| == 0 {
      setter.SetDimensions([]);
      return true;
    }
    var src := elements.value;
    var count := AllElementsCount(declared);
    if |declared| > 1 && |src| != count {
      return false;
    }
    if Fillable(declared, |src|) {
      FillableRanges(declared, |src|);
    }
    hide Shrunk, ElementCount, Within, Ranges, Indices;
    var actual := ShrinkDimensions(declared, |src|);
    if actual == None {
      return false;
    }
    setter.SetDimensions(actual.value);
    var out := new RangeList();
    var _ := WalkPresentRanges(out, declared, actual.value, 0);
    assert out.ranges == [] + Ranges(declared, actual.value, 0) == Ranges(declared, actual.value, 0);
    ok := FillSlots(setter.slots, out.ranges, src, convert);
  }
}
