/** Nested slices as array arguments: the raggedness test, the shape of a rectangular value
    and its elements by linear index. */
module ArrayNested {
  import opened Bytes
  import opened ModularPower
  import opened ArrayShape

  /** A Go value seen through reflection. A slice may be nil, and then it is empty. */
  datatype Value = Leaf(v: int, isNil: bool) | Slice(items: seq<Value>, isNil: bool)

  /** A value of a type with `depth` slice levels. */
  ghost predicate Typed(v: Value, depth: nat) {
    if depth == 0 then v.Leaf?
    else v.Slice? && (v.isNil ==> v.items == []) && forall i | 0 <= i < |v.items| :: Typed(v.items[i], depth - 1)
  }

  /** Every slice at one depth has the one length `shape` gives for that depth. */
  ghost predicate HasShape(v: Value, shape: seq<nat>) {
    shape == [] ||
    (v.Slice? && |v.items| == shape[0] && forall i | 0 <= i < |v.items| :: HasShape(v.items[i], shape[1..]))
  }

  /** One length per depth. */
  ghost predicate Rectangular(v: Value, depth: nat) {
    exists shape: seq<nat> :: |shape| == depth && HasShape(v, shape)
  }

  // --- raggedness -------------------------------------------------------

  /** The slice of lengths that all levels of the recursion share and extend. */
  class Lens {
    var lens: seq<nat>

    constructor ()
      ensures lens == []
    {
      lens := [];
    }
  }

  /** The slices below `v` have the lengths recorded from index `lvl` on. */
  ghost predicate Conforms(v: Value, depth: nat, lens: seq<nat>, lvl: nat)
    requires depth > 0 && Typed(v, depth)
    decreases depth
  {
    depth == 1 || v.items == []
    || (lvl < |lens|
        && forall i | 0 <= i < |v.items| ::
             Typed(v.items[i], depth - 1) && |v.items[i].items| == lens[lvl]
             && Conforms(v.items[i], depth - 1, lens, lvl + 1))
  }

  lemma {:induction false} ConformsExtends(v: Value, depth: nat, lens: seq<nat>, longer: seq<nat>, lvl: nat)
    requires depth > 0 && Typed(v, depth) && lens <= longer && Conforms(v, depth, lens, lvl)
    ensures Conforms(v, depth, longer, lvl)
    decreases depth
  {
    if depth > 1 && v.items != [] {
      forall i | 0 <= i < |v.items|
        ensures Typed(v.items[i], depth - 1) && |v.items[i].items| == longer[lvl]
                && Conforms(v.items[i], depth - 1, longer, lvl + 1)
      {
        ConformsExtends(v.items[i], depth - 1, lens, longer, lvl + 1);
      }
    }
  }

  /** The least extension of the recorded lengths that `v` conforms to, if there is any. */
  method IsSliceRagged(slice: Value, depth: nat, lvl: nat, lens: Lens) returns (ragged: bool)
    requires depth > 0 && Typed(slice, depth) && lvl <= |lens.lens|
    modifies lens
    ensures !ragged ==> old(lens.lens) <= lens.lens && Conforms(slice, depth, lens.lens, lvl)
    ensures !ragged ==>
              forall all: seq<nat> ::
                old(lens.lens) <= all && Conforms(slice, depth, all, lvl) ==> lens.lens <= all
    ensures ragged ==> forall all: seq<nat> :: old(lens.lens) <= all ==> !Conforms(slice, depth, all, lvl)
    decreases depth
  {
    if depth == 1 {
      return false;
    }
    var innerLen := 0;
    for i := 0 to |slice.items|
      invariant old(lens.lens) <= lens.lens
      invariant i == 0 ==> lens.lens == old(lens.lens)
      invariant i > 0 ==> lvl < |lens.lens| && innerLen == lens.lens[lvl]
      invariant forall k | 0 <= k < i ::
                  |slice.items[k].items| == innerLen && Conforms(slice.items[k], depth - 1, lens.lens, lvl + 1)
      invariant forall all: seq<nat> :: old(lens.lens) <= all && Conforms(slice, depth, all, lvl) ==> lens.lens <= all
    {
      var item := slice.items[i];
      ghost var before := lens.lens;
      if i == 0 {
        innerLen := |item.items|;
        if |lens.lens| - 1 >= lvl {
          if lens.lens[lvl] != innerLen {
            return true;
          }
        } else {
          lens.lens := lens.lens + [innerLen];
        }
      } else if |item.items| != innerLen {
        return true;
      }
      ghost var known := lens.lens;
      assert forall all: seq<nat> :: old(lens.lens) <= all && Conforms(slice, depth, all, lvl) ==> known <= all;
      var inner := IsSliceRagged(item, depth - 1, lvl + 1, lens);
      if inner {
        return true;
      }
      forall k | 0 <= k < i
        ensures Conforms(slice.items[k], depth - 1, lens.lens, lvl + 1)
      {
        ConformsExtends(slice.items[k], depth - 1, known, lens.lens, lvl + 1);
      }
    }
    ragged := false;
  }

  lemma {:induction false} ConformsIsShape(v: Value, depth: nat, lens: seq<nat>, lvl: nat)
    requires depth > 0 && Typed(v, depth) && lvl + depth - 1 <= |lens|
    ensures Conforms(v, depth, lens, lvl) <==> HasShape(v, [|v.items|] + lens[lvl..lvl + depth - 1])
    decreases depth
  {
    var shape := [|v.items|] + lens[lvl..lvl + depth - 1];
    assert shape[1..] == lens[lvl..lvl + depth - 1];
    if depth > 1 {
      forall i | 0 <= i < |v.items|
        ensures (|v.items[i].items| == lens[lvl] && Conforms(v.items[i], depth - 1, lens, lvl + 1))
                <==> HasShape(v.items[i], shape[1..])
      {
        ConformsIsShape(v.items[i], depth - 1, lens, lvl + 1);
        assert lens[lvl..lvl + depth - 1] == [lens[lvl]] + lens[lvl + 1..lvl + 1 + (depth - 1) - 1];
        if |v.items[i].items| != lens[lvl] {
          assert !HasShape(v.items[i], shape[1..]);
        }
      }
    }
  }

  lemma RectangularConforms(v: Value, depth: nat)
    requires depth > 0 && Typed(v, depth)
    ensures Rectangular(v, depth) <==> exists lens: seq<nat> :: Conforms(v, depth, lens, 0)
  {
    if Rectangular(v, depth) {
      var shape: seq<nat> :| |shape| == depth && HasShape(v, shape);
      assert shape == [|v.items|] + shape[1..][0..0 + depth - 1];
      ConformsIsShape(v, depth, shape[1..], 0);
    }
    if exists lens: seq<nat> :: Conforms(v, depth, lens, 0) {
      var lens: seq<nat> :| Conforms(v, depth, lens, 0);
      var longer := lens + seq(depth, i => 0);
      ConformsExtends(v, depth, lens, longer, 0);
      ConformsIsShape(v, depth, longer, 0);
      var shape: seq<nat> := [|v.items|] + longer[0..depth - 1];
      assert |shape| == depth && HasShape(v, shape);
    }
  }

  /** For every nested slice the test is false exactly when there is one length per depth,
      whatever order the shared lengths are recorded in. */
  method IsRagged(slice: Value, depth: nat) returns (ragged: bool)
    requires depth > 0 && Typed(slice, depth)
    ensures ragged <==> !Rectangular(slice, depth)
  {
    RectangularConforms(slice, depth);
    if depth == 1 {
      var none: seq<nat> := [];
      assert Conforms(slice, depth, none, 0);
      return false;
    }
    var lens := new Lens();
    ghost var none: seq<nat> := [];
    hide *;
    ragged := IsSliceRagged(slice, depth, 0, lens);
    if ragged {
      forall all: seq<nat>
        ensures !Conforms(slice, depth, all, 0)
      {
        assert none <= all;
      }
    } else {
      ghost var found: seq<nat> := lens.lens;
      assert Conforms(slice, depth, found, 0);
    }
  }

  // --- the shape of a rectangular value -----------------------------------

  /** The lengths met on the way down the first items, ending behind the first zero. */
  ghost function Spine(v: Value, depth: nat): seq<nat>
    requires Typed(v, depth)
    decreases depth
  {
    if depth == 0 then []
    else if v.items == [] then [0]
    else [|v.items|] + Spine(v.items[0], depth - 1)
  }

  /** The axes reported for a value: its spine, or one empty axis per level of its type when
      it is itself empty. */
  ghost function Reported(v: Value, depth: nat): seq<nat>
    requires Typed(v, depth)
  {
    if depth > 0 && v.items == [] then seq(depth, i => 0) else Spine(v, depth)
  }

  function LowerAt(lowers: seq<int>, i: nat): int {
    if i < |lowers| then lowers[i] else 1
  }

  function Axes(lens: seq<nat>, lowers: seq<int>): (dims: seq<Dimension>)
    ensures |dims| == |lens|
    ensures forall i | 0 <= i < |lens| :: dims[i] == Dimension(LowerAt(lowers, i), lens[i])
  {
    seq(|lens|, i requires 0 <= i < |lens| => Dimension(LowerAt(lowers, i), lens[i]))
  }

  /** Each axis keeps its length and starts where the column's does, or at 1 when the column says
      nothing of it. */
  lemma AxisBounds(lens: seq<nat>, lowers: seq<int>, i: nat)
    requires i < |lens|
    ensures Axes(lens, lowers)[i].length == lens[i]
    ensures Axes(lens, lowers)[i].lowerBound == if i < |lowers| then lowers[i] else 1
  {
  }

  function Size(shape: seq<nat>): nat {
    if shape == [] then 1 else shape[0] * Size(shape[1..])
  }

  lemma {:induction false} SpineIsPrefix(v: Value, depth: nat, shape: seq<nat>)
    requires Typed(v, depth) && |shape| == depth && HasShape(v, shape)
    ensures Spine(v, depth) <= shape
    ensures |Spine(v, depth)| < depth ==> 0 in Spine(v, depth)
    decreases depth
  {
    if depth > 0 && v.items != [] {
      SpineIsPrefix(v.items[0], depth - 1, shape[1..]);
    }
  }

  // --- row-major order ----------------------------------------------------

  /** The leaves in row-major order. */
  ghost function Flatten(v: Value, depth: nat): seq<Value>
    requires Typed(v, depth)
    decreases depth, 0, 0
  {
    if depth == 0 then [v] else FlattenAll(v.items, depth - 1)
  }

  ghost function FlattenAll(items: seq<Value>, depth: nat): seq<Value>
    requires forall i | 0 <= i < |items| :: Typed(items[i], depth)
    decreases depth, 1, |items|
  {
    if items == [] then [] else Flatten(items[0], depth) + FlattenAll(items[1..], depth)
  }

  /** The leaf reached by taking one item per level. */
  ghost function At(v: Value, path: seq<nat>): Option<Value>
    decreases |path|
  {
    if path == [] then Some(v)
    else if v.Slice? && path[0] < |v.items| then At(v.items[path[0]], path[1..])
    else None
  }

  /** The digits of `i` in the mixed radix `shape`, found from the last one to the first. */
  function Digits(i: nat, shape: seq<nat>): (path: seq<nat>)
    ensures |path| == |shape|
    decreases |shape|
  {
    if shape == [] || shape[|shape| - 1] == 0 then seq(|shape|, _ => 0)
    else
      var n := |shape| - 1;
      Digits(i / shape[n], shape[..n]) + [i % shape[n]]
  }

  lemma {:induction false} SizeSplit(p: seq<nat>, q: seq<nat>)
    ensures Size(p + q) == Size(p) * Size(q)
  {
    if p == [] {
      assert p + q == q;
    } else {
      assert (p + q)[1..] == p[1..] + q;
      SizeSplit(p[1..], q);
      assert p[0] * (Size(p[1..]) * Size(q)) == p[0] * Size(p[1..]) * Size(q);
    }
  }

  lemma {:induction false} SizeZero(shape: seq<nat>)
    ensures Size(shape) == 0 <==> 0 in shape
  {
    if shape != [] {
      SizeZero(shape[1..]);
      assert shape == [shape[0]] + shape[1..];
      assert shape[0] > 0 && Size(shape[1..]) > 0 ==> shape[0] * Size(shape[1..]) > 0;
    }
  }

  lemma SmallRemainder(i: nat, n: nat)
    requires i < n
    ensures i / n == 0 && i % n == i && i / 1 == i && i % 1 == 0
  {
  }

  lemma DigitsSnoc(i: nat, front: seq<nat>, m: nat)
    requires m > 0
    ensures Digits(i, front + [m]) == Digits(i / m, front) + [i % m]
  {
    var shape := front + [m];
    assert shape[..|shape| - 1] == front;
  }

  lemma SizeSnoc(front: seq<nat>, m: nat)
    ensures Size(front + [m]) == Size(front) * m
  {
    SizeSplit(front, [m]);
    assert [m][1..] == [];
    assert Size([m]) == m * 1;
  }

  /** The first digit counts whole rows. */
  lemma {:induction false} FirstDigit(i: nat, l: nat, rest: seq<nat>)
    requires l > 0 && 0 !in rest && i < l * Size(rest)
    ensures Size(rest) > 0
    ensures Digits(i, [l] + rest) == [i / Size(rest)] + Digits(i % Size(rest), rest)
    decreases |rest|
  {
    SizeZero(rest);
    if rest == [] {
      SmallRemainder(i, l);
      DigitsSnoc(i, [], l);
      assert [] + [l] == [l] + rest;
    } else {
      var n := |rest| - 1;
      var m, front := rest[n], rest[..n];
      assert rest == front + [m];
      FirstDigitStep(i, l, front, m);
    }
  }

  lemma {:induction false} FirstDigitStep(i: nat, l: nat, front: seq<nat>, m: nat)
    requires l > 0 && m > 0 && 0 !in front && i < l * Size(front + [m])
    ensures Size(front + [m]) > 0
    ensures Digits(i, [l] + (front + [m])) == [i / Size(front + [m])] + Digits(i % Size(front + [m]), front + [m])
    decreases |front| + 1, 0
  {
    hide *;
    var p := Size(front);
    SizeSnoc(front, m);
    SizeZero(front);
    TwoDivisions(i, p, m);
    Associate(l, p, m);
    DivisionBound(i, l * p, m);
    FirstDigit(i / m, l, front);
    var whole := i % (p * m);
    DigitsSnoc(i, [l] + front, m);
    DigitsSnoc(whole, front, m);
    assert [l] + (front + [m]) == ([l] + front) + [m];
    assert [i / m / p] + (Digits(i / m % p, front) + [i % m]) == ([i / m / p] + Digits(i / m % p, front)) + [i % m];
  }

  lemma DivisionBound(i: nat, n: nat, m: nat)
    requires m > 0 && i < n * m
    ensures i / m < n && i % m < m && i == (i / m) * m + i % m
  {
    var q := i / m;
    assert i == m * q + i % m;
    if q >= n {
      MulMonotone(m, n, q);
      assert false;
    }
  }

  lemma MulMonotone(m: nat, a: nat, b: nat)
    requires a <= b
    ensures m * a <= m * b && a * m == m * a && b * m == m * b
  {
  }

  /** The linear index of element r of row k. */
  function Offset(k: nat, width: nat, r: nat): nat {
    k * width + r
  }

  lemma OffsetStep(k: nat, width: nat, r: nat)
    ensures Offset(0, width, r) == r
    ensures k > 0 ==> Offset(k, width, r) == width + Offset(k - 1, width, r)
  {
  }

  /** Row k of a list of equal rows. */
  lemma {:induction false} FlattenRow(items: seq<Value>, depth: nat, width: nat, k: nat, r: nat)
    requires forall i | 0 <= i < |items| :: Typed(items[i], depth) && |Flatten(items[i], depth)| == width
    ensures |FlattenAll(items, depth)| == Offset(|items|, width, 0)
    ensures k < |items| && r < width ==>
              Offset(k, width, r) < |FlattenAll(items, depth)|
              && FlattenAll(items, depth)[Offset(k, width, r)] == Flatten(items[k], depth)[r]
    decreases |items|
  {
    OffsetStep(k, width, r);
    OffsetStep(|items|, width, 0);
    assert items != [] ==> FlattenAll(items, depth) == Flatten(items[0], depth) + FlattenAll(items[1..], depth);
    assert items == [] ==> FlattenAll(items, depth) == [];
    hide *;
    if items != [] {
      assert items[1..] == items[1..];
      FlattenRow(items[1..], depth, width, if k == 0 then 0 else k - 1, r);
    }
  }

  /** The flattening of a rectangular value is as long as its shape says, and the leaf at a
      linear index is the one its mixed-radix digits lead to. */
  lemma {:induction false} FlattenIsRowMajor(v: Value, depth: nat, shape: seq<nat>, i: nat)
    requires Typed(v, depth) && |shape| == depth && HasShape(v, shape)
    ensures |Flatten(v, depth)| == Size(shape)
    ensures i < Size(shape) ==> At(v, Digits(i, shape)) == Some(Flatten(v, depth)[i])
    decreases depth
  {
    if depth > 0 {
      var rest := shape[1..];
      var width := Size(rest);
      forall k | 0 <= k < |v.items|
        ensures |Flatten(v.items[k], depth - 1)| == width
      {
        FlattenIsRowMajor(v.items[k], depth - 1, rest, 0);
      }
      FlattenRow(v.items, depth - 1, width, 0, 0);
      assert Offset(|v.items|, width, 0) == |v.items| * width;
      if i < Size(shape) {
        RowMajorStep(v, depth, shape, i);
      }
    }
  }

  lemma {:induction false} RowMajorStep(v: Value, depth: nat, shape: seq<nat>, i: nat)
    requires depth > 0 && Typed(v, depth) && |shape| == depth && HasShape(v, shape)
    requires forall k | 0 <= k < |v.items| :: |Flatten(v.items[k], depth - 1)| == Size(shape[1..])
    requires i < Size(shape) && |Flatten(v, depth)| == Size(shape)
    ensures At(v, Digits(i, shape)) == Some(Flatten(v, depth)[i])
    decreases depth, 0
  {
    var rest := shape[1..];
    var width := Size(rest);
    SizeZero(shape);
    assert shape == [shape[0]] + rest;
    FirstDigit(i, shape[0], rest);
    var k, r := i / width, i % width;
    DivisionBound(i, shape[0], width);
    FlattenRow(v.items, depth - 1, width, k, r);
    assert i == Offset(k, width, r);
    FlattenIsRowMajor(v.items[k], depth - 1, rest, r);
    var path := Digits(i, shape);
    assert path[0] == k && path[1..] == Digits(r, rest);
  }

  lemma DigitsEmpty(i: nat)
    ensures Digits(i, []) == []
  {
  }

  lemma AtEnd(v: Value)
    ensures At(v, []) == Some(v)
  {
  }

  lemma AtStep(v: Value, path: seq<nat>)
    requires path != [] && At(v, path).Some?
    ensures v.Slice? && path[0] < |v.items| && At(v.items[path[0]], path[1..]) == At(v, path)
  {
  }

  /** With a single axis the linear index is the only digit. */
  lemma SinglePath(v: Value, shape: seq<nat>, i: nat)
    requires 0 < |shape| && 0 !in shape && i < Size(shape) && At(v, Digits(i, shape)).Some?
    ensures |shape| == 1 ==> v.Slice? && i < |v.items| && At(v, Digits(i, shape)) == Some(v.items[i])
  {
    if |shape| == 1 {
      assert shape == [] + [shape[0]];
      SizeSnoc([], shape[0]);
      DigitsSnoc(i, [], shape[0]);
      SmallRemainder(i, shape[0]);
      DigitsEmpty(i / shape[0]);
      AtStep(v, [i]);
      AtEnd(v.items[i]);
      assert [i][1..] == [];
    }
  }

  lemma SpineSteps(v: Value, depth: nat)
    requires Typed(v, depth)
    ensures depth == 0 <==> v.Leaf?
    ensures depth == 0 ==> Spine(v, depth) == []
    ensures depth > 0 && v.items == [] ==> Spine(v, depth) == [0]
    ensures depth > 0 && v.items != [] ==>
              Typed(v.items[0], depth - 1) && Spine(v, depth) == [|v.items|] + Spine(v.items[0], depth - 1)
  {
  }

  /** One turn of the descent: the spine so far and what it leads to. */
  lemma WalkStep(s: Value, depth: nat, lens: seq<nat>, whole: seq<nat>)
    requires depth > 0 && Typed(s, depth) && whole == lens + Spine(s, depth)
    ensures s.Slice? && |whole| > |lens|
    ensures s.items == [] ==> whole == lens + [|s.items|]
    ensures s.items != [] ==>
              Typed(s.items[0], depth - 1) && whole == (lens + [|s.items|]) + Spine(s.items[0], depth - 1)
    ensures s.items != [] && !s.items[0].Slice? ==> whole == lens + [|s.items|]
    ensures s.items != [] && s.items[0].Slice? ==> depth > 1
  {
    SpineSteps(s, depth);
    if s.items != [] {
      SpineSteps(s.items[0], depth - 1);
    }
    hide *;
  }

  lemma AxesSnoc(lens: seq<nat>, last: nat, lowers: seq<int>)
    ensures Axes(lens + [last], lowers) == Axes(lens, lowers) + [Dimension(LowerAt(lowers, |lens|), last)]
  {
  }

  // --- the getter -----------------------------------------------------------

  datatype Shape = NullArray | TooManyAxes | Shape(dims: seq<Dimension>)

  /** A rectangular nested slice seen through its axes and linear indices. */
  class MultiDimSliceGetter {
    const slice: Value
    const depth: nat
    var dimensions: seq<Dimension>

    constructor (slice: Value, depth: nat)
      requires depth > 0 && Typed(slice, depth)
      ensures this.slice == slice && this.depth == depth && dimensions == []
    {
      this.slice := slice;
      this.depth := depth;
      dimensions := [];
    }

    ghost predicate Valid() {
      depth > 0 && Typed(slice, depth)
    }

    /** One axis per level, unless the column has fewer; a nil slice is SQL NULL. */
    method Dimensions(lowers: seq<int>) returns (shape: Shape)
      requires Valid()
      modifies this
      ensures shape == if slice.isNil then NullArray
                       else if 0 < |lowers| < |Reported(slice, depth)| then TooManyAxes
                       else Shape(Axes(Reported(slice, depth), lowers))
      ensures shape.Shape? ==> dimensions == shape.dims
    {
      if slice.isNil {
        return NullArray;
      }
      dimensions := [];
      if |slice.items| > 0 {
        shape := WalkFirstItems(lowers);
      } else {
        shape := WalkType(lowers);
      }
    }

    /** The axes of a non-empty slice, found by descending into the first items. */
    method WalkFirstItems(lowers: seq<int>) returns (shape: Shape)
      requires Valid() && slice.items != [] && dimensions == []
      modifies this
      ensures shape == if 0 < |lowers| < |Spine(slice, depth)| then TooManyAxes
                       else Shape(Axes(Spine(slice, depth), lowers))
      ensures shape.Shape? ==> dimensions == shape.dims
    {
      var s := slice;
      var level := 0;
      ghost var lens: seq<nat> := [];
      assert depth > 0 && Typed(s, depth);
      hide *;
      while true
        invariant level == |lens| < depth && (|lowers| > 0 ==> level <= |lowers|)
        invariant Typed(s, depth - level) && Spine(slice, depth) == lens + Spine(s, depth - level)
        invariant dimensions == Axes(lens, lowers)
        decreases depth - level
      {
        WalkStep(s, depth - level, lens, Spine(slice, depth));
        AxesSnoc(lens, |s.items|, lowers);
        if |lowers| > 0 && level == |lowers| {
          return TooManyAxes;
        }
        dimensions := dimensions + [Dimension(LowerAt(lowers, level), |s.items|)];
        lens := lens + [|s.items|];
        if |s.items| == 0 {
          break;
        }
        s := s.items[0];
        level := level + 1;
        if !s.Slice? {
          break;
        }
      }
      return Shape(dimensions);
    }

    /** The axes of an empty slice: one of length 0 per slice level of its type. */
    method WalkType(lowers: seq<int>) returns (shape: Shape)
      requires dimensions == []
      modifies this
      ensures var lens := seq(depth, i => 0);
              shape == if 0 < |lowers| < depth then TooManyAxes else Shape(Axes(lens, lowers))
      ensures shape.Shape? ==> dimensions == shape.dims
    {
      var level := 0;
      var levels := depth;
      ghost var lens: seq<nat> := [];
      while levels > 0
        invariant level == |lens| == depth - levels && (|lowers| > 0 ==> level <= |lowers|)
        invariant lens == seq(level, i => 0)
        invariant dimensions == Axes(lens, lowers)
      {
        AxesSnoc(lens, 0, lowers);
        if |lowers| > 0 && level == |lowers| {
          return TooManyAxes;
        }
        dimensions := dimensions + [Dimension(LowerAt(lowers, level), 0)];
        lens := lens + [0];
        levels := levels - 1;
        level := level + 1;
      }
      return Shape(dimensions);
    }

    /** The leaf at a linear index of the reported axes: element i of the flattening. */
    method Index(i: nat, ghost shape: seq<nat>) returns (leaf: Value)
      requires Valid() && |shape| == depth && HasShape(slice, shape) && i < Size(shape)
      requires |dimensions| == depth && forall k | 0 <= k < depth :: dimensions[k].length == shape[k]
      ensures i < |Flatten(slice, depth)| && leaf == Flatten(slice, depth)[i]
    {
      FlattenIsRowMajor(slice, depth, shape, i);
      SizeZero(shape);
      SinglePath(slice, shape, i);
      hide *;
      if |dimensions| <= 1 {
        return slice.items[i];
      }
      var indexes := DigitsOf(i, shape);
      leaf := slice;
      for k := 0 to |indexes|
        invariant At(leaf, indexes[k..]) == Some(Flatten(slice, depth)[i])
      {
        AtStep(leaf, indexes[k..]);
        assert indexes[k..][1..] == indexes[k + 1..];
        leaf := leaf.items[indexes[k]];
      }
      AtEnd(leaf);
    }

    /** The digits of a linear index, filled in from the last axis to the first. */
    method DigitsOf(i: nat, ghost shape: seq<nat>) returns (indexes: seq<nat>)
      requires |dimensions| == |shape| && 0 !in shape
      requires forall k | 0 <= k < |shape| :: dimensions[k].length == shape[k]
      ensures indexes == Digits(i, shape)
    {
      hide *;
      var rest: nat := i;
      var digits := new nat[|dimensions|](_ => 0);
      var j := |dimensions| - 1;
      assert shape[..j + 1] == shape;
      while j >= 0
        invariant -1 <= j < |dimensions|
        invariant digits.Length == |shape|
        invariant Digits(i, shape) == Digits(rest, shape[..j + 1]) + digits[j + 1..]
      {
        var length := dimensions[j].length;
        DigitsSnoc(rest, shape[..j], shape[j]);
        assert shape[..j] + [shape[j]] == shape[..j + 1];
        assert length == shape[j] > 0;
        var digit: nat, left: nat := rest % length, rest / length;
        digits[j] := digit;
        rest := left;
        assert digits[j..] == [digit] + digits[j + 1..];
        j := j - 1;
      }
      DigitsEmpty(rest);
      return digits[..];
    }
  }

  // --- extraction -----------------------------------------------------------

  datatype Extracted = Rejected | NoArray | Elements(elements: seq<Value>, dims: seq<Dimension>)

  /** The count of the reported axes is the number of leaves, or zero when it overflows. */
  lemma ReportedCount(v: Value, depth: nat, shape: seq<nat>, lowers: seq<int>)
    requires depth > 0 && Typed(v, depth) && |shape| == depth && HasShape(v, shape)
    ensures |Flatten(v, depth)| == Size(shape)
    ensures ElementCount(Axes(Reported(v, depth), lowers)) == if Size(shape) <= MAX_INT then Size(shape) else 0
    ensures Size(shape) > 0 ==> Reported(v, depth) == shape
  {
    FlattenIsRowMajor(v, depth, shape, 0);
    ReportedAxes(v, depth, shape);
    SizeZero(shape);
    SizeZero(Reported(v, depth));
    AxesCount(Reported(v, depth), Axes(Reported(v, depth), lowers));
  }

  lemma ReportedAxes(v: Value, depth: nat, shape: seq<nat>)
    requires depth > 0 && Typed(v, depth) && |shape| == depth && HasShape(v, shape)
    ensures Reported(v, depth) != []
    ensures 0 in Reported(v, depth) <==> 0 in shape
    ensures 0 !in shape ==> Reported(v, depth) == shape
  {
    SpineIsPrefix(v, depth, shape);
    if v.items == [] {
      assert shape[0] == 0 && Reported(v, depth)[0] == 0;
    } else {
      var spine := Spine(v, depth);
      assert forall k | 0 <= k < |spine| :: spine[k] == shape[k];
      if 0 !in spine {
        assert spine == shape;
      }
    }
  }

  lemma AxesCount(lens: seq<nat>, dims: seq<Dimension>)
    requires lens != [] && |dims| == |lens| && forall i | 0 <= i < |lens| :: dims[i].length == lens[i]
    ensures ElementCount(dims) == if Size(lens) <= MAX_INT then Size(lens) else 0
  {
    AxesProduct(lens, dims);
    SizeZero(lens);
    if 0 in lens {
      var k :| 0 <= k < |lens| && lens[k] == 0;
      assert dims[k].length == 0;
    } else {
      assert Positive(dims);
    }
  }

  lemma {:induction false} AxesProduct(lens: seq<nat>, dims: seq<Dimension>)
    requires |dims| == |lens| && forall i | 0 <= i < |lens| :: dims[i].length == lens[i]
    ensures Product(dims) == Size(lens)
  {
    if lens != [] {
      AxesProduct(lens[1..], dims[1..]);
    }
  }

  function LowersOf(dims: seq<Dimension>): seq<int> {
    seq(|dims|, i requires 0 <= i < |dims| => dims[i].lowerBound)
  }

  /** Extracts a rectangular nested slice: exactly its row-major flattening, each leaf once.
      It refuses more axes or elements than the column declares, and nil leaves. A shape whose
      element count does not fit an int extracts no element at all. */
  method ElementsFromGetter(getter: MultiDimSliceGetter, declared: seq<Dimension>) returns (r: Extracted)
    requires getter.Valid() && Rectangular(getter.slice, getter.depth)
    modifies getter
    ensures var leaves := Flatten(getter.slice, getter.depth);
            var axes := Reported(getter.slice, getter.depth);
            var taken := if |leaves| <= MAX_INT then leaves else [];
            r == if getter.slice.isNil then NoArray
                 else if 0 < |declared| < |axes| then Rejected
                 else if |declared| > 0 && ElementCount(declared) < |taken| then Rejected
                 else if exists i :: 0 <= i < |taken| && taken[i].isNil then Rejected
                 else Elements(taken, Axes(axes, LowersOf(declared)))
  {
    ghost var shape: seq<nat> :| |shape| == getter.depth && HasShape(getter.slice, shape);
    var lowers := LowersOf(declared);
    ReportedCount(getter.slice, getter.depth, shape, lowers);
    var found := getter.Dimensions(lowers);
    match found {
      case NullArray => return NoArray;
      case TooManyAxes => return Rejected;
      case Shape(dims) =>
        var argCount := AllElementsCount(dims);
        if |declared| > 0 {
          var fieldCount := AllElementsCount(declared);
          if fieldCount < argCount {
            return Rejected;
          }
        }
        var elements := [];
        ghost var leaves := Flatten(getter.slice, getter.depth);
        for i := 0 to argCount
          invariant i <= |leaves| && elements == leaves[..i]
          invariant forall k | 0 <= k < i :: !leaves[k].isNil
          invariant getter.dimensions == dims
        {
          var e := getter.Index(i, shape);
          if e.isNil {
            return Rejected;
          }
          elements := elements + [e];
        }
        return Elements(elements, dims);
    }
  }
}
