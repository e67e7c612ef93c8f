/** Where the elements of an array argument land in a column. The driver sends the row-major
    flattening of the argument, without its axes, and pads it at the end, so element i is stored
    in slot i of the column: at the coordinates that are the digits of i in the column's shape,
    not in the argument's. */
module ArrayPlacement {
  import opened Bytes
  import opened ModularPower
  import opened ArrayNested

  /** The argument reaches the column's coordinates: leading axes of one element are passed
      over, the first longer axis is within the column's, and all axes behind it are as long as
      the column's. */
  predicate Aligned(shape: seq<nat>, column: seq<nat>) {
    |shape| == |column|
    && (shape == []
        || (if shape[0] == 1 then Aligned(shape[1..], column[1..])
            else shape[0] <= column[0] && shape[1..] == column[1..]))
  }

  /** Every linear index of the argument has the same coordinates in both shapes. */
  ghost predicate SameDigits(shape: seq<nat>, column: seq<nat>) {
    forall i: nat | i < Size(shape) :: Digits(i, shape) == Digits(i, column)
  }

  /** Every leaf is stored at its own coordinates: the one in slot i is the one the argument has
      at that slot's coordinates. */
  ghost predicate InPlace(v: Value, depth: nat, column: seq<nat>)
    requires Typed(v, depth)
  {
    forall i | 0 <= i < |Flatten(v, depth)| :: At(v, Digits(i, column)) == Some(Flatten(v, depth)[i])
  }

  // --- digits in two shapes -----------------------------------------------

  lemma Cons(shape: seq<nat>)
    requires shape != [] && 0 !in shape
    ensures shape == [shape[0]] + shape[1..] && shape[0] > 0 && 0 !in shape[1..]
    ensures Size(shape[1..]) > 0 && Size(shape) == shape[0] * Size(shape[1..])
  {
    SizeZero(shape[1..]);
  }

  /** The first digit of an index within a shape, and the digits of the rest. */
  lemma DigitsCons(i: nat, shape: seq<nat>)
    requires shape != [] && 0 !in shape && i < Size(shape)
    ensures Size(shape[1..]) > 0
    ensures Digits(i, shape) == [i / Size(shape[1..])] + Digits(i % Size(shape[1..]), shape[1..])
  {
    Cons(shape);
    hide *;
    FirstDigit(i, shape[0], shape[1..]);
  }

  lemma SmallQuotient(i: nat, n: nat)
    requires n > 0
    ensures i / n == 0 <==> i < n
    ensures i < n ==> i % n == i
    ensures i == n ==> i / n == 1
  {
    if i < n {
      SmallRemainder(i, n);
    } else {
      assert i == n * (i / n) + i % n;
      RemainderIs(n, n, 1, 0);
    }
  }

  lemma MoreRows(a: nat, b: nat, n: nat)
    requires n > 0
    ensures a <= b <==> a * n <= b * n
    ensures a >= 1 ==> a * n >= n
    ensures a >= 2 ==> a * n > n
  {
    if a <= b {
      MulMonotone(n, a, b);
    } else {
      MulMonotone(n, b + 1, a);
      assert (b + 1) * n == b * n + n;
    }
    if a >= 2 {
      MulMonotone(n, 2, a);
    }
  }

  /** An argument that reaches the column's coordinates has no more elements than the column. */
  lemma {:induction false} AlignedFits(shape: seq<nat>, column: seq<nat>)
    requires 0 !in shape && 0 !in column && Aligned(shape, column)
    ensures Size(shape) <= Size(column)
  {
    if shape != [] {
      Cons(shape);
      Cons(column);
      MoreRows(shape[0], column[0], Size(column[1..]));
      if shape[0] == 1 {
        AlignedFits(shape[1..], column[1..]);
        MoreRows(column[0], 1, Size(column[1..]));
      }
    }
  }

  /** Then it has the same digits in both shapes. */
  lemma {:induction false} AlignedDigits(shape: seq<nat>, column: seq<nat>, i: nat)
    requires 0 !in shape && 0 !in column && Aligned(shape, column) && i < Size(shape)
    ensures Digits(i, shape) == Digits(i, column)
    decreases |shape|
  {
    AlignedFits(shape, column);
    if shape != [] {
      DigitsCons(i, shape);
      DigitsCons(i, column);
      Cons(shape);
      Cons(column);
      if shape[0] == 1 {
        AlignedFits(shape[1..], column[1..]);
        SmallQuotient(i, Size(shape[1..]));
        SmallQuotient(i, Size(column[1..]));
        AlignedDigits(shape[1..], column[1..], i);
      }
    }
  }

  /** Row and rest of an index with the same digits in both shapes. */
  lemma SameRow(shape: seq<nat>, column: seq<nat>, i: nat)
    requires |shape| == |column| && shape != [] && 0 !in shape && 0 !in column
    requires i < Size(shape) <= Size(column) && Digits(i, shape) == Digits(i, column)
    ensures Size(shape[1..]) > 0 && Size(column[1..]) > 0
    ensures i / Size(shape[1..]) == i / Size(column[1..])
    ensures Digits(i % Size(shape[1..]), shape[1..]) == Digits(i % Size(column[1..]), column[1..])
  {
    hide *;
    DigitsCons(i, shape);
    DigitsCons(i, column);
    var tail, columnTail := Digits(i % Size(shape[1..]), shape[1..]), Digits(i % Size(column[1..]), column[1..]);
    var path := Digits(i, shape);
    assert path[0] == i / Size(shape[1..]) && path[1..] == tail;
    assert path[0] == i / Size(column[1..]) && path[1..] == columnTail;
  }

  lemma DigitsAt(shape: seq<nat>, column: seq<nat>, i: nat)
    requires SameDigits(shape, column) && i < Size(shape)
    ensures Digits(i, shape) == Digits(i, column)
  {
    hide Digits, Size;
  }

  /** Both shapes are non-empty, the argument has no more elements than the column, and the same
      digits everywhere. */
  ghost predicate Agreeing(shape: seq<nat>, column: seq<nat>) {
    && |shape| == |column| && shape != [] && 0 !in shape && 0 !in column
    && Size(shape) <= Size(column) && SameDigits(shape, column)
  }

  lemma AgreeingAt(shape: seq<nat>, column: seq<nat>, i: nat)
    requires Agreeing(shape, column) && i < Size(shape)
    ensures Size(shape[1..]) > 0 && Size(column[1..]) > 0
    ensures i / Size(shape[1..]) == i / Size(column[1..])
    ensures Digits(i % Size(shape[1..]), shape[1..]) == Digits(i % Size(column[1..]), column[1..])
  {
    hide Digits, Size;
    DigitsAt(shape, column, i);
    SameRow(shape, column, i);
  }

  lemma RowFits(shape: seq<nat>)
    requires shape != [] && 0 !in shape
    ensures 0 < Size(shape[1..]) <= Size(shape)
    ensures shape[0] > 1 ==> Size(shape[1..]) < Size(shape)
  {
    Cons(shape);
    MoreRows(shape[0], 1, Size(shape[1..]));
  }

  /** The last element of row 0 tells that a row of the argument is no longer than the column's. */
  lemma RowAtMost(shape: seq<nat>, column: seq<nat>)
    requires Agreeing(shape, column)
    ensures Size(shape[1..]) <= Size(column[1..])
  {
    assert shape != [] && 0 !in shape;
    hide *;
    RowFits(shape);
    var row := Size(shape[1..]);
    AgreeingAt(shape, column, row - 1);
    SmallQuotient(row - 1, row);
    SmallQuotient(row - 1, Size(column[1..]));
  }

  /** The first element of row 1, if there is one, tells that it is as long. */
  lemma RowAtLeast(shape: seq<nat>, column: seq<nat>)
    requires Agreeing(shape, column) && shape[0] > 1
    ensures Size(shape[1..]) >= Size(column[1..])
  {
    assert shape != [] && 0 !in shape;
    hide *;
    RowFits(shape);
    var row := Size(shape[1..]);
    AgreeingAt(shape, column, row);
    SmallQuotient(row, row);
    SmallQuotient(row, Size(column[1..]));
  }

  lemma TailAgrees(shape: seq<nat>, column: seq<nat>, i: nat)
    requires Agreeing(shape, column) && i < Size(shape[1..])
    ensures Digits(i, shape[1..]) == Digits(i, column[1..])
  {
    assert shape != [] && 0 !in shape;
    hide *;
    RowFits(shape);
    RowAtMost(shape, column);
    AgreeingAt(shape, column, i);
    SmallQuotient(i, Size(shape[1..]));
    SmallQuotient(i, Size(column[1..]));
  }

  /** What the rows and the axes behind them have in common then. */
  lemma RowsAgree(shape: seq<nat>, column: seq<nat>)
    requires Agreeing(shape, column)
    ensures Size(shape[1..]) <= Size(column[1..])
    ensures shape[0] > 1 ==> Size(shape[1..]) == Size(column[1..]) && shape[0] <= column[0]
    ensures SameDigits(shape[1..], column[1..])
  {
    forall i: nat | i < Size(shape[1..])
      ensures Digits(i, shape[1..]) == Digits(i, column[1..])
    {
      TailAgrees(shape, column, i);
    }
    Cons(shape);
    Cons(column);
    hide Size, Digits, SameDigits;
    RowAtMost(shape, column);
    if shape[0] > 1 {
      RowAtLeast(shape, column);
      MoreRows(shape[0], column[0], Size(shape[1..]));
    }
  }

  /** Shapes of one size with the same digits everywhere are one shape. */
  lemma {:induction false} OneShape(shape: seq<nat>, column: seq<nat>)
    requires |shape| == |column| && 0 !in shape && 0 !in column
    requires Size(shape) == Size(column) && SameDigits(shape, column)
    ensures shape == column
  {
    if shape != [] {
      Cons(shape);
      Cons(column);
      RowsAgree(shape, column);
      forall i: nat | i < Size(column)
        ensures Digits(i, column) == Digits(i, shape)
      {
        assert Digits(i, shape) == Digits(i, column);
      }
      RowsAgree(column, shape);
      MoreRows(shape[0], column[0], Size(shape[1..]));
      MoreRows(column[0], shape[0], Size(shape[1..]));
      OneShape(shape[1..], column[1..]);
    }
  }

  /** The linear indices of an argument that has no more elements than the column keep their
      coordinates exactly when it reaches the column's. */
  lemma {:induction false} SameDigitsExact(shape: seq<nat>, column: seq<nat>)
    requires 0 !in shape && 0 !in column && Size(shape) <= Size(column)
    ensures SameDigits(shape, column) <==> Aligned(shape, column)
  {
    if Aligned(shape, column) {
      forall i: nat | i < Size(shape)
        ensures Digits(i, shape) == Digits(i, column)
      {
        AlignedDigits(shape, column, i);
      }
    }
    if SameDigits(shape, column) {
      SizeZero(shape);
      assert Digits(0, shape) == Digits(0, column);
      if shape != [] {
        RowsAgree(shape, column);
        Cons(shape);
        Cons(column);
        hide Digits, SameDigits, Size;
        if shape[0] == 1 {
          SameDigitsExact(shape[1..], column[1..]);
        } else {
          OneShape(shape[1..], column[1..]);
        }
      }
    }
  }

  // --- leaves ---------------------------------------------------------------

  /** Coordinates that lead to a leaf are the digits of its linear index. */
  lemma {:induction false} LeafIndex(v: Value, depth: nat, shape: seq<nat>, path: seq<nat>) returns (j: nat)
    requires Typed(v, depth) && |shape| == depth && HasShape(v, shape) && 0 !in shape
    requires At(v, path).Some? && At(v, path).value.Leaf?
    ensures j < Size(shape) && Digits(j, shape) == path
    decreases depth
  {
    if depth == 0 {
      j := 0;
      assert path == [] && shape == [];
    } else {
      assert path != [];
      var k := path[0];
      var r := LeafIndex(v.items[k], depth - 1, shape[1..], path[1..]);
      j := Offset(k, Size(shape[1..]), r);
      Cons(shape);
      hide *;
      InRow(k, r, shape[0], Size(shape[1..]));
      DigitsCons(j, shape);
      assert [k] + path[1..] == path;
    }
  }

  lemma InRow(k: nat, r: nat, rows: nat, row: nat)
    requires k < rows && r < row
    ensures Offset(k, row, r) < rows * row && Offset(k, row, r) / row == k && Offset(k, row, r) % row == r
  {
    var j := k * row + r;
    MulMonotone(row, k + 1, rows);
    assert (k + 1) * row == k * row + row;
    RemainderIs(j, row, k, r);
  }

  ghost predicate AllDifferent(leaves: seq<Value>) {
    forall i, j | 0 <= i < j < |leaves| :: leaves[i] != leaves[j]
  }

  lemma Different(leaves: seq<Value>, i: nat, j: nat)
    requires AllDifferent(leaves) && i < |leaves| && j < |leaves| && i != j
    ensures leaves[i] != leaves[j]
  {
    if i > j {
      Different(leaves, j, i);
    }
  }

  lemma {:induction false} LeavesAreLeaves(v: Value, depth: nat, shape: seq<nat>, i: nat)
    requires Typed(v, depth) && |shape| == depth && HasShape(v, shape) && 0 !in shape && i < Size(shape)
    ensures i < |Flatten(v, depth)| && Flatten(v, depth)[i].Leaf?
  {
    FlattenIsRowMajor(v, depth, shape, i);
    TypedAt(v, depth, Digits(i, shape));
  }

  lemma {:induction false} TypedAt(v: Value, depth: nat, path: seq<nat>)
    requires Typed(v, depth) && |path| <= depth && At(v, path).Some?
    ensures Typed(At(v, path).value, depth - |path|)
    decreases depth
  {
    if path != [] {
      TypedAt(v.items[path[0]], depth - 1, path[1..]);
    }
  }

  /** A non-empty rectangular argument that has no more elements than the column: it is stored in
      place when it reaches the column's coordinates, and when it does not, no argument of its
      shape whose leaves are all different is. */
  lemma PlacementExact(v: Value, depth: nat, shape: seq<nat>, column: seq<nat>)
    requires Typed(v, depth) && |shape| == depth && HasShape(v, shape)
    requires 0 !in shape && 0 !in column && Size(shape) <= Size(column)
    ensures Aligned(shape, column) ==> InPlace(v, depth, column)
    ensures AllDifferent(Flatten(v, depth)) ==> (InPlace(v, depth, column) <==> Aligned(shape, column))
  {
    SameDigitsExact(shape, column);
    FlattenIsRowMajor(v, depth, shape, 0);
    if SameDigits(shape, column) {
      forall i | 0 <= i < |Flatten(v, depth)|
        ensures At(v, Digits(i, column)) == Some(Flatten(v, depth)[i])
      {
        FlattenIsRowMajor(v, depth, shape, i);
      }
    } else if AllDifferent(Flatten(v, depth)) && InPlace(v, depth, column) {
      var i: nat :| i < Size(shape) && Digits(i, shape) != Digits(i, column);
      Elsewhere(v, depth, shape, column, i);
      assert false;
    }
  }

  /** A leaf whose coordinates differ in the two shapes is stored in another leaf's place, or
      outside of the argument. */
  lemma Elsewhere(v: Value, depth: nat, shape: seq<nat>, column: seq<nat>, i: nat)
    requires Typed(v, depth) && |shape| == depth && HasShape(v, shape) && 0 !in shape
    requires i < Size(shape) && Digits(i, shape) != Digits(i, column) && AllDifferent(Flatten(v, depth))
    ensures i < |Flatten(v, depth)| && At(v, Digits(i, column)) != Some(Flatten(v, depth)[i])
  {
    var leaves := Flatten(v, depth);
    LeavesAreLeaves(v, depth, shape, i);
    if At(v, Digits(i, column)) == Some(leaves[i]) {
      var j := LeafIndex(v, depth, shape, Digits(i, column));
      FlattenIsRowMajor(v, depth, shape, j);
      Different(leaves, i, j);
      assert false;
    }
  }

  /** Two rows of two in a column of two rows of three: the first element of the second row is
      stored as the last one of the first row. */
  lemma ShortRowsShift()
    ensures !Aligned([2, 2], [2, 3])
    ensures Digits(2, [2, 2]) == [1, 0] && Digits(2, [2, 3]) == [0, 2]
  {
    assert [2, 2] == [2] + [2] && [2, 3] == [2] + [3] && [2] == [] + [2];
    DigitsSnoc(2, [2], 2);
    DigitsSnoc(2, [2], 3);
    DigitsSnoc(1, [], 2);
    DigitsSnoc(0, [], 2);
    DigitsEmpty(0);
    assert [2, 2][1..] == [2] && [2, 3][1..] == [3];
  }
}
