/** Row-major addressing of a fixed-shape 2D buffer: the arithmetic behind
    `Field<V>::operator[]` and `Field<V>::ForEach` in include/mats.hpp. */
module Layout {

  /** A cell coordinate: `x` selects the row, `y` the column (both `size_t`). */
  datatype Index2D = Index2D(x: nat, y: nat)

  /** The flat position `x * col + y` that `operator[]` reads and writes. */
  function Pos(col: nat, index: Index2D): nat
  {
    index.x * col + index.y
  }

  /** The coordinate whose flat position is `p`: row `p / col`, column `p % col`. */
  function Unflatten(col: nat, p: nat): (index: Index2D)
    requires col > 0
    ensures index.y < col
  {
    Index2D(p / col, p % col)
  }

  /** The in-range coordinate that an index with a column past the last one
      aliases: the surplus columns carry over into rows. */
  function Normalize(col: nat, index: Index2D): (n: Index2D)
    requires col > 0
    ensures n.y < col && index.x <= n.x
  {
    Index2D(index.x + index.y / col, index.y % col)
  }

  // ----- arithmetic helpers -----

  lemma MulMonotone(a: nat, b: nat, c: nat)
    requires a <= b
    ensures a * c <= b * c
  {
  }

  lemma MulSucc(a: nat, c: nat)
    ensures (a + 1) * c == a * c + c
  {
  }

  /** Division by `col` recovers a row-major coordinate whose column is in range. */
  lemma DivModUnique(col: nat, x: nat, y: nat)
    requires y < col
    ensures (x * col + y) / col == x && (x * col + y) % col == y
  {
    var p := x * col + y;
    var q, r := p / col, p % col;
    assert p == q * col + r;
    if q < x {
      MulMonotone(q + 1, x, col);
      MulSucc(q, col);
      assert false;
    } else if q > x {
      MulMonotone(x + 1, q, col);
      MulSucc(x, col);
      assert false;
    }
  }

  // ----- the row-major mapping is a bijection onto [0, row * col) -----

  /** Every in-range coordinate lands inside the buffer of `row * col` cells. */
  lemma PosInRange(row: nat, col: nat, index: Index2D)
    requires index.x < row && index.y < col
    ensures Pos(col, index) < row * col
  {
    MulSucc(index.x, col);
    MulMonotone(index.x + 1, row, col);
  }

  /** Reading a flat position back as a coordinate undoes `Pos` on in-range columns. */
  lemma UnflattenPos(col: nat, index: Index2D)
    requires index.y < col
    ensures Unflatten(col, Pos(col, index)) == index
  {
    DivModUnique(col, index.x, index.y);
  }

  /** Every flat position below `row * col` is the position of the in-range
      coordinate `Unflatten(col, p)`: the mapping is onto. */
  lemma PosUnflatten(row: nat, col: nat, p: nat)
    requires p < row * col
    ensures col > 0
    ensures Pos(col, Unflatten(col, p)) == p
    ensures Unflatten(col, p).x < row
  {
    var q := p / col;
    if q >= row {
      MulMonotone(row, q, col);
      assert false;
    }
  }

  /** Distinct in-range coordinates have distinct flat positions. */
  lemma PosInjective(col: nat, a: Index2D, b: Index2D)
    requires a.y < col && b.y < col
    requires Pos(col, a) == Pos(col, b)
    ensures a == b
  {
    UnflattenPos(col, a);
    UnflattenPos(col, b);
  }

  // ----- the bounds check looks only at the flat position -----

  /** The check made by `operator[]`: the flat position is inside the buffer.
      The column itself is never compared with `col`. */
  predicate InBounds(row: nat, col: nat, index: Index2D)
  {
    Pos(col, index) < row * col
  }

  /** An index that passes the check denotes a real cell: its row is in range,
      and when its column is not it aliases `Normalize(col, index)`, the cell
      `(x + y / col, y % col)`; an in-range index denotes itself. */
  lemma NormalizeSameCell(row: nat, col: nat, index: Index2D)
    requires InBounds(row, col, index)
    ensures col > 0 && index.x < row
    ensures Normalize(col, index).x < row
    ensures Pos(col, Normalize(col, index)) == Pos(col, index)
    ensures index.y < col ==> Normalize(col, index) == index
  {
    PosUnflatten(row, col, Pos(col, index));
    var n := Normalize(col, index);
    var q, r := index.y / col, index.y % col;
    assert index.y == q * col + r;
    calc {
      Pos(col, n);
      (index.x + q) * col + r;
      { assert (index.x + q) * col == index.x * col + q * col; }
      index.x * col + index.y;
    }
    UnflattenPos(col, n);
    if index.y < col {
      DivModUnique(col, 0, index.y);
    }
  }

  // ----- size_t arithmetic as written -----

  /** `std::size_t` on a 64-bit target wraps modulo 2^64. */
  const SizeModulus: nat := 0x1_0000_0000_0000_0000

  /** The flat position as computed in `size_t`, with wrap-around. */
  function WrappedPos(col: nat, index: Index2D): (p: nat)
    ensures p < SizeModulus
  {
    (index.x * col + index.y) % SizeModulus
  }

  /** The assertion of `operator[]` as written: the wrapped position is below
      the buffer size. */
  predicate InBoundsAsWritten(row: nat, col: nat, index: Index2D)
  {
    WrappedPos(col, index) < (row * col) % SizeModulus
  }

  /** As written, the assertion admits a row far outside the field: on a 1 x 2
      field the index `(2^63, 0)` wraps to position 0, so it passes and names
      cell `(0, 0)`, although it is rejected by the unwrapped check. */
  lemma WrappedCheckAdmitsRowOutOfRange()
    ensures var index := Index2D(0x8000_0000_0000_0000, 0);
      InBoundsAsWritten(1, 2, index) && WrappedPos(2, index) == 0
      && !InBounds(1, 2, index) && index.x >= 1
  {
    var index := Index2D(0x8000_0000_0000_0000, 0);
    assert index.x * 2 + index.y == SizeModulus;
  }

  /** Below 2^64 the wrapped and unwrapped checks agree, so the unwrapped one is
      what the assertion means for every position that does not overflow. */
  lemma WrappedAgreesWithoutOverflow(row: nat, col: nat, index: Index2D)
    requires Pos(col, index) < SizeModulus && row * col < SizeModulus
    ensures InBoundsAsWritten(row, col, index) <==> InBounds(row, col, index)
  {
  }

  // ----- the visiting order of ForEach -----

  /** The coordinates of row `i`, columns `0 .. col - 1`, in order. */
  function RowCells(i: nat, col: nat): seq<Index2D>
  {
    seq(col, j requires 0 <= j < col => Index2D(i, j))
  }

  /** Row-major order over a `row x col` grid: the outer loop over rows, the
      inner loop over columns. */
  function RowMajor(row: nat, col: nat): (order: seq<Index2D>)
    ensures |order| == row * col
  {
    if row == 0 then []
    else
      MulSucc(row - 1, col);
      RowMajor(row - 1, col) + RowCells(row - 1, col)
  }

  /** The `p`-th coordinate visited in row-major order is the one stored at flat
      position `p`. */
  lemma {:induction false} RowMajorAt(row: nat, col: nat, p: nat)
    requires p < row * col
    ensures col > 0 && RowMajor(row, col)[p] == Unflatten(col, p)
  {
    PosUnflatten(row, col, p);
    var prefix := RowMajor(row - 1, col);
    if p < |prefix| {
      RowMajorAt(row - 1, col, p);
    } else {
      var j := p - |prefix|;
      MulSucc(row - 1, col);
      assert RowMajor(row, col)[p] == Index2D(row - 1, j);
      UnflattenPos(col, Index2D(row - 1, j));
    }
  }

  /** Row-major order visits each in-range coordinate exactly once, at the step
      equal to its flat position. */
  lemma RowMajorExactlyOnce(row: nat, col: nat, index: Index2D)
    requires index.x < row && index.y < col
    ensures Pos(col, index) < |RowMajor(row, col)|
    ensures RowMajor(row, col)[Pos(col, index)] == index
    ensures forall p :: 0 <= p < |RowMajor(row, col)| && RowMajor(row, col)[p] == index ==> p == Pos(col, index)
  {
    PosInRange(row, col, index);
    RowMajorAt(row, col, Pos(col, index));
    UnflattenPos(col, index);
    forall p | 0 <= p < |RowMajor(row, col)| && RowMajor(row, col)[p] == index
      ensures p == Pos(col, index)
    {
      RowMajorAt(row, col, p);
      PosUnflatten(row, col, p);
    }
  }
}
