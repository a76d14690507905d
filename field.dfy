/** The generic grid container `Field<V>` of include/mats.hpp: a fixed-shape,
    row-major buffer of `row * col` cells, updated in place. */
module Mats {
  import opened Layout

  // ----- the grid as a matrix, and per-cell updates -----

  /** The flat buffer `s` read as `row` rows of `col` cells. */
  function Rows<V>(s: seq<V>, row: nat, col: nat): (g: seq<seq<V>>)
    requires |s| == row * col
    ensures |g| == row
    ensures forall i :: 0 <= i < row ==> |g[i]| == col
  {
    seq(row, i requires 0 <= i < row =>
      seq(col, j requires 0 <= j < col =>
        PosInRange(row, col, Index2D(i, j));
        s[Pos(col, Index2D(i, j))]))
  }

  /** A `row x col` matrix whose every cell is `v`. */
  function Filled<V>(row: nat, col: nat, v: V): (g: seq<seq<V>>)
    ensures |g| == row
    ensures forall i :: 0 <= i < row ==> |g[i]| == col
  {
    seq(row, _ => seq(col, _ => v))
  }

  /** The reference meaning of a per-cell update: cell `(i, j)` becomes
      `f(old cell, i, j)`, and the shape is kept. */
  function MapGrid<V>(g: seq<seq<V>>, f: (V, int, int) -> V): (h: seq<seq<V>>)
    ensures |h| == |g|
    ensures forall i :: 0 <= i < |g| ==> |h[i]| == |g[i]|
  {
    seq(|g|, i requires 0 <= i < |g| =>
      seq(|g[i]|, j requires 0 <= j < |g[i]| => f(g[i][j], i, j)))
  }

  /** The flat buffer after the walk of `ForEach`: position `p` is handed to `f`
      with the coordinate it stands for. */
  function Transformed<V>(s: seq<V>, col: nat, f: (V, int, int) -> V): (t: seq<V>)
    requires col > 0 || |s| == 0
  {
    seq(|s|, p requires 0 <= p < |s| => f(s[p], p / col, p % col))
  }

  /** The cell that `Transformed` hands to `f` with coordinate `(i, j)` is the
      cell at flat position `i * col + j`, the one `operator[]({i, j})` names. */
  lemma TransformedAt<V>(s: seq<V>, row: nat, col: nat, f: (V, int, int) -> V, index: Index2D)
    requires |s| == row * col
    requires index.x < row && index.y < col
    ensures |Transformed(s, col, f)| == |s|
    ensures Pos(col, index) < |s|
    ensures Transformed(s, col, f)[Pos(col, index)] == f(s[Pos(col, index)], index.x, index.y)
  {
    PosInRange(row, col, index);
    UnflattenPos(col, index);
  }

  /** The flat walk and the matrix-level update agree cell for cell. */
  lemma RowsTransformed<V>(s: seq<V>, row: nat, col: nat, f: (V, int, int) -> V)
    requires |s| == row * col
    ensures (col > 0 || |s| == 0) && |Transformed(s, col, f)| == |s|
    ensures Rows(Transformed(s, col, f), row, col) == MapGrid(Rows(s, row, col), f)
  {
    var t := Transformed(s, col, f);
    var lhs, rhs := Rows(t, row, col), MapGrid(Rows(s, row, col), f);
    forall i | 0 <= i < row
      ensures lhs[i] == rhs[i]
    {
      forall j | 0 <= j < col
        ensures lhs[i][j] == rhs[i][j]
      {
        TransformedAt(s, row, col, f, Index2D(i, j));
      }
    }
  }

  /** Writing one flat position changes exactly one cell of the matrix. */
  lemma RowsUpdate<V>(s: seq<V>, row: nat, col: nat, index: Index2D, v: V)
    requires |s| == row * col
    requires index.x < row && index.y < col
    ensures Pos(col, index) < |s|
    ensures Rows(s[Pos(col, index) := v], row, col)
         == Rows(s, row, col)[index.x := Rows(s, row, col)[index.x][index.y := v]]
  {
    PosInRange(row, col, index);
    var t := s[Pos(col, index) := v];
    var g := Rows(s, row, col);
    var lhs, rhs := Rows(t, row, col), g[index.x := g[index.x][index.y := v]];
    forall i | 0 <= i < row
      ensures lhs[i] == rhs[i]
    {
      forall j | 0 <= j < col
        ensures lhs[i][j] == rhs[i][j]
      {
        if Index2D(i, j) != index {
          PosInRange(row, col, Index2D(i, j));
          if Pos(col, Index2D(i, j)) == Pos(col, index) {
            PosInjective(col, Index2D(i, j), index);
          }
        }
      }
    }
  }

  // ----- the container -----

  /** `Field<V>`: `row` and `col` are fixed at construction and the buffer
      `data` is never replaced or resized; only its cells change. */
  class Field<V> {
    const row: nat
    const col: nat
    const data: array<V>

    /** The buffer holds exactly one cell per coordinate. */
    ghost predicate Valid()
      reads this
    {
      data.Length == row * col
    }

    /** The cells in storage order. */
    ghost function Cells(): seq<V>
      reads this, data
    {
      data[..]
    }

    /** The cells as a `row x col` matrix. */
    ghost function Grid(): (g: seq<seq<V>>)
      reads this, data
      requires Valid()
    {
      Rows(data[..], row, col)
    }

    /** Allocates `row * col` cells, each holding `zero`, the value-initialised
        `V{}` of the cell type. */
    constructor (row: nat, col: nat, zero: V)
      ensures Valid() && fresh(data)
      ensures this.row == row && this.col == col
      ensures |Cells()| == row * col
      ensures forall p :: 0 <= p < data.Length ==> data[p] == zero
      ensures Grid() == Filled(row, col, zero)
    {
      this.row := row;
      this.col := col;
      data := new V[row * col](_ => zero);
      new;
      assert forall p :: 0 <= p < data.Length ==> data[p] == zero;
      ghost var g, h := Rows(data[..], row, col), Filled(row, col, zero);
      forall i | 0 <= i < row
        ensures g[i] == h[i]
      {
        forall j | 0 <= j < col
          ensures g[i][j] == h[i][j]
        {
          PosInRange(row, col, Index2D(i, j));
        }
      }
    }

    /** Reads through `operator[]`: the cell at flat position `x * col + y`.
        Only that position is checked, so a column past the last one reads the
        cell it aliases in a later row. */
    method Get(index: Index2D) returns (v: V)
      requires Valid() && InBounds(row, col, index)
      ensures col > 0 && Normalize(col, index).x < row
      ensures v == Grid()[Normalize(col, index).x][Normalize(col, index).y]
      ensures index.y < col ==> v == Grid()[index.x][index.y]
    {
      NormalizeSameCell(row, col, index);
      v := data[Pos(col, index)];
    }

    /** Writes through the reference returned by `operator[]`: exactly the cell
        denoted by `index` changes, every other cell keeps its value. */
    method Set(index: Index2D, v: V)
      requires Valid() && InBounds(row, col, index)
      modifies data
      ensures Cells() == old(Cells())[Pos(col, index) := v]
      ensures col > 0
      ensures var n := Normalize(col, index);
        n.x < row && Grid() == old(Grid())[n.x := old(Grid())[n.x][n.y := v]]
    {
      NormalizeSameCell(row, col, index);
      var n := Normalize(col, index);
      data[Pos(col, index)] := v;
      RowsUpdate(old(data[..]), row, col, n, v);
    }

    /** Walks the buffer row by row with a running position, handing each cell
        and its coordinate to `f` once. `visited` records the coordinates in the
        order `f` sees them. */
    method ForEach(f: (V, int, int) -> V) returns (ghost visited: seq<Index2D>)
      requires Valid()
      modifies data
      ensures col > 0 || |old(Cells())| == 0
      ensures Cells() == Transformed(old(Cells()), col, f)
      ensures Grid() == MapGrid(old(Grid()), f)
      ensures visited == RowMajor(row, col)
    {
      ghost var before := data[..];
      ghost var after := Transformed(before, col, f);
      visited := [];
      var i := 0;
      while i < row
        invariant 0 <= i <= row
        invariant i * col <= data.Length
        invariant data[..i * col] == after[..i * col]
        invariant data[i * col..] == before[i * col..]
        invariant visited == RowMajor(i, col)
      {
        MulSucc(i, col);
        MulMonotone(i + 1, row, col);
        var j, pos := 0, i * col;
        while j < col
          invariant 0 <= j <= col && pos == i * col + j
          invariant data[..pos] == after[..pos]
          invariant data[pos..] == before[pos..]
          invariant visited == RowMajor(i, col) + RowCells(i, col)[..j]
        {
          UnflattenPos(col, Index2D(i, j));
          data[pos] := f(data[pos], i, j);
          assert data[..pos + 1] == data[..pos] + [after[pos]];
          visited := visited + [Index2D(i, j)];
          j, pos := j + 1, pos + 1;
        }
        assert RowCells(i, col)[..col] == RowCells(i, col);
        i := i + 1;
      }
      RowsTransformed(before, row, col, f);
    }
  }
}
