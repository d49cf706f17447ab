/**
 * The index remap of `Mat2DVisualizer.UpdateMatVisualization`: a fresh 4x4
 * `workingData` is filled from the reader's matrix, row by row, with the
 * rows mirrored when `flipRows`, the columns mirrored when `flipCols`, and
 * rows and columns exchanged when `transposeMatrix`.
 */
module MatRemap {
  import opened Grids

  /** The index counted from the other end when `flip` is set, otherwise the index itself. */
  function SourceIndex(i: int, flip: bool): (j: int)
    ensures 0 <= i < Size ==> 0 <= j < Size
  {
    if flip then Size - 1 - i else i
  }

  /** Mirroring an index twice gives it back. */
  lemma SourceIndexInvolution(i: int, flip: bool)
    ensures SourceIndex(SourceIndex(i, flip), flip) == i
  {
  }

  /** The cell of the source matrix that `workingData[row, col]` takes. */
  function SourceCell(row: int, col: int, flipRows: bool, flipCols: bool, transpose: bool): (cell: (int, int))
    ensures 0 <= row < Size && 0 <= col < Size ==> 0 <= cell.0 < Size && 0 <= cell.1 < Size
  {
    var sourceRow := SourceIndex(row, flipRows);
    var sourceCol := SourceIndex(col, flipCols);
    if transpose then (sourceCol, sourceRow) else (sourceRow, sourceCol)
  }

  /** The remapped matrix as a value. */
  function Remapped(g: Grid, flipRows: bool, flipCols: bool, transpose: bool): (h: Grid)
    requires IsGrid(g)
    ensures IsGrid(h)
  {
    seq(Size, row requires 0 <= row < Size =>
      seq(Size, col requires 0 <= col < Size =>
        var cell := SourceCell(row, col, flipRows, flipCols, transpose);
        g[cell.0][cell.1]))
  }

  /**
   * UpdateMatVisualization's copy loop: every cell of the fresh matrix is
   * the source cell SourceCell names; the source matrix is only read.
   */
  method Remap(matData: array2<int>, flipRows: bool, flipCols: bool, transposeMatrix: bool)
      returns (workingData: array2<int>)
    requires Is4x4(matData)
    ensures fresh(workingData) && Is4x4(workingData)
    ensures Snapshot(workingData) == Remapped(Snapshot(matData), flipRows, flipCols, transposeMatrix)
  {
    ghost var source := Snapshot(matData);
    ghost var target := Remapped(source, flipRows, flipCols, transposeMatrix);
    workingData := new int[Size, Size];
    for row := 0 to Size
      invariant forall r, c :: 0 <= r < row && 0 <= c < Size ==> workingData[r, c] == target[r][c]
    {
      for col := 0 to Size
        invariant forall r, c :: 0 <= r < row && 0 <= c < Size ==> workingData[r, c] == target[r][c]
        invariant forall c :: 0 <= c < col ==> workingData[row, c] == target[row][c]
      {
        var sourceRow := if flipRows then 3 - row else row;
        var sourceCol := if flipCols then 3 - col else col;
        RemappedCell(source, flipRows, flipCols, transposeMatrix, row, col);
        if transposeMatrix {
          workingData[row, col] := matData[sourceCol, sourceRow];
        } else {
          workingData[row, col] := matData[sourceRow, sourceCol];
        }
      }
    }
    GridEq(Snapshot(workingData), target);
  }

  /** With every flag off the copy is the matrix itself. */
  lemma RemapIdentity(g: Grid)
    requires IsGrid(g)
    ensures Remapped(g, false, false, false) == g
  {
    GridEq(Remapped(g, false, false, false), g);
  }

  /**
   * The cell formula: a transposing copy reads the source at column index
   * and row index exchanged, any other copy reads it in place; both source
   * indices lie in 0..3.
   */
  lemma RemappedCell(g: Grid, flipRows: bool, flipCols: bool, transpose: bool, row: nat, col: nat)
    requires IsGrid(g) && row < Size && col < Size
    ensures var sourceRow, sourceCol := SourceIndex(row, flipRows), SourceIndex(col, flipCols);
            && 0 <= sourceRow < Size && 0 <= sourceCol < Size
            && Remapped(g, flipRows, flipCols, transpose)[row][col]
               == if transpose then g[sourceCol][sourceRow] else g[sourceRow][sourceCol]
  {
  }

  /** Where source cell (sourceRow, sourceCol) lands: the inverse of SourceCell. */
  function TargetCell(sourceRow: int, sourceCol: int, flipRows: bool, flipCols: bool, transpose: bool): (cell: (int, int))
    ensures 0 <= sourceRow < Size && 0 <= sourceCol < Size ==> 0 <= cell.0 < Size && 0 <= cell.1 < Size
  {
    if transpose then (SourceIndex(sourceCol, flipRows), SourceIndex(sourceRow, flipCols))
    else (SourceIndex(sourceRow, flipRows), SourceIndex(sourceCol, flipCols))
  }

  /**
   * Every source cell is read exactly once: SourceCell and TargetCell undo
   * each other, so SourceCell is a bijection of the 16 cells.
   */
  lemma SourceCellBijective(flipRows: bool, flipCols: bool, transpose: bool, i: int, j: int)
    ensures var s := SourceCell(i, j, flipRows, flipCols, transpose);
            TargetCell(s.0, s.1, flipRows, flipCols, transpose) == (i, j)
    ensures var t := TargetCell(i, j, flipRows, flipCols, transpose);
            SourceCell(t.0, t.1, flipRows, flipCols, transpose) == (i, j)
  {
  }

  /**
   * Remapping with the transposed flag set, and with the two flips exchanged
   * when transposing, takes the copy back to the original.
   */
  lemma RemapInverse(g: Grid, flipRows: bool, flipCols: bool, transpose: bool)
    requires IsGrid(g)
    ensures var back := if transpose then Remapped(Remapped(g, flipRows, flipCols, true), flipCols, flipRows, true)
                        else Remapped(Remapped(g, flipRows, flipCols, false), flipRows, flipCols, false);
            back == g
  {
    var h := Remapped(g, flipRows, flipCols, transpose);
    var back := if transpose then Remapped(h, flipCols, flipRows, true) else Remapped(h, flipRows, flipCols, false);
    forall r, c | 0 <= r < Size && 0 <= c < Size ensures back[r][c] == g[r][c] {
      RemapCellBack(g, flipRows, flipCols, transpose, r, c);
    }
    GridEq(back, g);
  }

  lemma RemapCellBack(g: Grid, flipRows: bool, flipCols: bool, transpose: bool, r: nat, c: nat)
    requires IsGrid(g) && r < Size && c < Size
    ensures var h := Remapped(g, flipRows, flipCols, transpose);
            var back := if transpose then Remapped(h, flipCols, flipRows, true) else Remapped(h, flipRows, flipCols, false);
            back[r][c] == g[r][c]
  {
    var h := Remapped(g, flipRows, flipCols, transpose);
    if transpose {
      RemappedCell(h, flipCols, flipRows, true, r, c);
      RemappedCell(g, flipRows, flipCols, true, SourceIndex(c, flipRows), SourceIndex(r, flipCols));
    } else {
      RemappedCell(h, flipRows, flipCols, false, r, c);
      RemappedCell(g, flipRows, flipCols, false, SourceIndex(r, flipRows), SourceIndex(c, flipCols));
    }
  }

  // ---------------------------------------------------------------------
  // The multiset of the 16 values

  /** All values of a grid, each as often as it occurs. */
  function Cells(g: Grid): multiset<int>
    requires IsGrid(g)
  {
    multiset(g[0]) + multiset(g[1]) + multiset(g[2]) + multiset(g[3])
  }

  /** A row of four holds the values of its four cells. */
  lemma RowCells(x: seq<int>)
    requires |x| == Size
    ensures multiset(x) == multiset([x[0]]) + multiset([x[1]]) + multiset([x[2]]) + multiset([x[3]])
  {
    assert x == [x[0]] + [x[1]] + [x[2]] + [x[3]];
  }

  /** Row `r` of the copy holds the values of source row SourceIndex(r, flipRows). */
  lemma FlippedRow(g: Grid, flipRows: bool, flipCols: bool, r: nat)
    requires IsGrid(g) && r < Size
    ensures multiset(Remapped(g, flipRows, flipCols, false)[r]) == multiset(g[SourceIndex(r, flipRows)])
  {
    var h := Remapped(g, flipRows, flipCols, false);
    var x := g[SourceIndex(r, flipRows)];
    RowCells(h[r]);
    RowCells(x);
    if flipCols {
      assert h[r][0] == x[3] && h[r][1] == x[2] && h[r][2] == x[1] && h[r][3] == x[0];
    } else {
      assert h[r][0] == x[0] && h[r][1] == x[1] && h[r][2] == x[2] && h[r][3] == x[3];
    }
  }

  /** The values of column `j`. */
  function Column(g: Grid, j: nat): multiset<int>
    requires IsGrid(g) && j < Size
  {
    multiset([g[0][j]]) + multiset([g[1][j]]) + multiset([g[2][j]]) + multiset([g[3][j]])
  }

  /** The sixteen cells of rows `a`, `b`, `c`, `d`, summed row by row or column by column, give the same. */
  lemma Regroup(a: seq<int>, b: seq<int>, c: seq<int>, d: seq<int>)
    requires |a| == Size && |b| == Size && |c| == Size && |d| == Size
    ensures (multiset([a[0]]) + multiset([a[1]]) + multiset([a[2]]) + multiset([a[3]]))
          + (multiset([b[0]]) + multiset([b[1]]) + multiset([b[2]]) + multiset([b[3]]))
          + (multiset([c[0]]) + multiset([c[1]]) + multiset([c[2]]) + multiset([c[3]]))
          + (multiset([d[0]]) + multiset([d[1]]) + multiset([d[2]]) + multiset([d[3]]))
         == (multiset([a[0]]) + multiset([b[0]]) + multiset([c[0]]) + multiset([d[0]]))
          + (multiset([a[1]]) + multiset([b[1]]) + multiset([c[1]]) + multiset([d[1]]))
          + (multiset([a[2]]) + multiset([b[2]]) + multiset([c[2]]) + multiset([d[2]]))
          + (multiset([a[3]]) + multiset([b[3]]) + multiset([c[3]]) + multiset([d[3]]))
  {
  }

  /** The values of a grid, column by column. */
  lemma CellsByColumns(g: Grid)
    requires IsGrid(g)
    ensures Cells(g) == Column(g, 0) + Column(g, 1) + Column(g, 2) + Column(g, 3)
  {
    RowCells(g[0]);
    RowCells(g[1]);
    RowCells(g[2]);
    RowCells(g[3]);
    Regroup(g[0], g[1], g[2], g[3]);
  }

  /** Transposing with both flips is flipping the transposed grid. */
  lemma TransposeThenFlip(g: Grid, flipRows: bool, flipCols: bool)
    requires IsGrid(g)
    ensures Remapped(g, flipRows, flipCols, true) == Remapped(Remapped(g, false, false, true), flipRows, flipCols, false)
  {
    var t := Remapped(g, false, false, true);
    forall r, c | 0 <= r < Size && 0 <= c < Size
      ensures Remapped(g, flipRows, flipCols, true)[r][c] == Remapped(t, flipRows, flipCols, false)[r][c]
    {
      RemappedCell(g, flipRows, flipCols, true, r, c);
      RemappedCell(t, flipRows, flipCols, false, r, c);
      RemappedCell(g, false, false, true, SourceIndex(r, flipRows), SourceIndex(c, flipCols));
    }
    GridEq(Remapped(g, flipRows, flipCols, true), Remapped(t, flipRows, flipCols, false));
  }

  /** Row `r` of the transposed grid holds the values of column `r`. */
  lemma TransposedRow(g: Grid, r: nat)
    requires IsGrid(g) && r < Size
    ensures multiset(Remapped(g, false, false, true)[r]) == Column(g, r)
  {
    var h := Remapped(g, false, false, true);
    RowCells(h[r]);
    assert h[r][0] == g[0][r] && h[r][1] == g[1][r] && h[r][2] == g[2][r] && h[r][3] == g[3][r];
  }

  /** Without transposing, the copy holds the source rows, each perhaps mirrored, perhaps in reverse order. */
  lemma FlipPermutes(g: Grid, flipRows: bool, flipCols: bool)
    requires IsGrid(g)
    ensures Cells(Remapped(g, flipRows, flipCols, false)) == Cells(g)
  {
    FlippedRow(g, flipRows, flipCols, 0);
    FlippedRow(g, flipRows, flipCols, 1);
    FlippedRow(g, flipRows, flipCols, 2);
    FlippedRow(g, flipRows, flipCols, 3);
  }

  /** The transposed grid's rows are the source columns: the same 16 cells grouped the other way. */
  lemma TransposePermutes(g: Grid)
    requires IsGrid(g)
    ensures Cells(Remapped(g, false, false, true)) == Cells(g)
  {
    TransposedRow(g, 0);
    TransposedRow(g, 1);
    TransposedRow(g, 2);
    TransposedRow(g, 3);
    CellsByColumns(g);
  }

  /** The remap is a permutation of the 16 cells: the multiset of values is kept. */
  lemma RemapPermutes(g: Grid, flipRows: bool, flipCols: bool, transpose: bool)
    requires IsGrid(g)
    ensures Cells(Remapped(g, flipRows, flipCols, transpose)) == Cells(g)
  {
    if transpose {
      TransposeThenFlip(g, flipRows, flipCols);
      FlipPermutes(Remapped(g, false, false, true), flipRows, flipCols);
      TransposePermutes(g);
    } else {
      FlipPermutes(g, flipRows, flipCols);
    }
  }
}
