/**
 * Facts about products, division and parity of natural numbers that the
 * solver does not find on its own. They are what makes the row-major pixel
 * walk and the 2x2 chroma block numbering of the NV21 encoder line up.
 */
module Arith {

  /** ceil(n / 2): the number of even numbers in [0, n). */
  function HalfUp(n: nat): (c: nat)
    ensures n <= 2 * c <= n + 1
  {
    (n + 1) / 2
  }

  lemma {:induction false} MulMonotone(a: nat, b: nat, c: nat)
    requires a <= b
    ensures a * c <= b * c
  {
    if c > 0 {
      MulMonotone(a, b, c - 1);
      assert a * c == a * (c - 1) + a;
      assert b * c == b * (c - 1) + b;
    }
  }

  lemma MulAddDistrib(a: int, b: int, c: int)
    ensures (a + b) * c == a * c + b * c
  {
  }

  /** Cell (row, col) of a rows x cols grid in row-major order lies inside the grid. */
  lemma RowMajorInBounds(row: nat, col: nat, cols: nat, rows: nat)
    requires row < rows && col < cols
    ensures row * cols + col < cols * rows
  {
    MulMonotone(row + 1, rows, cols);
    assert row * cols + cols == (row + 1) * cols;
  }

  /** An even row of a grid starts at an even row-major index. */
  lemma EvenRowParity(row: nat, cols: nat)
    requires row % 2 == 0
    ensures (cols * row) % 2 == 0
  {
    var half := row / 2;
    assert cols * row == 2 * (cols * half);
  }

  /** Moving to the next row of a grid advances the row-major index by one row. */
  lemma NextRow(row: nat, cols: nat, rows: nat)
    requires row < rows
    ensures cols * (row + 1) == cols * row + cols
    ensures cols * row + cols <= cols * rows
  {
    MulMonotone(row + 1, rows, cols);
  }

  /**
   * After an even row the count of even rows grows by one, after an odd row
   * it stays; so does the count of chroma blocks written, in units of cols.
   */
  lemma NextEvenRow(row: nat, cols: nat, rows: nat)
    requires row < rows
    ensures 2 * (HalfUp(row + 1) * cols) == 2 * (HalfUp(row) * cols) + (if row % 2 == 0 then 2 * cols else 0)
    ensures 2 * (HalfUp(row) * cols) + (if row % 2 == 0 then 2 * cols else 0) <= 2 * (HalfUp(rows) * cols)
  {
    var h := HalfUp(row);
    if row % 2 == 0 {
      assert HalfUp(row + 1) == h + 1;
      assert h + 1 <= HalfUp(rows);
      MulAddDistrib(h, 1, cols);
      MulMonotone(h + 1, HalfUp(rows), cols);
    } else {
      assert HalfUp(row + 1) == h;
      MulMonotone(h, HalfUp(rows), cols);
    }
  }

  /** Moving one column right adds a block exactly when the column is even. */
  lemma HalfUpStep(i: nat)
    ensures i % 2 == 0 ==> HalfUp(i + 1) == HalfUp(i) + 1
    ensures i % 2 == 1 ==> HalfUp(i + 1) == HalfUp(i)
    ensures i % 2 == 0 ==> 2 * HalfUp(i) == i
  {
  }

  lemma HalfUpMonotone(m: nat, n: nat)
    requires m <= n
    ensures HalfUp(m) <= HalfUp(n)
  {
  }

  /** Adding an even offset keeps the parity. */
  lemma ParityShift(a: nat, i: nat)
    requires a % 2 == 0
    ensures (a + i) % 2 == i % 2
  {
  }

  /**
   * The pixel at even index k of the even row j, which starts at
   * rowStart = cols * j, is the top-left pixel of block (bj, bi).
   */
  lemma EvenPixelBlock(j: nat, cols: nat, rowStart: nat, k: nat) returns (bj: nat, bi: nat)
    requires j % 2 == 0 && rowStart == cols * j && rowStart % 2 == 0
    requires rowStart <= k < rowStart + cols && k % 2 == 0
    ensures 2 * bj == j && HalfUp(j) == bj
    ensures 2 * bi == k - rowStart && bi < HalfUp(cols)
    ensures k == 2 * bj * cols + 2 * bi
  {
    ParityShift(rowStart, k - rowStart);
    bj, bi := j / 2, (k - rowStart) / 2;
    assert 2 * bj * cols == cols * j;
  }
}
