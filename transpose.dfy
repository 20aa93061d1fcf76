/**
 * Matrix transpose B = A^T from the cache lab: the baseline row-wise
 * transpose, the three hand-blocked variants of the submitted transpose,
 * and the checker that compares the two matrices.
 *
 * A is N rows by M columns, B is M rows by N columns. The blocking only
 * changes the order of memory accesses; what is proved here is that every
 * variant leaves B equal to the transpose of A and never writes A.
 */
module Transpose {

  /** The two matrices have transposed shapes. */
  predicate Shapes(A: array2<int>, B: array2<int>)
  {
    A.Length0 == B.Length1 && A.Length1 == B.Length0
  }

  /** B holds the transpose of A everywhere. */
  ghost predicate Transposed(A: array2<int>, B: array2<int>)
    reads A, B
    requires Shapes(A, B)
  {
    forall r, c :: 0 <= r < A.Length0 && 0 <= c < A.Length1 ==> B[c, r] == A[r, c]
  }

  /**
   * B holds the transpose of A on the A-cells of rows [r0, r1) and columns
   * [c0, c1), clipped to the matrix.
   */
  ghost predicate DoneRect(A: array2<int>, B: array2<int>, r0: int, r1: int, c0: int, c1: int)
    reads A, B
    requires Shapes(A, B)
  {
    forall r, c :: r0 <= r < r1 && c0 <= c < c1 && 0 <= r < A.Length0 && 0 <= c < A.Length1 ==>
      B[c, r] == A[r, c]
  }

  /** Two block origins that are multiples of the block size either coincide or their blocks are disjoint. */
  lemma BlockOrigins(i: int, j: int, size: int)
    requires size == 8 || size == 16
    requires i % size == 0 && j % size == 0
    ensures i == j || i + size <= j || j + size <= i
  {
  }

  /**
   * is_transpose: 1 when B[j][i] == A[i][j] for every i < N and j < M,
   * 0 otherwise. Reads both matrices and changes nothing.
   */
  method IsTranspose(M: int, N: int, A: array2<int>, B: array2<int>) returns (r: int)
    requires A.Length0 == N && A.Length1 == M && Shapes(A, B)
    ensures r == 0 || r == 1
    ensures r == 1 <==> Transposed(A, B)
  {
    var i := 0;
    while i < N
      invariant 0 <= i <= N
      invariant DoneRect(A, B, 0, i, 0, M)
    {
      var j := 0;
      while j < M
        invariant 0 <= j <= M
        invariant DoneRect(A, B, 0, i, 0, M)
        invariant DoneRect(A, B, i, i + 1, 0, j)
      {
        if A[i, j] != B[j, i] {
          return 0;
        }
        j := j + 1;
      }
      i := i + 1;
    }
    return 1;
  }

  /** trans: the baseline row-wise transpose. */
  method Trans(M: int, N: int, A: array2<int>, B: array2<int>)
    requires M > 0 && N > 0
    requires A.Length0 == N && A.Length1 == M && Shapes(A, B)
    requires A != B
    modifies B
    ensures Transposed(A, B)
  {
    var i := 0;
    while i < N
      invariant 0 <= i <= N
      invariant DoneRect(A, B, 0, i, 0, M)
    {
      var j := 0;
      while j < M
        invariant 0 <= j <= M
        invariant DoneRect(A, B, 0, i, 0, M)
        invariant DoneRect(A, B, i, i + 1, 0, j)
      {
        var tmp := A[i, j];
        B[j, i] := tmp;
        j := j + 1;
      }
      i := i + 1;
    }
  }

  /**
   * transpose_submit: dispatches on N. N = 32 and N = 64 use 8 by 8 blocks
   * (the source indexes whole blocks, so M must be a multiple of 8 there);
   * N = 67 uses 16 by 16 blocks clipped at the edges. Any other N leaves B
   * as it was.
   */
  method TransposeSubmit(M: int, N: int, A: array2<int>, B: array2<int>)
    requires M > 0 && N > 0
    requires A.Length0 == N && A.Length1 == M && Shapes(A, B)
    requires A != B
    requires (N == 32 || N == 64) ==> M % 8 == 0
    modifies B
    ensures N == 32 || N == 64 || N == 67 ==> Transposed(A, B)
    ensures N != 32 && N != 64 && N != 67 ==> unchanged(B)
  {
    if N == 32 {
      Blocked8(M, N, A, B);
    }
    if N == 64 {
      Quadrants(M, N, A, B);
    }
    if N == 67 {
      Clipped16(M, N, A, B);
    }
  }

  /** The N = 32 branch: 8 by 8 blocks, the diagonal element of a row deferred through temp. */
  method Blocked8(M: int, N: int, A: array2<int>, B: array2<int>)
    requires N == 32 && M > 0 && M % 8 == 0
    requires A.Length0 == N && A.Length1 == M && Shapes(A, B)
    requires A != B
    modifies B
    ensures Transposed(A, B)
  {
    var temp, diagIndex := 0, 0;
    var blockSize := 8;
    var i := 0;
    while i < N
      invariant 0 <= i <= N && i % 8 == 0
      invariant DoneRect(A, B, 0, i, 0, M)
    {
      var j := 0;
      while j < M
        invariant 0 <= j <= M && j % 8 == 0
        invariant DoneRect(A, B, 0, i, 0, M)
        invariant DoneRect(A, B, i, i + 8, 0, j)
      {
        BlockOrigins(i, j, 8);
        var blockRow := 0;
        while blockRow < blockSize
          invariant 0 <= blockRow <= blockSize
          invariant DoneRect(A, B, 0, i, 0, M)
          invariant DoneRect(A, B, i, i + 8, 0, j)
          invariant DoneRect(A, B, i, i + blockRow, j, j + 8)
        {
          var blockCol := 0;
          ghost var row := i + blockRow;
          while blockCol < blockSize
            invariant 0 <= blockCol <= blockSize
            invariant DoneRect(A, B, 0, i, 0, M)
            invariant DoneRect(A, B, i, i + 8, 0, j)
            invariant DoneRect(A, B, i, i + blockRow, j, j + 8)
            invariant forall c :: j <= c < j + blockCol && c != row ==> B[c, row] == A[row, c]
            invariant i == j && blockRow < blockCol ==>
              diagIndex == i + blockRow && temp == A[diagIndex, diagIndex]
          {
            if i + blockRow == j + blockCol {
              temp := A[i + blockRow, j + blockCol];
              diagIndex := i + blockRow;
            } else {
              B[j + blockCol, i + blockRow] := A[i + blockRow, j + blockCol];
            }
            blockCol := blockCol + 1;
          }
          if i == j {
            B[diagIndex, diagIndex] := temp;
          }
          blockRow := blockRow + 1;
        }
        j := j + blockSize;
      }
      i := i + blockSize;
    }
  }

  /**
   * The N = 64 branch. Per 8 by 8 block: the top half of A's block goes to
   * B with its top-left quadrant transposed in place and its top-right
   * quadrant staged, untransposed, in B's top-right quadrant; the second
   * pass moves the staged values to B's bottom-left quadrant and fills B's
   * top-right and bottom-right quadrants from A's bottom half.
   */
  method Quadrants(M: int, N: int, A: array2<int>, B: array2<int>)
    requires N == 64 && M > 0 && M % 8 == 0
    requires A.Length0 == N && A.Length1 == M && Shapes(A, B)
    requires A != B
    modifies B
    ensures Transposed(A, B)
  {
    var blockSize, subSize := 8, 4;
    var blockRow := 0;
    while blockRow < N
      invariant 0 <= blockRow <= N && blockRow % 8 == 0
      invariant DoneRect(A, B, 0, blockRow, 0, M)
    {
      var blockCol := 0;
      while blockCol < M
        invariant 0 <= blockCol <= M && blockCol % 8 == 0
        invariant DoneRect(A, B, 0, blockRow, 0, M)
        invariant DoneRect(A, B, blockRow, blockRow + 8, 0, blockCol)
      {
        var k := blockRow;
        while k < blockRow + subSize
          invariant blockRow <= k <= blockRow + subSize
          invariant DoneRect(A, B, 0, blockRow, 0, M)
          invariant DoneRect(A, B, blockRow, blockRow + 8, 0, blockCol)
          invariant DoneRect(A, B, blockRow, k, blockCol, blockCol + 4)
          invariant StagedCells(A, B, blockRow, k, blockCol, blockCol + 4)
        {
          TopHalfRow(A, B, k, blockRow, blockCol);
          k := k + 1;
        }
        k := blockCol;
        while k < blockCol + subSize
          invariant blockCol <= k <= blockCol + subSize
          invariant DoneRect(A, B, 0, blockRow, 0, M)
          invariant DoneRect(A, B, blockRow, blockRow + 8, 0, blockCol)
          invariant DoneRect(A, B, blockRow, blockRow + 4, blockCol, blockCol + 4)
          invariant DoneRect(A, B, blockRow, blockRow + 8, blockCol, k)
          invariant DoneRect(A, B, blockRow, blockRow + 8, blockCol + 4, k + 4)
          invariant StagedCells(A, B, blockRow, blockRow + 4, k, blockCol + 4)
        {
          SecondPassRow(A, B, k, blockRow, blockCol);
          k := k + 1;
        }
        blockCol := blockCol + blockSize;
      }
      blockRow := blockRow + blockSize;
    }
  }

  /**
   * The cells of A's top-right quadrant in rows [r0, r1) and (shifted)
   * columns [c0, c1) sit untransposed in B's top-right quadrant:
   * B[c][r + 4] holds A[r][c + 4].
   */
  ghost predicate StagedCells(A: array2<int>, B: array2<int>, r0: int, r1: int, c0: int, c1: int)
    reads A, B
    requires Shapes(A, B)
    requires 0 <= r0 && r1 + 4 <= A.Length0 && 0 <= c0 && c1 + 4 <= A.Length1
  {
    forall y, c :: r0 + 4 <= y < r1 + 4 && c0 <= c < c1 ==> B[c, y] == A[y - 4, c + 4]
  }

  /** One step of the first pass of the N = 64 branch (row k of A's block). */
  method TopHalfRow(A: array2<int>, B: array2<int>, k: int, blockRow: int, blockCol: int)
    requires Shapes(A, B) && A != B
    requires 0 <= blockRow <= k < blockRow + 4 && blockRow + 8 <= A.Length0
    requires 0 <= blockCol && blockCol + 8 <= A.Length1
    modifies B
    ensures forall c :: blockCol <= c < blockCol + 4 ==> B[c, k] == A[k, c]
    ensures forall c, y :: blockCol <= c < blockCol + 4 && y == k + 4 ==> B[c, y] == A[k, c + 4]
    ensures forall x, y ::
      (0 <= x < B.Length0 && 0 <= y < B.Length1 && !(blockCol <= x < blockCol + 4 && (y == k || y == k + 4))) ==>
        B[x, y] == old(B[x, y])
  {
    B[blockCol + 0, k] := A[k, blockCol + 0];
    B[blockCol + 1, k] := A[k, blockCol + 1];
    B[blockCol + 2, k] := A[k, blockCol + 2];
    B[blockCol + 3, k] := A[k, blockCol + 3];

    B[blockCol + 0, k + 4] := A[k, blockCol + 4];
    B[blockCol + 1, k + 4] := A[k, blockCol + 5];
    B[blockCol + 2, k + 4] := A[k, blockCol + 6];
    B[blockCol + 3, k + 4] := A[k, blockCol + 7];
  }

  /**
   * One step of the second pass of the N = 64 branch: B rows k and k + 4 of
   * the block. Consumes the staged values of B row k.
   */
  method SecondPassRow(A: array2<int>, B: array2<int>, k: int, blockRow: int, blockCol: int)
    requires Shapes(A, B) && A != B
    requires 0 <= blockRow && blockRow + 8 <= A.Length0
    requires 0 <= blockCol <= k < blockCol + 4 && blockCol + 8 <= A.Length1
    requires StagedCells(A, B, blockRow, blockRow + 4, k, k + 1)
    modifies B
    ensures DoneRect(A, B, blockRow + 4, blockRow + 8, k, k + 1)
    ensures DoneRect(A, B, blockRow, blockRow + 8, k + 4, k + 5)
    ensures forall x, y ::
      (0 <= x < B.Length0 && 0 <= y < B.Length1 &&
       !(x == k && blockRow + 4 <= y < blockRow + 8) && !(x == k + 4 && blockRow <= y < blockRow + 8)) ==>
        B[x, y] == old(B[x, y])
  {
    var temp1 := B[k, blockRow + 4];
    var temp2 := B[k, blockRow + 5];
    var temp3 := B[k, blockRow + 6];
    var temp4 := B[k, blockRow + 7];

    CopyColumn(A, B, k, blockRow + 4, k);

    B[k + 4, blockRow + 0] := temp1;
    B[k + 4, blockRow + 1] := temp2;
    B[k + 4, blockRow + 2] := temp3;
    B[k + 4, blockRow + 3] := temp4;

    CopyColumn(A, B, k + 4, blockRow + 4, k + 4);
  }

  /** Four consecutive assignments B[x][y + t] = A[y + t][col], t = 0..3, of the N = 64 branch. */
  method CopyColumn(A: array2<int>, B: array2<int>, x: int, y: int, col: int)
    requires Shapes(A, B) && A != B
    requires 0 <= x < B.Length0 && 0 <= y && y + 4 <= B.Length1 && 0 <= col < A.Length1
    modifies B
    ensures forall t :: y <= t < y + 4 ==> B[x, t] == A[t, col]
    ensures forall a, b ::
      (0 <= a < B.Length0 && 0 <= b < B.Length1 && !(a == x && y <= b < y + 4)) ==> B[a, b] == old(B[a, b])
  {
    B[x, y + 0] := A[y + 0, col];
    B[x, y + 1] := A[y + 1, col];
    B[x, y + 2] := A[y + 2, col];
    B[x, y + 3] := A[y + 3, col];
  }

  /**
   * The N = 67 branch: 16 by 16 blocks clipped at the matrix edges. temp and
   * diagIndex live across rows as in the source: a diagonal block row with no
   * diagonal cell (row >= M) rewrites the previous diagonal cell with its own
   * value.
   */
  method Clipped16(M: int, N: int, A: array2<int>, B: array2<int>)
    requires N == 67 && M > 0
    requires A.Length0 == N && A.Length1 == M && Shapes(A, B)
    requires A != B
    modifies B
    ensures Transposed(A, B)
  {
    var temp, diagIndex := 0, 0;
    ghost var hasDiag := false;
    var blockSize := 16;
    var i := 0;
    while i < N
      invariant 0 <= i && i % 16 == 0
      invariant DoneRect(A, B, 0, i, 0, M)
      invariant hasDiag ==> 0 <= diagIndex < N && diagIndex < M && temp == A[diagIndex, diagIndex]
      invariant i > 0 ==> hasDiag
    {
      var j := 0;
      while j < M
        invariant 0 <= j && j % 16 == 0
        invariant DoneRect(A, B, 0, i, 0, M)
        invariant DoneRect(A, B, i, i + 16, 0, j)
        invariant hasDiag ==> 0 <= diagIndex < N && diagIndex < M && temp == A[diagIndex, diagIndex]
        invariant i > 0 || j > 0 ==> hasDiag
      {
        BlockOrigins(i, j, 16);
        var row := i;
        while row < i + blockSize && row < N
          invariant i <= row
          invariant DoneRect(A, B, 0, i, 0, M)
          invariant DoneRect(A, B, i, i + 16, 0, j)
          invariant DoneRect(A, B, i, row, j, j + 16)
          invariant hasDiag ==> 0 <= diagIndex < N && diagIndex < M && temp == A[diagIndex, diagIndex]
          invariant i > 0 || j > 0 || row > i ==> hasDiag
        {
          var col := j;
          while col < j + blockSize && col < M
            invariant j <= col
            invariant DoneRect(A, B, 0, i, 0, M)
            invariant DoneRect(A, B, i, i + 16, 0, j)
            invariant DoneRect(A, B, i, row, j, j + 16)
            invariant forall c :: j <= c < col && c < M && c != row ==> B[c, row] == A[row, c]
            invariant hasDiag ==> 0 <= diagIndex < N && diagIndex < M && temp == A[diagIndex, diagIndex]
            invariant row <= col - 1 && j <= row ==> hasDiag && diagIndex == row
            invariant i > 0 || j > 0 || row > i ==> hasDiag
          {
            if row == col {
              temp := A[row, col];
              diagIndex := row;
              hasDiag := true;
            } else {
              B[col, row] := A[row, col];
            }
            col := col + 1;
          }
          if i == j {
            B[diagIndex, diagIndex] := temp;
          }
          row := row + 1;
        }
        j := j + blockSize;
      }
      i := i + blockSize;
    }
  }
}
