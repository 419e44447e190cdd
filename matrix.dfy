/** The mathematical meaning of the kernel: square D×D matrices stored as flat
    row-major buffers of size_t words, their wrapped product, and the two
    deterministic input matrices the initializer produces. */
module Matrix {
  import opened Words

  /** Position of row `r`, column `c` in a row-major D×D buffer; it lies inside the buffer. */
  function RowMajor(D: nat, r: nat, c: nat): (x: nat)
    requires r < D && c < D
    ensures x < D * D
  {
    MulMono(r + 1, D, D);
    r * D + c
  }

  /** The position of a cell determines its row and column again. */
  lemma RowMajorSplit(D: nat, r: nat, c: nat)
    requires r < D && c < D
    ensures RowMajor(D, r, c) / D == r && RowMajor(D, r, c) % D == c
  {
    DivModUnique(r * D + c, D, r, c);
  }

  /** Every position inside a D×D buffer is the position of some row and column. */
  lemma FlatSplit(D: nat, x: nat)
    requires x < D * D
    ensures x / D < D && x % D < D && x == RowMajor(D, x / D, x % D)
  {
    if x / D >= D {
      assert x == (x / D) * D + x % D;
      MulMono(D, x / D, D);
    }
  }

  /** The cells of the rows `lo .. hi-1`. */
  predicate InRows(D: nat, lo: nat, hi: nat, x: int)
  {
    lo * D <= x < hi * D
  }

  /** Row `r` and column `c` lie in rows `lo .. hi-1` exactly when `r` does. */
  lemma InRowsOfRow(D: nat, lo: nat, hi: nat, r: nat, c: nat)
    requires r < D && c < D
    ensures InRows(D, lo, hi, RowMajor(D, r, c)) <==> lo <= r < hi
  {
    var x := RowMajor(D, r, c);
    assert x == r * D + c;
    assert (r + 1) * D == r * D + D;
    if lo <= r {
      MulMono(lo, r, D);
      assert lo * D <= x;
    } else {
      MulMono(r + 1, lo, D);
      assert x < lo * D;
    }
    if r < hi {
      MulMono(r + 1, hi, D);
      assert x < hi * D;
    } else {
      MulMono(hi, r, D);
      assert hi * D <= x;
    }
  }

  /** Rows `lo .. hi-1` of the D×D matrices C and P are equal. */
  predicate RowsAgree(C: seq<Word64>, P: seq<Word64>, D: nat, lo: nat, hi: nat)
  {
    |C| >= D * D && |P| >= D * D && hi <= D &&
    forall r: nat, c: nat :: lo <= r < hi && c < D ==> C[RowMajor(D, r, c)] == P[RowMajor(D, r, c)]
  }

  /** When every row of C agrees with the D×D matrix P, the first D*D cells of C are P. */
  lemma AllRowsAgree(C: seq<Word64>, P: seq<Word64>, D: nat)
    requires RowsAgree(C, P, D, 0, D) && |P| == D * D
    ensures C[..D * D] == P
  {
    forall x | 0 <= x < D * D
      ensures C[x] == P[x]
    {
      FlatSplit(D, x);
    }
  }

  /** The exact dot product of row `i` of A with column `j` of B over the
      first `n` terms: Σ_{k < n} A[i][k] * B[k][j], without wrap-around. */
  function Dot(A: seq<Word64>, B: seq<Word64>, D: nat, i: nat, j: nat, n: nat): int
    requires |A| >= D * D && |B| >= D * D
    requires i < D && j < D && n <= D
  {
    if n == 0 then 0
    else Dot(A, B, D, i, j, n - 1) + A[RowMajor(D, i, n - 1)] as int * B[RowMajor(D, n - 1, j)] as int
  }

  /** Cell (i, j) of the product, reduced modulo 2^64 as a size_t accumulator reduces it. */
  function Cell(A: seq<Word64>, B: seq<Word64>, D: nat, i: nat, j: nat): Word64
    requires |A| >= D * D && |B| >= D * D
    requires i < D && j < D
  {
    (Dot(A, B, D, i, j, D) % WORD_MODULUS) as Word64
  }

  function CellAt(A: seq<Word64>, B: seq<Word64>, D: nat, x: nat): Word64
    requires |A| >= D * D && |B| >= D * D
    requires x < D * D
  {
    FlatSplit(D, x);
    Cell(A, B, D, x / D, x % D)
  }

  /** The row-major D×D product C = A·B with size_t wrap-around. */
  function Product(A: seq<Word64>, B: seq<Word64>, D: nat): (C: seq<Word64>)
    requires |A| >= D * D && |B| >= D * D
    ensures |C| == D * D
  {
    seq(D * D, x requires 0 <= x < D * D => CellAt(A, B, D, x))
  }

  /** Cell (i, j) of the product is Σ_{k < D} A[i][k] * B[k][j] reduced modulo 2^64. */
  lemma ProductCell(A: seq<Word64>, B: seq<Word64>, D: nat, i: nat, j: nat)
    requires |A| >= D * D && |B| >= D * D
    requires i < D && j < D
    ensures Product(A, B, D)[RowMajor(D, i, j)] as int == Dot(A, B, D, i, j, D) % WORD_MODULUS
  {
    RowMajorSplit(D, i, j);
  }

  /** Cell (i, j) of the product reads row `i` of A and column `j` of B and nothing else. */
  lemma {:induction false} DotReadsRowAndColumn(A: seq<Word64>, B: seq<Word64>, A': seq<Word64>, B': seq<Word64>,
                                                D: nat, i: nat, j: nat, n: nat)
    requires |A| >= D * D && |B| >= D * D && |A'| >= D * D && |B'| >= D * D
    requires i < D && j < D && n <= D
    requires forall k :: 0 <= k < D ==> A[RowMajor(D, i, k)] == A'[RowMajor(D, i, k)]
    requires forall k :: 0 <= k < D ==> B[RowMajor(D, k, j)] == B'[RowMajor(D, k, j)]
    ensures Dot(A, B, D, i, j, n) == Dot(A', B', D, i, j, n)
  {
    if n > 0 {
      DotReadsRowAndColumn(A, B, A', B', D, i, j, n - 1);
    }
  }

  /** Row `i` of the product depends only on row `i` of A (and on B): two left
      operands that agree on row `i` give the same row `i` of C. */
  lemma ProductRowReadsOnlyRowOfA(A: seq<Word64>, A': seq<Word64>, B: seq<Word64>, D: nat, i: nat)
    requires |A| >= D * D && |A'| >= D * D && |B| >= D * D
    requires i < D
    requires forall k :: 0 <= k < D ==> A[RowMajor(D, i, k)] == A'[RowMajor(D, i, k)]
    ensures forall j :: 0 <= j < D ==> Product(A, B, D)[RowMajor(D, i, j)] == Product(A', B, D)[RowMajor(D, i, j)]
  {
    forall j | 0 <= j < D
      ensures Product(A, B, D)[RowMajor(D, i, j)] == Product(A', B, D)[RowMajor(D, i, j)]
    {
      DotReadsRowAndColumn(A, B, A', B, D, i, j, D);
      ProductCell(A, B, D, i, j);
      ProductCell(A', B, D, i, j);
    }
  }

  /** A 1×1 product is the wrapped product of the two single elements. */
  lemma SingleCell(A: seq<Word64>, B: seq<Word64>)
    requires |A| >= 1 && |B| >= 1
    ensures Product(A, B, 1) == [WrapMul(A[0], B[0])]
  {
    var x := RowMajor(1, 0, 0);
    var a, b := A[x] as int, B[x] as int;
    assert Dot(A, B, 1, 0, 0, 1) == Dot(A, B, 1, 0, 0, 0) + a * b;
    ProductCell(A, B, 1, 0, 0);
  }

  /** With D = 2 a cell is the sum of two products. */
  lemma DotOfTwo(A: seq<Word64>, B: seq<Word64>, i: nat, j: nat)
    requires |A| >= 4 && |B| >= 4 && i < 2 && j < 2
    ensures Dot(A, B, 2, i, j, 2) == A[2 * i] as int * B[j] as int + A[2 * i + 1] as int * B[2 + j] as int
  {
    var a0, b0 := A[RowMajor(2, i, 0)] as int, B[RowMajor(2, 0, j)] as int;
    var a1, b1 := A[RowMajor(2, i, 1)] as int, B[RowMajor(2, 1, j)] as int;
    assert Dot(A, B, 2, i, j, 1) == Dot(A, B, 2, i, j, 0) + a0 * b0;
    assert Dot(A, B, 2, i, j, 2) == Dot(A, B, 2, i, j, 1) + a1 * b1;
  }

  /** Left input of the initializer: element `x` holds `2*x`. */
  function InitialA(D: nat): (A: seq<Word64>)
    requires FillFits(D)
    ensures |A| == D * D
  {
    seq(D * D, x requires 0 <= x < D * D => (2 * x) as Word64)
  }

  /** Right input of the initializer: element `x` holds `x+2`. */
  function InitialB(D: nat): (B: seq<Word64>)
    requires FillFits(D)
    ensures |B| == D * D
  {
    seq(D * D, x requires 0 <= x < D * D => (x + 2) as Word64)
  }

  /** For D = 2 the initializer gives A = [0,2,4,6] and B = [2,3,4,5]. */
  lemma InitialTwo()
    ensures InitialA(2) == [0, 2, 4, 6] && InitialB(2) == [2, 3, 4, 5]
  {
    var A, B := InitialA(2), InitialB(2);
    assert A[0] == 0 && A[1] == 2 && A[2] == 4 && A[3] == 6;
    assert B[0] == 2 && B[1] == 3 && B[2] == 4 && B[3] == 5;
  }

  /** ... and their product is [8,10,32,42]. */
  lemma ProductOfInitialTwo()
    ensures Product(InitialA(2), InitialB(2), 2) == [8, 10, 32, 42]
  {
    InitialTwo();
    var A: seq<Word64>, B: seq<Word64> := [0, 2, 4, 6], [2, 3, 4, 5];
    var C := Product(A, B, 2);
    DotOfTwo(A, B, 0, 0);
    DotOfTwo(A, B, 0, 1);
    DotOfTwo(A, B, 1, 0);
    DotOfTwo(A, B, 1, 1);
    ProductCell(A, B, 2, 0, 0);
    ProductCell(A, B, 2, 0, 1);
    ProductCell(A, B, 2, 1, 0);
    ProductCell(A, B, 2, 1, 1);
    assert RowMajor(2, 0, 0) == 0 && RowMajor(2, 0, 1) == 1 && RowMajor(2, 1, 0) == 2 && RowMajor(2, 1, 1) == 3;
    assert C[0] == 8 && C[1] == 10 && C[2] == 32 && C[3] == 42;
  }
}
