/** The two array routines of the program: `iniMatrix`, which fills the input
    buffers, and `multiMatrix`, the row-parallel triple loop. Buffers are
    arrays of size_t words; C pointers into them are integer offsets. */
module Kernel {
  import opened Words
  import opened Matrix
  import opened Schedule

  /** `iniMatrix`: walks two pointers over the first D*D slots, writing `i*2`
      into the first buffer and `i+2` into the second; later slots are untouched. */
  method IniMatrix(m1: array<Word64>, m2: array<Word64>, D: Int32)
    requires FillFits(D as int)
    requires m1.Length >= D as int * D as int && m2.Length >= D as int * D as int
    requires m1 != m2
    modifies m1, m2
    ensures forall x :: 0 <= x < D as int * D as int ==> m1[x] as int == 2 * x && m2[x] as int == x + 2
    ensures forall x :: D as int * D as int <= x < m1.Length ==> m1[x] == old(m1[x])
    ensures forall x :: D as int * D as int <= x < m2.Length ==> m2[x] == old(m2[x])
    ensures m1[..D as int * D as int] == InitialA(D as nat) && m2[..D as int * D as int] == InitialB(D as nat)
  {
    FillFitsSquare(D as int);
    var p1, p2 := 0, 0;
    var i: Int32 := 0;
    while i < D * D
      invariant 0 <= i as int <= D as int * D as int
      invariant p1 == i as int && p2 == i as int
      invariant forall x :: 0 <= x < i as int ==> m1[x] as int == 2 * x && m2[x] as int == x + 2
      invariant forall x :: i as int <= x < m1.Length ==> m1[x] == old(m1[x])
      invariant forall x :: i as int <= x < m2.Length ==> m2[x] == old(m2[x])
    {
      m1[p1] := (i * 2) as Word64;
      m2[p2] := (i + 2) as Word64;
      i, p1, p2 := i + 1, p1 + 1, p2 + 1;
    }
  }

  /** The innermost loop of `multiMatrix` for one cell: `pA` walks along row
      `i` of A, `pB` down column `j` of B, and the size_t accumulator `Suma`
      collects the dot product with wrap-around. */
  method DotProduct(mA: array<Word64>, mB: array<Word64>, D: Int32, i: Int32, j: Int32) returns (suma: Word64)
    requires SquareFits(D as int)
    requires 0 <= i < D && 0 <= j < D
    requires mA.Length >= D as int * D as int && mB.Length >= D as int * D as int
    ensures suma as int == Dot(mA[..], mB[..], D as nat, i as nat, j as nat, D as nat) % WORD_MODULUS
  {
    ghost var A, B := mA[..], mB[..];
    MulMono(i as int, D as int, D as int);
    var pA: int := (i * D) as int;
    var pB: int := j as int;
    suma := 0;
    var k: Int32 := 0;
    while k < D
      invariant 0 <= k <= D
      invariant pA == i as int * D as int + k as int
      invariant pB == k as int * D as int + j as int
      invariant suma as int == Dot(A, B, D as nat, i as nat, j as nat, k as nat) % WORD_MODULUS
    {
      assert pA == RowMajor(D as nat, i as nat, k as nat);
      assert pB == RowMajor(D as nat, k as nat, j as nat);
      AccumulateStep(suma, Dot(A, B, D as nat, i as nat, j as nat, k as nat), mA[pA], mB[pB]);
      suma := WrapAdd(suma, WrapMul(mA[pA], mB[pB]));
      assert (k as int + 1) * D as int == k as int * D as int + D as int;
      k, pA, pB := k + 1, pA + 1, pB + D as int;
    }
  }

  /** One iteration `i` of the outer loop of `multiMatrix`: the loop over
      columns `j`, storing each dot product at `mC[i*D+j]`. Row `i` of C
      receives row `i` of the product, and no cell outside row `i` changes. */
  method RowIteration(mA: array<Word64>, mB: array<Word64>, mC: array<Word64>, D: Int32, i: Int32)
    requires SquareFits(D as int)
    requires 0 <= i < D
    requires mA.Length >= D as int * D as int && mB.Length >= D as int * D as int
    requires mC.Length >= D as int * D as int
    requires mC != mA && mC != mB
    modifies mC
    ensures RowsAgree(mC[..], Product(mA[..], mB[..], D as nat), D as nat, i as nat, i as nat + 1)
    ensures forall x :: 0 <= x < mC.Length && !InRows(D as nat, i as nat, i as nat + 1, x) ==> mC[x] == old(mC[x])
  {
    ghost var P := Product(mA[..], mB[..], D as nat);
    ghost var d := D as int;
    ghost var start := i as int * d;
    assert (i as int + 1) * d == start + d;
    MulMono(i as int + 1, d, d);
    var j: Int32 := 0;
    while j < D
      invariant 0 <= j <= D
      invariant forall x :: start <= x < start + j as int ==> mC[x] == P[x]
      invariant forall x :: 0 <= x < mC.Length && !(start <= x < start + j as int) ==> mC[x] == old(mC[x])
    {
      var suma := DotProduct(mA, mB, D, i, j);
      ghost var cell := RowMajor(d, i as nat, j as nat);
      ProductCell(mA[..], mB[..], d, i as nat, j as nat);
      var at := i * D + j;
      assert at as int == cell == start + j as int;
      mC[at] := suma;
      j := j + 1;
    }
  }

  /** The rows `lo .. hi-1` of `multiMatrix`: the share of one thread under
      `omp for`. Those rows of C receive the product; no other cell changes. */
  method MultiRows(mA: array<Word64>, mB: array<Word64>, mC: array<Word64>, D: Int32, lo: Int32, hi: Int32)
    requires SquareFits(D as int)
    requires 0 <= lo <= hi <= D
    requires mA.Length >= D as int * D as int && mB.Length >= D as int * D as int
    requires mC.Length >= D as int * D as int
    requires mC != mA && mC != mB
    modifies mC
    ensures RowsAgree(mC[..], Product(mA[..], mB[..], D as nat), D as nat, lo as nat, hi as nat)
    ensures forall x :: 0 <= x < mC.Length && !InRows(D as nat, lo as nat, hi as nat, x) ==> mC[x] == old(mC[x])
  {
    ghost var P := Product(mA[..], mB[..], D as nat);
    ghost var d := D as nat;
    var i := lo;
    while i < hi
      invariant lo <= i <= hi
      invariant RowsAgree(mC[..], P, d, lo as nat, i as nat)
      invariant forall x :: 0 <= x < mC.Length && !InRows(d, lo as nat, i as nat, x) ==> mC[x] == old(mC[x])
    {
      RowIteration(mA, mB, mC, D, i);
      forall r: nat, c: nat | lo as int <= r < i as int + 1 && c < d
        ensures mC[RowMajor(d, r, c)] == P[RowMajor(d, r, c)]
      {
        InRowsOfRow(d, i as nat, i as nat + 1, r, c);
      }
      forall x | 0 <= x < mC.Length && !InRows(d, lo as nat, i as nat + 1, x)
        ensures mC[x] == old(mC[x])
      {
        InRowsSplit(d, lo as nat, i as nat, i as nat + 1, x);
      }
      i := i + 1;
    }
  }

  /** The cells of rows `lo .. hi-1` are those of rows `lo .. mid-1` and those of rows `mid .. hi-1`. */
  lemma InRowsSplit(D: nat, lo: nat, mid: nat, hi: nat, x: int)
    requires lo <= mid <= hi
    ensures InRows(D, lo, hi, x) <==> InRows(D, lo, mid, x) || InRows(D, mid, hi, x)
  {
    MulMono(lo, mid, D);
    MulMono(mid, hi, D);
  }

  /** `multiMatrix` run on one thread: the `omp for` loop over all rows. The
      first D*D cells of C end up holding A·B whatever they held before, A and
      B are left as they were, and cells past D*D are untouched. */
  method MultiMatrix(mA: array<Word64>, mB: array<Word64>, mC: array<Word64>, D: Int32)
    requires SquareFits(D as int)
    requires mA.Length >= D as int * D as int && mB.Length >= D as int * D as int
    requires mC.Length >= D as int * D as int
    requires mC != mA && mC != mB
    modifies mC
    ensures mC[..D as int * D as int] == Product(mA[..], mB[..], D as nat)
    ensures mC[D as int * D as int..] == old(mC[D as int * D as int..])
    ensures mA[..] == old(mA[..]) && mB[..] == old(mB[..])
  {
    ghost var d := D as nat;
    ghost var P := Product(mA[..], mB[..], d);
    MultiRows(mA, mB, mC, D, 0, D);
    AllRowsAgree(mC[..], P, d);
    forall x | d * d <= x < mC.Length
      ensures mC[x] == old(mC[x])
    {
      assert !InRows(d, 0, d, x);
    }
  }

  /** Distinct blocks of a row partition write disjoint sets of cells of C, so
      no cell is ever written by two threads. */
  lemma BlockCellsDisjoint(blocks: seq<RowBlock>, D: nat, t: nat, u: nat, x: int)
    requires IsRowPartition(blocks, D)
    requires t < |blocks| && u < |blocks| && t != u
    requires InRows(D, blocks[t].lo, blocks[t].hi, x)
    ensures !InRows(D, blocks[u].lo, blocks[u].hi, x)
  {
    assert Disjoint(blocks[t], blocks[u]);
    if blocks[t].hi <= blocks[u].lo {
      MulMono(blocks[t].hi, blocks[u].lo, D);
    } else if blocks[u].hi <= blocks[t].lo {
      MulMono(blocks[u].hi, blocks[t].lo, D);
    }
  }

  /** A row held by one of the first `b + 1` blocks but not by block `b` is held by one of the first `b`. */
  lemma CoveredBefore(blocks: seq<RowBlock>, b: nat, r: int)
    requires b < |blocks| && Covered(blocks[..b + 1], r) && !HasRow(blocks[b], r)
    ensures Covered(blocks[..b], r)
  {
    var t :| 0 <= t < b + 1 && HasRow(blocks[..b + 1][t], r);
    assert blocks[..b][t] == blocks[t];
  }

  /** `multiMatrix` with its rows split into `blocks`, each block computed in
      one piece and the blocks taken in the order given. For every partition of
      the rows, in every order, C ends up holding A·B: the result of the plain
      loop over rows 0 .. D-1. */
  method MultiMatrixBlocks(mA: array<Word64>, mB: array<Word64>, mC: array<Word64>, D: Int32, blocks: seq<RowBlock>)
    requires SquareFits(D as int)
    requires IsRowPartition(blocks, D as nat)
    requires mA.Length >= D as int * D as int && mB.Length >= D as int * D as int
    requires mC.Length >= D as int * D as int
    requires mC != mA && mC != mB
    modifies mC
    ensures mC[..D as int * D as int] == Product(mA[..], mB[..], D as nat)
    ensures mC[D as int * D as int..] == old(mC[D as int * D as int..])
  {
    ghost var P := Product(mA[..], mB[..], D as nat);
    ghost var d := D as nat;
    var b := 0;
    while b < |blocks|
      invariant 0 <= b <= |blocks|
      invariant forall r: nat, c: nat :: r < d && c < d && Covered(blocks[..b], r) ==>
        mC[RowMajor(d, r, c)] == P[RowMajor(d, r, c)]
      invariant forall x :: d * d <= x < mC.Length ==> mC[x] == old(mC[x])
    {
      var lo, hi := blocks[b].lo as Int32, blocks[b].hi as Int32;
      MultiRows(mA, mB, mC, D, lo, hi);
      forall r: nat, c: nat | r < d && c < d && Covered(blocks[..b + 1], r)
        ensures mC[RowMajor(d, r, c)] == P[RowMajor(d, r, c)]
      {
        if !HasRow(blocks[b], r) {
          CoveredBefore(blocks, b, r);
          InRowsOfRow(d, lo as nat, hi as nat, r, c);
        }
      }
      forall x | d * d <= x < mC.Length
        ensures mC[x] == old(mC[x])
      {
        MulMono(hi as int, d, d);
      }
      b := b + 1;
    }
    assert blocks[..|blocks|] == blocks;
    forall r: nat, c: nat | r < d && c < d
      ensures mC[..][RowMajor(d, r, c)] == P[RowMajor(d, r, c)]
    {
      assert Covered(blocks, r);
    }
    AllRowsAgree(mC[..], P, d);
    assert mC[..d * d] == mC[..][..d * d];
  }

  /** `multiMatrix` after `omp_set_num_threads(TH)`: the rows are split by the
      static schedule over TH threads. The result is the product for every
      thread count, including more threads than rows. */
  method MultiMatrixThreads(mA: array<Word64>, mB: array<Word64>, mC: array<Word64>, D: Int32, TH: Int32)
    requires SquareFits(D as int) && TH >= 1
    requires mA.Length >= D as int * D as int && mB.Length >= D as int * D as int
    requires mC.Length >= D as int * D as int
    requires mC != mA && mC != mB
    modifies mC
    ensures mC[..D as int * D as int] == Product(mA[..], mB[..], D as nat)
    ensures mC[D as int * D as int..] == old(mC[D as int * D as int..])
  {
    StaticScheduleIsPartition(D as nat, TH as nat);
    MultiMatrixBlocks(mA, mB, mC, D, StaticSchedule(D as nat, TH as nat));
  }

  /** The computing part of `main` after validation: allocate three zeroed
      N×N buffers, fill A and B, multiply with TH threads, and hand back C. */
  method Run(N: Int32, TH: Int32) returns (c: seq<Word64>)
    requires N >= 1 && TH >= 1 && FillFits(N as int)
    ensures c == Product(InitialA(N as nat), InitialB(N as nat), N as nat)
  {
    FillFitsSquare(N as int);
    var matrixA := new Word64[N * N];
    var matrixB := new Word64[N * N];
    var matrixC := new Word64[N * N];
    IniMatrix(matrixA, matrixB, N);
    assert matrixA[..] == matrixA[..N as int * N as int];
    assert matrixB[..] == matrixB[..N as int * N as int];
    MultiMatrixThreads(matrixA, matrixB, matrixC, N, TH);
    c := matrixC[..];
    assert c == matrixC[..N as int * N as int];
  }
}
