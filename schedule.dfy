/** How the rows of C are shared out among threads. `schedule(static)` splits
    the row range [0, D) into one contiguous block per thread; the product is
    correct for every split that is a partition of the rows, in any order. */
module Schedule {
  import opened Words

  /** The rows `lo .. hi-1` handed to one thread. */
  datatype RowBlock = RowBlock(lo: nat, hi: nat)

  /** Two blocks share no row (an empty block shares no row with anything). */
  predicate Disjoint(a: RowBlock, b: RowBlock)
  {
    a.lo == a.hi || b.lo == b.hi || a.hi <= b.lo || b.hi <= a.lo
  }

  predicate HasRow(b: RowBlock, r: int)
  {
    b.lo <= r < b.hi
  }

  /** Some block holds row `r`. */
  predicate Covered(blocks: seq<RowBlock>, r: int)
  {
    exists t :: 0 <= t < |blocks| && HasRow(blocks[t], r)
  }

  /** The blocks lie inside [0, D), no two share a row, and together they hold every row. */
  predicate IsRowPartition(blocks: seq<RowBlock>, D: nat)
  {
    (forall t :: 0 <= t < |blocks| ==> blocks[t].lo <= blocks[t].hi <= D) &&
    (forall t, u :: 0 <= t < |blocks| && 0 <= u < |blocks| && t != u ==> Disjoint(blocks[t], blocks[u])) &&
    (forall r :: 0 <= r < D ==> Covered(blocks, r))
  }

  /** First row of thread `t` under the static schedule: every thread gets
      ⌊D/TH⌋ rows, and the first D mod TH threads one row more. */
  function ChunkStart(D: nat, TH: nat, t: nat): nat
    requires TH >= 1
  {
    t * (D / TH) + (if t < D % TH then t else D % TH)
  }

  /** The static schedule of D rows over TH threads, thread `t` owning block `t`. */
  function StaticSchedule(D: nat, TH: nat): (blocks: seq<RowBlock>)
    requires TH >= 1
    ensures |blocks| == TH
  {
    seq(TH, t requires 0 <= t < TH => RowBlock(ChunkStart(D, TH, t), ChunkStart(D, TH, t + 1)))
  }

  /** Consecutive chunks follow each other, each one ⌊D/TH⌋ or ⌈D/TH⌉ rows long. */
  lemma ChunkStep(D: nat, TH: nat, t: nat)
    requires TH >= 1
    ensures ChunkStart(D, TH, t + 1) == ChunkStart(D, TH, t) + D / TH + (if t < D % TH then 1 else 0)
  {
    assert (t + 1) * (D / TH) == t * (D / TH) + D / TH;
  }

  lemma ChunkMono(D: nat, TH: nat, t: nat, u: nat)
    requires TH >= 1 && t <= u
    ensures ChunkStart(D, TH, t) <= ChunkStart(D, TH, u)
  {
    MulMono(t, u, D / TH);
  }

  /** The last chunk ends exactly at row D. */
  lemma ChunkEnd(D: nat, TH: nat)
    requires TH >= 1
    ensures ChunkStart(D, TH, TH) == D
  {
    assert D == (D / TH) * TH + D % TH;
  }

  /** Every row before the start of chunk `n` lies in one of the first `n` chunks. */
  lemma {:induction false} ChunksCover(D: nat, TH: nat, n: nat, r: nat)
    requires TH >= 1 && r < ChunkStart(D, TH, n)
    ensures exists t :: 0 <= t < n && ChunkStart(D, TH, t) <= r < ChunkStart(D, TH, t + 1)
  {
    if n > 0 {
      if r < ChunkStart(D, TH, n - 1) {
        ChunksCover(D, TH, n - 1, r);
      } else {
        assert ChunkStart(D, TH, n - 1) <= r < ChunkStart(D, TH, n - 1 + 1);
      }
    }
  }

  /** Block `t` of the static schedule lies inside [0, D) and holds ⌊D/TH⌋ or ⌈D/TH⌉ rows. */
  lemma StaticBlockSize(D: nat, TH: nat, t: nat)
    requires TH >= 1 && t < TH
    ensures StaticSchedule(D, TH)[t].lo <= StaticSchedule(D, TH)[t].hi <= D
    ensures StaticSchedule(D, TH)[t].hi - StaticSchedule(D, TH)[t].lo == D / TH + (if t < D % TH then 1 else 0)
  {
    ChunkEnd(D, TH);
    ChunkStep(D, TH, t);
    ChunkMono(D, TH, t + 1, TH);
  }

  /** Blocks of two different threads share no row. */
  lemma StaticBlocksDisjoint(D: nat, TH: nat, t: nat, u: nat)
    requires TH >= 1 && t < TH && u < TH && t != u
    ensures Disjoint(StaticSchedule(D, TH)[t], StaticSchedule(D, TH)[u])
  {
    if t < u {
      ChunkMono(D, TH, t + 1, u);
    } else {
      ChunkMono(D, TH, u + 1, t);
    }
  }

  /** Every row has a thread. */
  lemma StaticCovers(D: nat, TH: nat, r: nat)
    requires TH >= 1 && r < D
    ensures Covered(StaticSchedule(D, TH), r)
  {
    ChunkEnd(D, TH);
    ChunksCover(D, TH, TH, r);
    var t :| 0 <= t < TH && ChunkStart(D, TH, t) <= r < ChunkStart(D, TH, t + 1);
    assert HasRow(StaticSchedule(D, TH)[t], r);
  }

  /** The static schedule is a partition of the rows into blocks of near-equal
      size, whatever the thread count; with more threads than rows some blocks are empty. */
  lemma StaticScheduleIsPartition(D: nat, TH: nat)
    requires TH >= 1
    ensures IsRowPartition(StaticSchedule(D, TH), D)
    ensures forall t :: 0 <= t < TH ==>
      StaticSchedule(D, TH)[t].hi - StaticSchedule(D, TH)[t].lo == D / TH + (if t < D % TH then 1 else 0)
  {
    var blocks := StaticSchedule(D, TH);
    forall t | 0 <= t < TH
      ensures blocks[t].lo <= blocks[t].hi <= D
      ensures blocks[t].hi - blocks[t].lo == D / TH + (if t < D % TH then 1 else 0)
    {
      StaticBlockSize(D, TH, t);
    }
    forall t, u | 0 <= t < TH && 0 <= u < TH && t != u
      ensures Disjoint(blocks[t], blocks[u])
    {
      StaticBlocksDisjoint(D, TH, t, u);
    }
    forall r | 0 <= r < D
      ensures Covered(blocks, r)
    {
      StaticCovers(D, TH, r);
    }
  }
}
