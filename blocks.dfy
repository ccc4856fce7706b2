/**
 * Block decomposition: `num_blocks` and the slicing done by `sliced_for`,
 * and the per-call configuration flags.
 */
module Blocks {

  /** The default block size, `1 << _log_block_size` with `_log_block_size == 10`. */
  const BlockSize: nat := 1024

  /**
   * The per-call flags: force sequential execution, conservative granularity
   * (a scheduling hint with no effect on results) and inclusive scan.
   */
  datatype Flags = Flags(sequential: bool, conservative: bool, inclusive: bool)

  /** `no_flag`. */
  const NoFlag := Flags(false, false, false)

  /** `num_blocks(n, block_size)`: 0 for an empty range, otherwise the ceiling of n / block_size. */
  function NumBlocks(n: nat, bs: nat): (r: nat)
    requires bs > 0
    ensures n > 0 ==> r > 0
  {
    if n == 0 then 0 else 1 + (n - 1) / bs
  }

  /** `std::min` on sizes. */
  function Min(a: nat, b: nat): nat {
    if a < b then a else b
  }

  /**
   * Where block i starts, clipped to n; block i of `sliced_for` is
   * [Boundary(i), Boundary(i + 1)), and the blocks before i cover [0, Boundary(i)).
   */
  function Boundary(n: nat, bs: nat, i: nat): nat {
    if i * bs < n then i * bs else n
  }

  /** Block i of A as `sliced_for` cuts it: A[Boundary(i) .. Boundary(i + 1)). */
  function Block<T>(A: seq<T>, bs: nat, i: nat): seq<T>
    requires bs > 0 && i < NumBlocks(|A|, bs)
  {
    BlockSlice(|A|, bs, i);
    A[Boundary(|A|, bs, i)..Boundary(|A|, bs, i + 1)]
  }

  lemma MulMonotone(a: nat, b: nat, c: nat)
    requires a <= b
    ensures a * c <= b * c
  {
  }

  /** `num_blocks` is the ceiling: the last block starts before n and the blocks reach n. */
  lemma NumBlocksIsCeiling(n: nat, bs: nat)
    requires bs > 0
    ensures NumBlocks(n, bs) == 0 <==> n == 0
    ensures n > 0 ==> (NumBlocks(n, bs) - 1) * bs < n <= NumBlocks(n, bs) * bs
  {
    if n > 0 {
      var q := (n - 1) / bs;
      assert q * bs + (n - 1) % bs == n - 1;
      assert (q + 1) * bs == q * bs + bs;
    }
  }

  /** Block i of `sliced_for` exists exactly when it starts before n. */
  lemma {:induction false} BlockExists(n: nat, bs: nat, i: nat)
    requires bs > 0
    ensures i < NumBlocks(n, bs) <==> i * bs < n
  {
    NumBlocksIsCeiling(n, bs);
    var l := NumBlocks(n, bs);
    if i < l {
      MulMonotone(i, l - 1, bs);
    } else if n > 0 {
      MulMonotone(l, i, bs);
    }
  }

  /**
   * The slice `sliced_for` hands to block i < num_blocks is
   * [i*bs, min(i*bs + bs, n)): it is non-empty and is [Boundary(i), Boundary(i+1)).
   */
  lemma {:induction false} BlockSlice(n: nat, bs: nat, i: nat)
    requires bs > 0 && i < NumBlocks(n, bs)
    ensures Boundary(n, bs, i) == i * bs
    ensures Boundary(n, bs, i + 1) == Min(i * bs + bs, n)
    ensures Boundary(n, bs, i) < Boundary(n, bs, i + 1)
  {
    BlockExists(n, bs, i);
    assert (i + 1) * bs == i * bs + bs;
  }

  /** The boundaries start at 0 and the last one is n. */
  lemma {:induction false} BoundaryEnds(n: nat, bs: nat)
    requires bs > 0
    ensures Boundary(n, bs, 0) == 0
    ensures Boundary(n, bs, NumBlocks(n, bs)) == n
  {
    BlockExists(n, bs, NumBlocks(n, bs));
  }

  /**
   * The blocks cover [0, n) and are pairwise disjoint: every j < n lies in
   * block j / bs, and in no other block.
   */
  lemma {:induction false} BlocksPartition(n: nat, bs: nat, j: nat, i: nat)
    requires bs > 0 && j < n
    ensures j / bs < NumBlocks(n, bs)
    ensures Boundary(n, bs, j / bs) <= j < Boundary(n, bs, j / bs + 1)
    ensures i < NumBlocks(n, bs) && Boundary(n, bs, i) <= j < Boundary(n, bs, i + 1) ==> i == j / bs
  {
    var q := j / bs;
    assert q * bs + j % bs == j;
    BlockExists(n, bs, q);
    BlockSlice(n, bs, q);
    if i < NumBlocks(n, bs) && Boundary(n, bs, i) <= j < Boundary(n, bs, i + 1) {
      BlockSlice(n, bs, i);
      if i < q {
        MulMonotone(i + 1, q, bs);
        assert false;
      } else if q < i {
        MulMonotone(q + 1, i, bs);
        assert false;
      }
    }
  }

  /** With blocks of at least two elements and at least two blocks, there are fewer blocks than elements. */
  lemma {:induction false} FewerBlocksThanElements(n: nat, bs: nat)
    requires bs >= 2 && NumBlocks(n, bs) >= 2
    ensures NumBlocks(n, bs) < n
  {
    var l := NumBlocks(n, bs);
    NumBlocksIsCeiling(n, bs);
    MulMonotone(2, bs, l - 1);
    assert (l - 1) * bs == bs * (l - 1);
  }
}
