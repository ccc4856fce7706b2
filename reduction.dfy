/**
 * The reduction engine: `reduce_serial` and the two-level blocked `reduce`.
 */
module Reduction {
  import opened Monoids
  import opened Blocks

  /**
   * `reduce_serial`: seeds the accumulator with A[0] (so A must be non-empty)
   * and combines the remaining elements left to right.
   */
  method ReduceSerial<T(!new)>(A: seq<T>, m: Monoid<T>) returns (r: T)
    requires |A| > 0
    ensures r == Fold(m.f, A[0], A[1..])
    ensures IsMonoid(m) ==> r == Fold(m.f, m.identity, A)
  {
    r := A[0];
    for j := 1 to |A|
      invariant r == Fold(m.f, A[0], A[1..j])
    {
      assert A[1..j + 1][..j - 1] == A[1..j];
      r := m.f(r, A[j]);
    }
    assert A[1..|A|] == A[1..];
    if IsMonoid(m) {
      FoldSeededWithFirst(m, A);
    }
  }

  /** The first pass of `reduce`: Sums[i] is the serial reduction of block i of A. */
  method BlockReductions<T(!new)>(A: seq<T>, m: Monoid<T>, bs: nat) returns (Sums: array<T>)
    requires IsMonoid(m) && bs > 0
    ensures fresh(Sums) && Sums.Length == NumBlocks(|A|, bs)
    ensures forall k :: 0 <= k < Sums.Length ==> Sums[k] == Fold(m.f, m.identity, Block(A, bs, k))
  {
    var n := |A|;
    var l := NumBlocks(n, bs);
    Sums := new T[l](_ => m.identity);
    for i := 0 to l
      invariant forall k :: 0 <= k < i ==>
        Sums[k] == Fold(m.f, m.identity, Block(A, bs, k))
    {
      BlockSlice(n, bs, i);
      var s := i * bs;
      var e := Min(s + bs, n);
      assert A[s..e] == Block(A, bs, i);
      Sums[i] := ReduceSerial(A[s..e], m);
    }
  }

  /** Integer ceil(sqrt(n)): the least r with r * r >= n. */
  function CeilSqrt(n: nat): (r: nat)
    ensures r * r >= n
    ensures r == 0 || (r - 1) * (r - 1) < n
  {
    CeilSqrtFrom(n, 0)
  }

  function CeilSqrtFrom(n: nat, k: nat): (r: nat)
    requires k == 0 || (k - 1) * (k - 1) < n
    ensures r * r >= n
    ensures r == 0 || (r - 1) * (r - 1) < n
    decreases n - k
  {
    if k * k >= n then k
    else
      assert k <= k * k || k == 0;
      CeilSqrtFrom(n, k + 1)
  }

  /** The block size `reduce` picks: max(1024, 4 * ceil(sqrt(n))). */
  function ReduceBlockSize(n: nat): (bs: nat)
    ensures bs >= BlockSize && bs >= 4 * CeilSqrt(n)
    ensures bs == BlockSize || bs == 4 * CeilSqrt(n)
  {
    if BlockSize < 4 * CeilSqrt(n) then 4 * CeilSqrt(n) else BlockSize
  }

  /**
   * If every sums[k] (k < i) is the fold of block k of A, then folding
   * sums[..i] folds all of A before block i.
   */
  lemma {:induction false} FoldOfBlockSums<T(!new)>(m: Monoid<T>, A: seq<T>, sums: seq<T>, bs: nat, i: nat)
    requires IsMonoid(m) && bs > 0
    requires i <= |sums| && i <= NumBlocks(|A|, bs)
    requires forall k :: 0 <= k < i ==>
      sums[k] == Fold(m.f, m.identity, Block(A, bs, k))
    ensures Fold(m.f, m.identity, sums[..i]) == Fold(m.f, m.identity, A[..Boundary(|A|, bs, i)])
  {
    var n := |A|;
    if i == 0 {
      BoundaryEnds(n, bs);
      assert A[..Boundary(n, bs, 0)] == [];
    } else {
      var k := i - 1;
      BlockSlice(n, bs, k);
      var lo, hi := Boundary(n, bs, k), Boundary(n, bs, i);
      assert Block(A, bs, k) == A[lo..hi];
      FoldOfBlockSums(m, A, sums, bs, k);
      FoldNextBlock(m, A, sums, lo, hi, k);
    }
  }

  /** One more block sum folds one more block of A. */
  lemma FoldNextBlock<T(!new)>(m: Monoid<T>, A: seq<T>, sums: seq<T>, lo: nat, hi: nat, k: nat)
    requires IsMonoid(m) && lo < hi <= |A| && k < |sums|
    requires Fold(m.f, m.identity, sums[..k]) == Fold(m.f, m.identity, A[..lo])
    requires sums[k] == Fold(m.f, m.identity, A[lo..hi])
    ensures Fold(m.f, m.identity, sums[..k + 1]) == Fold(m.f, m.identity, A[..hi])
  {
    assert sums[..k + 1][..k] == sums[..k];
    FoldShift(m, Fold(m.f, m.identity, A[..lo]), A[lo..hi]);
    FoldAppend(m.f, m.identity, A[..lo], A[lo..hi]);
    assert A[..lo] + A[lo..hi] == A[..hi];
  }

  /**
   * `reduce`: the identity for an empty sequence; a serial reduce when there
   * is one block or execution is sequential; otherwise each block is reduced
   * into Sums and Sums is reduced recursively, with the block size
   * `ReduceBlockSize(n)`. The result is the left fold of A from the identity.
   */
  method Reduce<T(!new)>(A: seq<T>, m: Monoid<T>, fl: Flags) returns (r: T)
    requires IsMonoid(m)
    ensures r == Fold(m.f, m.identity, A)
    ensures A == [] ==> r == m.identity
    decreases |A|
  {
    var n := |A|;
    var bs := ReduceBlockSize(n);
    var l := NumBlocks(n, bs);
    if l == 0 {
      NumBlocksIsCeiling(n, bs);
      return m.identity;
    }
    if l == 1 || fl.sequential {
      r := ReduceSerial(A, m);
      return;
    }
    var Sums := BlockReductions(A, m, bs);
    FewerBlocksThanElements(n, bs);
    r := Reduce(Sums[..], m, NoFlag);
    FoldOfBlockSums(m, A, Sums[..], bs, l);
    BoundaryEnds(n, bs);
    assert Sums[..][..l] == Sums[..];
    assert A[..n] == A;
  }
}
