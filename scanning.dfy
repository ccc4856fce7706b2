/**
 * The scan engine: `scan_serial`, the three-phase blocked `scan_`,
 * `scan_inplace` and the two `scan` overloads.
 */
module Scanning {
  import opened Monoids
  import opened Blocks
  import opened Reduction

  /**
   * The scan of s from acc: position i holds the fold of s[..i] (exclusive
   * scan) or of s[..i+1] (inclusive scan).
   */
  function ScanOf<T>(f: (T, T) -> T, acc: T, s: seq<T>, inclusive: bool): (r: seq<T>)
    ensures |r| == |s|
  {
    seq(|s|, i requires 0 <= i < |s| => ScanEntry(f, acc, s, i, inclusive))
  }

  /** Entry i of the scan of s from acc. */
  function ScanEntry<T>(f: (T, T) -> T, acc: T, s: seq<T>, i: nat, inclusive: bool): T
    requires i < |s|
  {
    Fold(f, acc, if inclusive then s[..i + 1] else s[..i])
  }

  /**
   * The inclusive scan is the exclusive scan with the element itself
   * combined in, and the exclusive scan shifted by one is the inclusive one.
   */
  lemma ExclusiveInclusive<T>(f: (T, T) -> T, acc: T, s: seq<T>, i: nat)
    requires i < |s|
    ensures ScanOf(f, acc, s, true)[i] == f(ScanOf(f, acc, s, false)[i], s[i])
    ensures i + 1 < |s| ==> ScanOf(f, acc, s, false)[i + 1] == ScanOf(f, acc, s, true)[i]
  {
    assert s[..i + 1][..i] == s[..i];
  }

  /**
   * `scan_serial` on the slices In[lo..hi) and Out[lo..hi), which may be the
   * same storage: In[i] is read before Out[i] is written, so the result is
   * the scan of the input as it was on entry. Returns the total.
   */
  method ScanSerial<T>(In: array<T>, Out: array<T>, lo: nat, hi: nat, m: Monoid<T>, offset: T, fl: Flags)
    returns (r: T)
    requires lo <= hi <= In.Length && hi <= Out.Length
    modifies Out
    ensures Out[lo..hi] == ScanOf(m.f, offset, old(In[lo..hi]), fl.inclusive)
    ensures r == Fold(m.f, offset, old(In[lo..hi]))
    ensures forall k :: 0 <= k < Out.Length && !(lo <= k < hi) ==> Out[k] == old(Out[k])
  {
    ghost var input := In[lo..hi];
    var n := hi - lo;
    r := offset;
    if fl.inclusive {
      for i := 0 to n
        invariant r == Fold(m.f, offset, input[..i])
        invariant forall k :: lo <= k < lo + i ==> Out[k] == ScanEntry(m.f, offset, input, k - lo, true)
        invariant forall k :: lo + i <= k < hi ==> In[k] == input[k - lo]
        invariant forall k :: 0 <= k < Out.Length && !(lo <= k < lo + i) ==> Out[k] == old(Out[k])
      {
        assert input[..i + 1][..i] == input[..i];
        r := m.f(r, In[lo + i]);
        Out[lo + i] := r;
      }
    } else {
      for i := 0 to n
        invariant r == Fold(m.f, offset, input[..i])
        invariant forall k :: lo <= k < lo + i ==> Out[k] == ScanEntry(m.f, offset, input, k - lo, false)
        invariant forall k :: lo + i <= k < hi ==> In[k] == input[k - lo]
        invariant forall k :: 0 <= k < Out.Length && !(lo <= k < lo + i) ==> Out[k] == old(Out[k])
      {
        assert input[..i + 1][..i] == input[..i];
        var t := In[lo + i];
        Out[lo + i] := r;
        r := m.f(r, t);
      }
    }
    assert input[..n] == input;
    assert forall k :: 0 <= k < n ==> Out[lo..hi][k] == Out[lo + k];
  }

  /**
   * A block's scan seeded with the fold of everything before the block
   * continues the scan of the whole input.
   */
  lemma BlockScanned<T>(f: (T, T) -> T, acc: T, A: seq<T>, s: nat, e: nat, inclusive: bool, blockOut: seq<T>)
    requires s <= e <= |A|
    requires blockOut == ScanOf(f, Fold(f, acc, A[..s]), A[s..e], inclusive)
    ensures forall k :: s <= k < e ==> blockOut[k - s] == ScanEntry(f, acc, A, k, inclusive)
  {
    forall k | s <= k < e
      ensures blockOut[k - s] == ScanEntry(f, acc, A, k, inclusive)
    {
      var j := if inclusive then k - s + 1 else k - s;
      assert A[s..e][..j] == A[s..s + j];
      FoldAppend(f, acc, A[..s], A[s..s + j]);
      assert A[..s] + A[s..s + j] == A[..s + j];
    }
  }

  /**
   * After the exclusive scan of the block sums, entry k is the fold of every
   * block before block k, i.e. of the input before Boundary(k).
   */
  lemma {:induction false} ScannedBlockSums<T(!new)>(m: Monoid<T>, input: seq<T>, blockSums: seq<T>, scanned: seq<T>)
    requires IsMonoid(m)
    requires |blockSums| == NumBlocks(|input|, BlockSize)
    requires forall k :: 0 <= k < |blockSums| ==>
      blockSums[k] == Fold(m.f, m.identity, Block(input, BlockSize, k))
    requires scanned == ScanOf(m.f, m.identity, blockSums, false)
    ensures forall k :: 0 <= k < |scanned| ==>
      scanned[k] == Fold(m.f, m.identity, input[..Boundary(|input|, BlockSize, k)])
  {
    forall k | 0 <= k < |scanned|
      ensures scanned[k] == Fold(m.f, m.identity, input[..Boundary(|input|, BlockSize, k)])
    {
      FoldOfBlockSums(m, input, blockSums, BlockSize, k);
    }
  }

  /** Phase 1 of `scan_`: each block of In reduced serially into a new Sums array. */
  method ReduceBlocks<T(!new)>(In: array<T>, m: Monoid<T>) returns (Sums: array<T>)
    requires IsMonoid(m)
    ensures fresh(Sums) && Sums.Length == NumBlocks(In.Length, BlockSize)
    ensures forall k :: 0 <= k < Sums.Length ==>
      Sums[k] == Fold(m.f, m.identity, Block(In[..], BlockSize, k))
  {
    var n := In.Length;
    var l := NumBlocks(n, BlockSize);
    Sums := new T[l](_ => m.identity);
    for i := 0 to l
      modifies Sums
      invariant forall k :: 0 <= k < i ==>
        Sums[k] == Fold(m.f, m.identity, Block(In[..], BlockSize, k))
    {
      BlockSlice(n, BlockSize, i);
      var s := i * BlockSize;
      var e := Min(s + BlockSize, n);
      Sums[i] := ReduceSerial(In[s..e], m);
    }
  }

  /** A sequence that agrees pointwise with the folds of the prefixes of `input` is its scan. */
  lemma PointwiseScan<T>(f: (T, T) -> T, acc: T, input: seq<T>, out: seq<T>, inclusive: bool)
    requires |out| == |input|
    requires forall k :: 0 <= k < |out| ==> out[k] == ScanEntry(f, acc, input, k, inclusive)
    ensures out == ScanOf(f, acc, input, inclusive)
  {
  }

  /**
   * Out[..b] holds the scan of the input, and In still holds the input from
   * b on (In and Out may be the same array).
   */
  ghost predicate ScannedBefore<T>(inNow: seq<T>, outNow: seq<T>, input: seq<T>, f: (T, T) -> T, acc: T, inclusive: bool, b: nat) {
    && |inNow| == |input| <= |outNow| && b <= |input|
    && (forall k :: b <= k < |input| ==> inNow[k] == input[k])
    && (forall k :: 0 <= k < b ==> outNow[k] == ScanEntry(f, acc, input, k, inclusive))
  }

  /** One block [s, e) of phase 3 of `scan_`, seeded with the fold of the input before s. */
  method ScanBlock<T>(In: array<T>, Out: array<T>, s: nat, e: nat, m: Monoid<T>, seed: T, fl: Flags, ghost input: seq<T>)
    requires s <= e <= In.Length <= Out.Length
    requires ScannedBefore(In[..], Out[..], input, m.f, m.identity, fl.inclusive, s)
    requires seed == Fold(m.f, m.identity, input[..s])
    modifies Out
    ensures ScannedBefore(In[..], Out[..], input, m.f, m.identity, fl.inclusive, e)
    ensures Out[In.Length..] == old(Out[In.Length..])
  {
    assert In[s..e] == input[s..e];
    var blockTotal := ScanSerial(In, Out, s, e, m, seed, fl);
    BlockScanned(m.f, m.identity, input, s, e, fl.inclusive, Out[s..e]);
  }

  /**
   * Phase 3 of `scan_`: block i of In is scanned serially into the same block
   * of Out, seeded with Sums[i], the fold of everything before the block.
   */
  method ScanBlocks<T>(In: array<T>, Out: array<T>, Sums: array<T>, m: Monoid<T>, fl: Flags)
    requires In.Length <= Out.Length && Sums != Out
    requires Sums.Length == NumBlocks(In.Length, BlockSize)
    requires forall k :: 0 <= k < Sums.Length ==>
      Sums[k] == Fold(m.f, m.identity, In[..Boundary(In.Length, BlockSize, k)])
    modifies Out
    ensures Out[..In.Length] == ScanOf(m.f, m.identity, old(In[..]), fl.inclusive)
    ensures Out[In.Length..] == old(Out[In.Length..])
  {
    var n := In.Length;
    var l := Sums.Length;
    ghost var input := In[..];
    BoundaryEnds(n, BlockSize);
    for i := 0 to l
      invariant ScannedBefore(In[..], Out[..], input, m.f, m.identity, fl.inclusive, Boundary(n, BlockSize, i))
      invariant Out[n..] == old(Out[n..])
    {
      BlockSlice(n, BlockSize, i);
      var s := i * BlockSize;
      var e := Min(s + BlockSize, n);
      ScanBlock(In, Out, s, e, m, Sums[i], fl, input);
    }
    PointwiseScan(m.f, m.identity, input, Out[..n], fl.inclusive);
  }

  /** The three phases of `scan_` on more than two blocks. */
  method ScanBlocked<T(!new)>(In: array<T>, Out: array<T>, m: Monoid<T>, fl: Flags) returns (total: T)
    requires IsMonoid(m)
    requires In.Length <= Out.Length
    modifies Out
    ensures Out[..In.Length] == ScanOf(m.f, m.identity, old(In[..]), fl.inclusive)
    ensures total == Fold(m.f, m.identity, old(In[..]))
    ensures Out[In.Length..] == old(Out[In.Length..])
  {
    var n := In.Length;
    var l := NumBlocks(n, BlockSize);
    ghost var input := In[..];
    var Sums := ReduceBlocks(In, m);
    ghost var blockSums := Sums[..];
    assert blockSums[0..l] == blockSums;
    total := ScanSerial(Sums, Sums, 0, l, m, m.identity, NoFlag);
    assert Sums[0..l] == Sums[..];
    ScannedBlockSums(m, input, blockSums, Sums[..]);
    assert total == Fold(m.f, m.identity, input) by {
      FoldOfBlockSums(m, input, blockSums, BlockSize, l);
      BoundaryEnds(n, BlockSize);
      assert blockSums[..l] == blockSums && input[..n] == input;
    }
    ScanBlocks(In, Out, Sums, m, fl);
  }

  /**
   * `scan_`: with at most two blocks, or when sequential, a serial scan from
   * the identity; otherwise (1) each block is reduced into Sums, (2) Sums is
   * exclusively scanned in place, so Sums[i] becomes the fold of every block
   * before block i, and (3) each block is scanned serially seeded with Sums[i].
   * Both paths give the serial scan of the input; Out may be In.
   */
  method Scan_<T(!new)>(In: array<T>, Out: array<T>, m: Monoid<T>, fl: Flags) returns (total: T)
    requires IsMonoid(m)
    requires In.Length <= Out.Length
    modifies Out
    ensures Out[..In.Length] == ScanOf(m.f, m.identity, old(In[..]), fl.inclusive)
    ensures total == Fold(m.f, m.identity, old(In[..]))
    ensures Out[In.Length..] == old(Out[In.Length..])
  {
    var n := In.Length;
    var l := NumBlocks(n, BlockSize);
    if l <= 2 || fl.sequential {
      assert In[0..n] == In[..];
      total := ScanSerial(In, Out, 0, n, m, m.identity, fl);
      assert Out[0..n] == Out[..n];
    } else {
      total := ScanBlocked(In, Out, m, fl);
    }
  }

  /** `scan_inplace`: the scan written back over its input; returns the total. */
  method ScanInplace<T(!new)>(In: array<T>, m: Monoid<T>, fl: Flags) returns (total: T)
    requires IsMonoid(m)
    modifies In
    ensures In[..] == ScanOf(m.f, m.identity, old(In[..]), fl.inclusive)
    ensures total == Fold(m.f, m.identity, old(In[..]))
  {
    total := Scan_(In, In, m, fl);
    assert In[..In.Length] == In[..];
  }

  /** `scan(In, m, fl)`: the scan into a new sequence, with the total. */
  method Scan<T(!new)>(In: array<T>, m: Monoid<T>, fl: Flags) returns (out: seq<T>, total: T)
    requires IsMonoid(m)
    ensures out == ScanOf(m.f, m.identity, In[..], fl.inclusive)
    ensures total == Fold(m.f, m.identity, In[..])
  {
    var Out := new T[In.Length](_ => m.identity);
    total := Scan_(In, Out, m, fl);
    assert Out[..In.Length] == Out[..];
    out := Out[..];
  }

  /** `scan(sequence<T>&&, m, fl)`: the input buffer is moved into the result and scanned in place. */
  method ScanMoved<T(!new)>(In: array<T>, m: Monoid<T>, fl: Flags) returns (Out: array<T>, total: T)
    requires IsMonoid(m)
    modifies In
    ensures Out == In
    ensures Out[..] == ScanOf(m.f, m.identity, old(In[..]), fl.inclusive)
    ensures total == Fold(m.f, m.identity, old(In[..]))
  {
    Out := In;
    total := Scan_(Out, Out, m, fl);
    assert Out[..Out.Length] == Out[..];
  }
}
