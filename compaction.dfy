/**
 * The compaction engine: `sum_bools_serial`, `pack_serial`,
 * `pack_serial_at`, `pack`, `pack_out`, `filter`, `filter_out` and
 * `pack_index`. Each blocked operation runs three passes over blocks of
 * BlockSize elements: count the kept elements of each block, turn the counts
 * into write offsets with an exclusive in-place scan, and let each block write
 * its kept elements at its offset. The passes run here one block after another.
 * A slice `S.cut(s, e)` is modelled as the sequence or array S with the range
 * [s, e).
 */
module Compaction {
  import opened Monoids
  import opened Blocks
  import opened Scanning
  import opened CompactionSpec

  /** The number of true flags in I[s..e). */
  method SumBoolsSerial(I: seq<bool>, s: nat, e: nat) returns (r: nat)
    requires s <= e <= |I|
    ensures CountTo(I, IsTrue, s) + r == CountTo(I, IsTrue, e)
    ensures r <= e - s
  {
    r := 0;
    for j := s to e
      invariant CountTo(I, IsTrue, s) + r == CountTo(I, IsTrue, j)
      invariant r <= j - s
    {
      r := r + if I[j] then 1 else 0;
    }
  }

  /** Sequential pack into a new sequence of exactly the counted length. */
  method PackSerial<T(0)>(In: seq<T>, Fl: seq<bool>) returns (Out: seq<T>)
    requires |Fl| == |In|
    ensures Out == Kept(In, Fl, IsTrue)
  {
    var n := |In|;
    var m := SumBoolsSerial(Fl, 0, n);
    var O := new T[m];
    var k := 0;
    for i := 0 to n
      invariant k == CountTo(Fl, IsTrue, i) <= m
      invariant O[..k] == KeepTo(In, Fl, IsTrue, i)
    {
      CountMonotone(Fl, IsTrue, i + 1, n);
      if Fl[i] {
        O[k] := In[i];
        k := k + 1;
      }
    }
    Out := O[..];
  }

  /**
   * Sequential pack of the range [s, e) into Out[lo..hi); returns the number
   * written. The output range must have room for every kept element.
   */
  method PackSerialAt<T>(In: seq<T>, Fl: seq<bool>, s: nat, e: nat, Out: array<T>, lo: nat, hi: nat) returns (k: nat)
    requires s <= e <= |In| && e <= |Fl|
    requires lo <= hi <= Out.Length
    requires CountTo(Fl, IsTrue, e) <= CountTo(Fl, IsTrue, s) + (hi - lo)
    modifies Out
    ensures CountTo(Fl, IsTrue, s) + k == CountTo(Fl, IsTrue, e)
    ensures KeepTo(In, Fl, IsTrue, s) + Out[lo..lo + k] == KeepTo(In, Fl, IsTrue, e)
    ensures forall j :: 0 <= j < Out.Length && !(lo <= j < lo + k) ==> Out[j] == old(Out[j])
  {
    k := 0;
    for i := s to e
      invariant CountTo(Fl, IsTrue, s) + k == CountTo(Fl, IsTrue, i)
      invariant lo + k <= hi
      invariant KeepTo(In, Fl, IsTrue, s) + Out[lo..lo + k] == KeepTo(In, Fl, IsTrue, i)
      invariant forall j :: 0 <= j < Out.Length && !(lo <= j < lo + k) ==> Out[j] == old(Out[j])
    {
      CountMonotone(Fl, IsTrue, i + 1, e);
      if Fl[i] {
        Out[lo + k] := In[i];
        k := k + 1;
      }
    }
  }

  /** First pass of `pack` and `pack_out`: the number of true flags in each block of the first n. */
  method BlockTrueCounts(Fl: seq<bool>, n: nat) returns (Sums: array<nat>)
    requires n <= |Fl|
    ensures fresh(Sums)
    ensures Sums.Length == NumBlocks(n, BlockSize)
    ensures forall k :: 0 <= k < Sums.Length ==>
      CountTo(Fl, IsTrue, Boundary(n, BlockSize, k)) + Sums[k] == CountTo(Fl, IsTrue, Boundary(n, BlockSize, k + 1))
  {
    var l := NumBlocks(n, BlockSize);
    Sums := new nat[l];
    for i := 0 to l
      invariant forall k :: 0 <= k < i ==>
        CountTo(Fl, IsTrue, Boundary(n, BlockSize, k)) + Sums[k] == CountTo(Fl, IsTrue, Boundary(n, BlockSize, k + 1))
    {
      BlockSlice(n, BlockSize, i);
      Sums[i] := SumBoolsSerial(Fl, i * BlockSize, Min(i * BlockSize + BlockSize, n));
    }
  }

  /** First pass of `filter` and `filter_out`: compute the flags f(In[j]) and count each block's true ones. */
  method BlockPredicateCounts<T>(In: seq<T>, f: T -> bool) returns (Sums: array<nat>, Fl: array<bool>)
    ensures fresh(Sums) && fresh(Fl)
    ensures Fl[..] == Map(f, In)
    ensures Sums.Length == NumBlocks(|In|, BlockSize)
    ensures forall k :: 0 <= k < Sums.Length ==>
      CountTo(Fl[..], IsTrue, Boundary(|In|, BlockSize, k)) + Sums[k] == CountTo(Fl[..], IsTrue, Boundary(|In|, BlockSize, k + 1))
  {
    var n := |In|;
    var l := NumBlocks(n, BlockSize);
    ghost var flags := Map(f, In);
    Sums := new nat[l];
    Fl := new bool[n];
    for i := 0 to l
      invariant BlocksFlagged(Fl[..], Sums[..], flags, i)
    {
      FlagAndCountBlock(In, f, Fl, Sums, i, flags);
    }
    BoundaryEnds(n, BlockSize);
    assert Fl[..] == flags;
    assert BlocksCounted(Sums[..], flags, IsTrue, l);
  }

  /**
   * After i blocks of the first pass of `filter`: the flags of those blocks
   * are set and their counts stored.
   */
  ghost predicate BlocksFlagged(Fl: seq<bool>, Sums: seq<nat>, flags: seq<bool>, i: nat) {
    && |Fl| == |flags|
    && i <= |Sums| == NumBlocks(|flags|, BlockSize)
    && (forall j :: 0 <= j < Boundary(|flags|, BlockSize, i) ==> Fl[j] == flags[j])
    && BlocksCounted(Sums, flags, IsTrue, i)
  }

  /** One block of the first pass of `filter`: flag block i and store its count in Sums[i]. */
  method FlagAndCountBlock<T>(In: seq<T>, f: T -> bool, Fl: array<bool>, Sums: array<nat>, i: nat, ghost flags: seq<bool>)
    requires flags == Map(f, In)
    requires BlocksFlagged(Fl[..], Sums[..], flags, i) && i < Sums.Length
    modifies Fl, Sums
    ensures BlocksFlagged(Fl[..], Sums[..], flags, i + 1)
  {
    var n := |In|;
    BlockSlice(n, BlockSize, i);
    var s, e := i * BlockSize, Min(i * BlockSize + BlockSize, n);
    var r := FlagBlock(In, f, Fl, s, e);
    ghost var before := Sums[..];
    Sums[i] := r;
    BlockCountedNext(before, Sums[..], flags, IsTrue, i);
  }

  /** The body of the first pass of `filter`: set Fl[j] := f(In[j]) on [s, e) and count the true flags. */
  method FlagBlock<T>(In: seq<T>, f: T -> bool, Fl: array<bool>, s: nat, e: nat) returns (r: nat)
    requires s <= e <= |In| == Fl.Length
    modifies Fl
    ensures CountTo(Map(f, In), IsTrue, s) + r == CountTo(Map(f, In), IsTrue, e)
    ensures forall j :: s <= j < e ==> Fl[j] == f(In[j])
    ensures forall j :: 0 <= j < Fl.Length && !(s <= j < e) ==> Fl[j] == old(Fl[j])
  {
    r := 0;
    for j := s to e
      invariant CountTo(Map(f, In), IsTrue, s) + r == CountTo(Map(f, In), IsTrue, j)
      invariant forall j' :: s <= j' < j ==> Fl[j'] == f(In[j'])
      invariant forall j' :: 0 <= j' < Fl.Length && !(s <= j' < j) ==> Fl[j'] == old(Fl[j'])
    {
      Fl[j] := f(In[j]);
      r := r + if Fl[j] then 1 else 0;
    }
  }

  /**
   * Second pass of every blocked pack: the exclusive in-place scan that turns
   * the per-block counts into the offsets where the blocks write, and their total.
   */
  method BlockOffsets<X>(Sums: array<nat>, ghost Fl: seq<X>, ghost n: nat, ghost p: X -> bool) returns (m: nat)
    requires n <= |Fl|
    requires Sums.Length == NumBlocks(n, BlockSize)
    requires forall k :: 0 <= k < Sums.Length ==>
      CountTo(Fl, p, Boundary(n, BlockSize, k)) + Sums[k] == CountTo(Fl, p, Boundary(n, BlockSize, k + 1))
    modifies Sums
    ensures forall k :: 0 <= k < Sums.Length ==> Sums[k] == CountTo(Fl, p, Boundary(n, BlockSize, k))
    ensures m == CountTo(Fl, p, n)
  {
    ghost var counts := Sums[..];
    m := ScanInplace(Sums, AddMonoid(), NoFlag);
    OffsetsAreCounts(Fl, n, p, counts, Sums[..]);
  }

  /**
   * Last pass of the blocked packs over the first n elements: block i writes
   * its kept elements into Out[offsets[i]..next), where next is offsets[i + 1],
   * or m for the last block. The offsets are the exclusive prefix counts, so
   * the writes of the blocks are disjoint and adjacent.
   */
  method PackBlocks<T>(In: seq<T>, Fl: seq<bool>, n: nat, offsets: seq<nat>, m: nat, Out: array<T>)
    requires n <= |In| && n <= |Fl|
    requires |offsets| == NumBlocks(n, BlockSize)
    requires forall k :: 0 <= k < |offsets| ==> offsets[k] == CountTo(Fl, IsTrue, Boundary(n, BlockSize, k))
    requires m == CountTo(Fl, IsTrue, n) <= Out.Length
    modifies Out
    ensures Out[..m] == KeepTo(In, Fl, IsTrue, n)
    ensures Out[m..] == old(Out[m..])
  {
    var l := |offsets|;
    BoundaryEnds(n, BlockSize);
    for i := 0 to l
      invariant CountTo(Fl, IsTrue, Boundary(n, BlockSize, i)) <= m
      invariant Out[..CountTo(Fl, IsTrue, Boundary(n, BlockSize, i))] == KeepTo(In, Fl, IsTrue, Boundary(n, BlockSize, i))
      invariant Out[m..] == old(Out[m..])
    {
      BlockSlice(n, BlockSize, i);
      var s, e := i * BlockSize, Min(i * BlockSize + BlockSize, n);
      var next := if i == l - 1 then m else offsets[i + 1];
      assert next == CountTo(Fl, IsTrue, e);
      CountMonotone(Fl, IsTrue, e, n);
      CountMonotone(Fl, IsTrue, s, e);
      ghost var before := Out[..];
      var k := PackSerialAt(In, Fl, s, e, Out, offsets[i], next);
      PackedBlockExtends(before, Out[..], KeepTo(In, Fl, IsTrue, s), KeepTo(In, Fl, IsTrue, e), offsets[i], k, m);
      assert Out[..] == Out[..Out.Length];
    }
  }

  /**
   * A region [0, lo) holding a prefix of the selection, followed by k newly
   * written elements that extend it, and nothing else changed: the region
   * [0, lo + k) holds the extended selection and [m, ..) is as it was.
   */
  lemma PackedBlockExtends<T>(before: seq<T>, after: seq<T>, prefix: seq<T>, extended: seq<T>, lo: nat, k: nat, m: nat)
    requires |before| == |after| && lo + k <= m <= |after|
    requires before[..lo] == prefix
    requires prefix + after[lo..lo + k] == extended
    requires forall j :: 0 <= j < |after| && !(lo <= j < lo + k) ==> after[j] == before[j]
    ensures after[..lo + k] == extended
    ensures after[m..] == before[m..]
  {
    assert after[..lo] == before[..lo];
    assert after[..lo + k] == after[..lo] + after[lo..lo + k];
  }

  /**
   * `pack`: the elements of In whose flag is true, in order. One block, or the
   * sequential flag, selects the sequential version.
   */
  method Pack<T(0)>(In: seq<T>, Fl: seq<bool>, fl: Flags) returns (Out: seq<T>)
    requires |Fl| == |In|
    ensures Out == Kept(In, Fl, IsTrue)
  {
    var n := |In|;
    var l := NumBlocks(n, BlockSize);
    if l == 1 || fl.sequential {
      Out := PackSerial(In, Fl);
      return;
    }
    var Sums := BlockTrueCounts(Fl, n);
    var m := BlockOffsets(Sums, Fl, n, IsTrue);
    var O := new T[m];
    PackBlocks(In, Fl, n, Sums[..], m, O);
    Out := O[..];
  }

  /**
   * `pack_out`: pack In by the first |In| flags into the front of Out and
   * return the number written; the rest of Out is untouched.
   */
  method PackOut<T>(In: seq<T>, Fl: seq<bool>, Out: array<T>, fl: Flags) returns (m: nat)
    requires |In| <= |Fl|
    requires CountTo(Fl, IsTrue, |In|) <= Out.Length
    modifies Out
    ensures m == CountTo(Fl, IsTrue, |In|)
    ensures Out[..m] == Kept(In, Fl, IsTrue)
    ensures Out[m..] == old(Out[m..])
  {
    var n := |In|;
    var l := NumBlocks(n, BlockSize);
    if l <= 1 || fl.sequential {
      m := PackSerialAt(In, Fl, 0, n, Out, 0, Out.Length);
      assert Out[..m] == Out[0..m];
      return;
    }
    var Sums := BlockTrueCounts(Fl, n);
    m := BlockOffsets(Sums, Fl, n, IsTrue);
    PackBlocks(In, Fl, n, Sums[..], m, Out);
  }

  /** `filter`: the elements of In that satisfy f, in order. */
  method Filter<T(0)>(In: seq<T>, f: T -> bool) returns (Out: seq<T>)
    ensures Out == Kept(In, Map(f, In), IsTrue)
    ensures Out == Kept(In, In, f)
    ensures forall x :: x in Out <==> x in In && f(x)
  {
    var n := |In|;
    var Sums, Fl := BlockPredicateCounts(In, f);
    var m := BlockOffsets(Sums, Fl[..], n, IsTrue);
    var O := new T[m];
    PackBlocks(In, Fl[..], n, Sums[..], m, O);
    Out := O[..];
    KeepMapped(In, In, f, n);
    forall x
      ensures x in Out <==> x in In && f(x)
    {
      KeepMembers(In, In, f, x);
    }
  }

  /**
   * `filter_out`: write the elements of In that satisfy f to the front of Out
   * and return their number; the rest of Out is untouched.
   */
  method FilterOut<T>(In: seq<T>, Out: array<T>, f: T -> bool) returns (m: nat)
    requires Count(In, f) <= Out.Length
    modifies Out
    ensures m == Count(In, f)
    ensures Out[..m] == Kept(In, In, f)
    ensures Out[m..] == old(Out[m..])
  {
    var n := |In|;
    KeepMapped(In, In, f, n);
    var Sums, Fl := BlockPredicateCounts(In, f);
    m := BlockOffsets(Sums, Fl[..], n, IsTrue);
    PackBlocks(In, Fl[..], n, Sums[..], m, Out);
  }

  /** `pack_index`: the positions of the true flags, in increasing order. */
  method PackIndex(Fl: seq<bool>, fl: Flags) returns (Out: seq<nat>)
    ensures Out == KeptIndices(Fl, IsTrue)
    ensures forall a, b :: 0 <= a < b < |Out| ==> Out[a] < Out[b]
    ensures forall i: nat :: i in Out <==> i < |Fl| && Fl[i]
  {
    Out := Pack(Iota(|Fl|), Fl, fl);
    KeptIndicesExact(Fl, IsTrue);
  }
}
