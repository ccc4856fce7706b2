/**
 * What the compaction engine computes: the stable selection of the elements
 * whose flag satisfies a predicate, and the number of such flags. Both are
 * defined on prefixes, so that a slice [s, e) of a sequence is described by
 * the difference between the prefixes up to e and up to s.
 */
module CompactionSpec {
  import opened Blocks
  import opened Monoids
  import opened Scanning

  /** A byte flag, as `split_three` reads it (`unsigned char`). */
  newtype uint8 = x: int | 0 <= x < 256

  /** Flag predicates; named functions, so that each is one function value. */
  predicate IsTrue(b: bool) { b }
  predicate IsFalse(b: bool) { !b }
  predicate IsZero(c: uint8) { c == 0 }
  predicate IsOne(c: uint8) { c == 1 }
  predicate IsOther(c: uint8) { c != 0 && c != 1 }

  /** The number of flags among the first j that satisfy p. */
  function CountTo<X>(Fl: seq<X>, p: X -> bool, j: nat): nat
    requires j <= |Fl|
  {
    if j == 0 then 0 else CountTo(Fl, p, j - 1) + (if p(Fl[j - 1]) then 1 else 0)
  }

  /** Sums[k], for every block k < i, is the number of flags in block k that satisfy p. */
  ghost predicate BlocksCounted<X>(Sums: seq<nat>, Fl: seq<X>, p: X -> bool, i: nat) {
    && i <= |Sums|
    && forall k :: 0 <= k < i ==>
      CountTo(Fl, p, Boundary(|Fl|, BlockSize, k)) + Sums[k] == CountTo(Fl, p, Boundary(|Fl|, BlockSize, k + 1))
  }

  /** Storing the count of block i extends BlocksCounted by one block. */
  lemma BlockCountedNext<X>(before: seq<nat>, after: seq<nat>, Fl: seq<X>, p: X -> bool, i: nat)
    requires BlocksCounted(before, Fl, p, i) && i < |before|
    requires i < |after| && after == before[i := after[i]]
    requires CountTo(Fl, p, Boundary(|Fl|, BlockSize, i)) + after[i] == CountTo(Fl, p, Boundary(|Fl|, BlockSize, i + 1))
    ensures BlocksCounted(after, Fl, p, i + 1)
  {
  }

  /** The elements among the first j of In whose flag satisfies p, in their original order. */
  function KeepTo<T, X>(In: seq<T>, Fl: seq<X>, p: X -> bool, j: nat): seq<T>
    requires j <= |In| && j <= |Fl|
  {
    if j == 0 then [] else KeepTo(In, Fl, p, j - 1) + (if p(Fl[j - 1]) then [In[j - 1]] else [])
  }

  /** The number of flags that satisfy p. */
  function Count<X>(Fl: seq<X>, p: X -> bool): nat
  {
    CountTo(Fl, p, |Fl|)
  }

  /** The elements of In whose flag satisfies p, in their original order. */
  function Kept<T, X>(In: seq<T>, Fl: seq<X>, p: X -> bool): seq<T>
    requires |In| <= |Fl|
  {
    KeepTo(In, Fl, p, |In|)
  }

  /** The index sequence 0, 1, ..., n-1 (the delayed sequence `pack_index` packs). */
  function Iota(n: nat): (r: seq<nat>)
    ensures |r| == n && forall i :: 0 <= i < n ==> r[i] == i
  {
    seq(n, i requires 0 <= i < n => i)
  }

  /** The flags f(s[0]), ..., f(s[n-1]). */
  function Map<X>(f: X -> bool, s: seq<X>): (r: seq<bool>)
    ensures |r| == |s| && forall i :: 0 <= i < |s| ==> r[i] == f(s[i])
  {
    seq(|s|, i requires 0 <= i < |s| => f(s[i]))
  }

  /** The positions among the first j whose flag satisfies p. */
  function IndicesTo<X>(Fl: seq<X>, p: X -> bool, j: nat): seq<nat>
    requires j <= |Fl|
  {
    KeepTo(Iota(|Fl|), Fl, p, j)
  }

  /** The positions of the flags that satisfy p. */
  function KeptIndices<X>(Fl: seq<X>, p: X -> bool): seq<nat>
  {
    IndicesTo(Fl, p, |Fl|)
  }

  /** The selection holds exactly one element per satisfying flag. */
  lemma {:induction false} KeepLength<T, X>(In: seq<T>, Fl: seq<X>, p: X -> bool, j: nat)
    requires j <= |In| && j <= |Fl|
    ensures |KeepTo(In, Fl, p, j)| == CountTo(Fl, p, j)
  {
    if j > 0 {
      KeepLength(In, Fl, p, j - 1);
    }
  }

  /** Counting up to a later position counts at least as many, and at most one more per position. */
  lemma {:induction false} CountMonotone<X>(Fl: seq<X>, p: X -> bool, i: nat, j: nat)
    requires i <= j <= |Fl|
    ensures CountTo(Fl, p, i) <= CountTo(Fl, p, j) <= CountTo(Fl, p, i) + (j - i)
    decreases j
  {
    if i < j {
      CountMonotone(Fl, p, i, j - 1);
    }
  }

  /** Every flag is false or true. */
  lemma {:induction false} TwoWayCounts(Fl: seq<bool>, j: nat)
    requires j <= |Fl|
    ensures CountTo(Fl, IsFalse, j) + CountTo(Fl, IsTrue, j) == j
  {
    if j > 0 {
      TwoWayCounts(Fl, j - 1);
    }
  }

  /** Every byte flag is 0, 1 or something else. */
  lemma {:induction false} ThreeWayCounts(Fl: seq<uint8>, j: nat)
    requires j <= |Fl|
    ensures CountTo(Fl, IsZero, j) + CountTo(Fl, IsOne, j) + CountTo(Fl, IsOther, j) == j
  {
    if j > 0 {
      ThreeWayCounts(Fl, j - 1);
    }
  }

  /** Selections by three predicates, exactly one of which holds for each flag, partition In. */
  lemma {:induction false} PartitionPermutation<T, X>(In: seq<T>, Fl: seq<X>, p: X -> bool, q: X -> bool, r: X -> bool, j: nat)
    requires j <= |In| && j <= |Fl|
    requires forall i :: 0 <= i < |Fl| ==> (p(Fl[i]) || q(Fl[i]) || r(Fl[i]))
    requires forall i :: 0 <= i < |Fl| ==> !(p(Fl[i]) && q(Fl[i])) && !(p(Fl[i]) && r(Fl[i])) && !(q(Fl[i]) && r(Fl[i]))
    ensures multiset(KeepTo(In, Fl, p, j) + KeepTo(In, Fl, q, j) + KeepTo(In, Fl, r, j)) == multiset(In[..j])
  {
    if j > 0 {
      PartitionPermutation(In, Fl, p, q, r, j - 1);
      assert In[..j - 1] + [In[j - 1]] == In[..j];
      AppendToOnePart(KeepTo(In, Fl, p, j - 1), KeepTo(In, Fl, q, j - 1), KeepTo(In, Fl, r, j - 1), In[..j - 1], In[j - 1],
        KeepTo(In, Fl, p, j), KeepTo(In, Fl, q, j), KeepTo(In, Fl, r, j));
    }
  }

  lemma AppendToOnePart<T>(a': seq<T>, b': seq<T>, c': seq<T>, init: seq<T>, x: T, a: seq<T>, b: seq<T>, c: seq<T>)
    requires multiset(a' + b' + c') == multiset(init)
    requires || (a == a' + [x] && b == b' && c == c')
             || (a == a' && b == b' + [x] && c == c')
             || (a == a' && b == b' && c == c' + [x])
    ensures multiset(a + b + c) == multiset(init + [x])
  {
  }

  /** The false-flagged part followed by the true-flagged part is a permutation of In. */
  lemma TwoWayPermutation<T>(In: seq<T>, Fl: seq<bool>)
    requires |In| == |Fl|
    ensures multiset(Kept(In, Fl, IsFalse) + Kept(In, Fl, IsTrue)) == multiset(In)
  {
    TwoWayPermutationUpTo(In, Fl, |In|);
    assert In[..|In|] == In;
  }

  lemma {:induction false} TwoWayPermutationUpTo<T>(In: seq<T>, Fl: seq<bool>, j: nat)
    requires j <= |In| && j <= |Fl|
    ensures multiset(KeepTo(In, Fl, IsFalse, j) + KeepTo(In, Fl, IsTrue, j)) == multiset(In[..j])
  {
    if j > 0 {
      TwoWayPermutationUpTo(In, Fl, j - 1);
      assert In[..j - 1] + [In[j - 1]] == In[..j];
      AppendToOneOfTwo(KeepTo(In, Fl, IsFalse, j - 1), KeepTo(In, Fl, IsTrue, j - 1), In[..j - 1], In[j - 1],
        KeepTo(In, Fl, IsFalse, j), KeepTo(In, Fl, IsTrue, j));
    }
  }

  lemma AppendToOneOfTwo<T>(a': seq<T>, b': seq<T>, init: seq<T>, x: T, a: seq<T>, b: seq<T>)
    requires multiset(a' + b') == multiset(init)
    requires (a == a' + [x] && b == b') || (a == a' && b == b' + [x])
    ensures multiset(a + b) == multiset(init + [x])
  {
  }

  /** The three parts of a three-way split together are a permutation of In. */
  lemma ThreeWayPermutation<T>(In: seq<T>, Fl: seq<uint8>)
    requires |In| == |Fl|
    ensures multiset(Kept(In, Fl, IsZero) + Kept(In, Fl, IsOne) + Kept(In, Fl, IsOther)) == multiset(In)
  {
    PartitionPermutation(In, Fl, IsZero, IsOne, IsOther, |In|);
    assert In[..|In|] == In;
  }

  /**
   * The selected indices are strictly increasing and are exactly the positions
   * whose flag satisfies p.
   */
  lemma KeptIndicesExact<X>(Fl: seq<X>, p: X -> bool)
    ensures forall a, b :: 0 <= a < b < |KeptIndices(Fl, p)| ==> KeptIndices(Fl, p)[a] < KeptIndices(Fl, p)[b]
    ensures forall i: nat :: i in KeptIndices(Fl, p) <==> i < |Fl| && p(Fl[i])
  {
    KeptIndicesUpTo(Fl, p, |Fl|);
  }

  lemma {:induction false} KeptIndicesUpTo<X>(Fl: seq<X>, p: X -> bool, j: nat)
    requires j <= |Fl|
    ensures forall a, b :: 0 <= a < b < |IndicesTo(Fl, p, j)| ==> IndicesTo(Fl, p, j)[a] < IndicesTo(Fl, p, j)[b]
    ensures forall i: nat :: i in IndicesTo(Fl, p, j) <==> i < j && p(Fl[i])
  {
    if j > 0 {
      KeptIndicesUpTo(Fl, p, j - 1);
      var prev := IndicesTo(Fl, p, j - 1);
      var idx := IndicesTo(Fl, p, j);
      assert idx == prev + (if p(Fl[j - 1]) then [j - 1] else []);
      forall a, b | 0 <= a < b < |idx|
        ensures idx[a] < idx[b]
      {
        if b >= |prev| {
          assert prev[a] in prev;
        }
      }
    }
  }

  /**
   * The selection from In is In read at the selected indices: a pack keeps
   * the flagged elements as a subsequence, in their original order.
   */
  lemma KeepByIndices<T, X>(In: seq<T>, Fl: seq<X>, p: X -> bool)
    requires |In| == |Fl|
    ensures |Kept(In, Fl, p)| == |KeptIndices(Fl, p)|
    ensures forall k :: 0 <= k < |KeptIndices(Fl, p)| ==>
      KeptIndices(Fl, p)[k] < |In| && Kept(In, Fl, p)[k] == In[KeptIndices(Fl, p)[k]]
  {
    KeepByIndicesUpTo(In, Fl, p, |In|);
  }

  lemma {:induction false} KeepByIndicesUpTo<T, X>(In: seq<T>, Fl: seq<X>, p: X -> bool, j: nat)
    requires |In| == |Fl| && j <= |In|
    ensures |KeepTo(In, Fl, p, j)| == |IndicesTo(Fl, p, j)|
    ensures forall k :: 0 <= k < |IndicesTo(Fl, p, j)| ==>
      IndicesTo(Fl, p, j)[k] < |In| && KeepTo(In, Fl, p, j)[k] == In[IndicesTo(Fl, p, j)[k]]
  {
    KeepLength(In, Fl, p, j);
    KeepLength(Iota(|Fl|), Fl, p, j);
    if j > 0 {
      KeepByIndicesUpTo(In, Fl, p, j - 1);
      var prev, idx := KeepTo(In, Fl, p, j - 1), IndicesTo(Fl, p, j - 1);
      assert KeepTo(In, Fl, p, j) == prev + (if p(Fl[j - 1]) then [In[j - 1]] else []);
      assert IndicesTo(Fl, p, j) == idx + (if p(Fl[j - 1]) then [j - 1] else []);
    }
  }

  /** Membership in the selection: x is selected iff it occurs at a position whose flag satisfies p. */
  lemma KeepMembers<T, X>(In: seq<T>, Fl: seq<X>, p: X -> bool, x: T)
    requires |In| <= |Fl|
    ensures x in Kept(In, Fl, p) <==> exists i :: 0 <= i < |In| && In[i] == x && p(Fl[i])
  {
    KeepMembersUpTo(In, Fl, p, x, |In|);
  }

  lemma {:induction false} KeepMembersUpTo<T, X>(In: seq<T>, Fl: seq<X>, p: X -> bool, x: T, j: nat)
    requires j <= |In| && j <= |Fl|
    ensures x in KeepTo(In, Fl, p, j) <==> exists i :: 0 <= i < j && In[i] == x && p(Fl[i])
  {
    if j > 0 {
      KeepMembersUpTo(In, Fl, p, x, j - 1);
    }
  }

  /** Packing with the flags f(Fl[i]) selects by f directly: `filter` is `pack` of the mapped flags. */
  lemma {:induction false} KeepMapped<T, X>(In: seq<T>, Fl: seq<X>, f: X -> bool, j: nat)
    requires j <= |In| && j <= |Fl|
    ensures KeepTo(In, Map(f, Fl), IsTrue, j) == KeepTo(In, Fl, f, j)
    ensures CountTo(Map(f, Fl), IsTrue, j) == CountTo(Fl, f, j)
  {
    if j > 0 {
      KeepMapped(In, Fl, f, j - 1);
    }
  }

  /**
   * If counts[k] counts the satisfying flags of block k, the exclusive scan of
   * counts gives at k the number of satisfying flags before block k: the offset
   * at which block k writes. Their total is the count over the first n flags.
   */
  lemma OffsetsAreCounts<X>(Fl: seq<X>, n: nat, p: X -> bool, counts: seq<nat>, offsets: seq<nat>)
    requires n <= |Fl|
    requires |counts| == NumBlocks(n, BlockSize)
    requires forall k :: 0 <= k < |counts| ==>
      CountTo(Fl, p, Boundary(n, BlockSize, k)) + counts[k] == CountTo(Fl, p, Boundary(n, BlockSize, k + 1))
    requires offsets == ScanOf(AddMonoid().f, 0, counts, false)
    ensures forall k :: 0 <= k < |offsets| ==> offsets[k] == CountTo(Fl, p, Boundary(n, BlockSize, k))
    ensures Fold(AddMonoid().f, 0, counts) == CountTo(Fl, p, n)
  {
    forall i | 0 <= i <= |counts|
      ensures Fold(AddMonoid().f, 0, counts[..i]) == CountTo(Fl, p, Boundary(n, BlockSize, i))
    {
      BlockCountsPrefix(Fl, n, p, counts, i);
    }
    BoundaryEnds(n, BlockSize);
    assert counts[..|counts|] == counts;
  }

  lemma {:induction false} BlockCountsPrefix<X>(Fl: seq<X>, n: nat, p: X -> bool, counts: seq<nat>, i: nat)
    requires n <= |Fl|
    requires i <= |counts| == NumBlocks(n, BlockSize)
    requires forall k :: 0 <= k < |counts| ==>
      CountTo(Fl, p, Boundary(n, BlockSize, k)) + counts[k] == CountTo(Fl, p, Boundary(n, BlockSize, k + 1))
    ensures Fold(AddMonoid().f, 0, counts[..i]) == CountTo(Fl, p, Boundary(n, BlockSize, i))
  {
    if i == 0 {
      BoundaryEnds(n, BlockSize);
    } else {
      BlockCountsPrefix(Fl, n, p, counts, i - 1);
      assert counts[..i][..i - 1] == counts[..i - 1];
    }
  }

  /**
   * Writing x at position a, just past a region [lo, a), appends x to that
   * region and leaves every region [lo2, hi2) that does not hold a as it was.
   */
  lemma WriteAppends<T>(before: seq<T>, after: seq<T>, lo: nat, a: nat, x: T, lo2: nat, hi2: nat)
    requires lo <= a < |before| && lo2 <= hi2 <= |before|
    requires after == before[a := x]
    requires a < lo2 || hi2 <= a
    ensures after[lo..a + 1] == before[lo..a] + [x]
    ensures after[lo2..hi2] == before[lo2..hi2]
  {
  }
}
