/**
 * Stable two-way and three-way splits by flags (`split_two`, `split_three`):
 * the same three passes as the packs, with one write cursor per class.
 */
module Splitting {
  import opened Blocks
  import opened CompactionSpec
  import opened Compaction

  /** The outcome of an operation that may reject its arguments. */
  datatype Outcome<R> = Ok(value: R) | InvalidArgument(message: string)

  /** The body of `split_two`'s first pass: the number of false flags in Fl[s..e). */
  method CountFalse(Fl: seq<bool>, s: nat, e: nat) returns (c: nat)
    requires s <= e <= |Fl|
    ensures CountTo(Fl, IsFalse, s) + c == CountTo(Fl, IsFalse, e)
  {
    c := 0;
    for j := s to e
      invariant CountTo(Fl, IsFalse, s) + c == CountTo(Fl, IsFalse, j)
    {
      c := c + if Fl[j] == false then 1 else 0;
    }
  }

  /** First pass of `split_two`: the number of false flags in each block. */
  method BlockFalseCounts(Fl: seq<bool>) returns (Sums: array<nat>)
    ensures fresh(Sums)
    ensures Sums.Length == NumBlocks(|Fl|, BlockSize)
    ensures forall k :: 0 <= k < Sums.Length ==>
      CountTo(Fl, IsFalse, Boundary(|Fl|, BlockSize, k)) + Sums[k] == CountTo(Fl, IsFalse, Boundary(|Fl|, BlockSize, k + 1))
  {
    var n := |Fl|;
    var l := NumBlocks(n, BlockSize);
    Sums := new nat[l];
    for i := 0 to l
      invariant forall k :: 0 <= k < i ==>
        CountTo(Fl, IsFalse, Boundary(n, BlockSize, k)) + Sums[k] == CountTo(Fl, IsFalse, Boundary(n, BlockSize, k + 1))
    {
      BlockSlice(n, BlockSize, i);
      Sums[i] := CountFalse(Fl, i * BlockSize, Min(i * BlockSize + BlockSize, n));
    }
  }

  /**
   * `split_two`: the elements with false flags, in order, followed by those
   * with true flags, in order, and the number of false flags.
   */
  method SplitTwo<T(0)>(In: seq<T>, Fl: seq<bool>) returns (Out: seq<T>, m: nat)
    requires |Fl| == |In|
    ensures m == Count(Fl, IsFalse)
    ensures Out == Kept(In, Fl, IsFalse) + Kept(In, Fl, IsTrue)
    ensures multiset(Out) == multiset(In)
  {
    var n := |In|;
    var Sums := BlockFalseCounts(Fl);
    m := BlockOffsets(Sums, Fl, n, IsFalse);
    var O := new T[n];
    SplitTwoBlocks(In, Fl, Sums[..], m, O);
    Out := O[..];
    assert Out == O[..m] + O[m..n];
    TwoWayPermutation(In, Fl);
  }

  /**
   * The state of `split_two`'s last pass after the first j elements: the
   * false-flagged ones among them sit at the front of O, the true-flagged
   * ones from m on.
   */
  ghost predicate TwoWayPlaced<T>(O: seq<T>, In: seq<T>, Fl: seq<bool>, m: nat, j: nat)
    requires j <= |In| == |Fl|
  {
    && CountTo(Fl, IsFalse, j) <= m
    && m + CountTo(Fl, IsTrue, j) <= |O|
    && O[..CountTo(Fl, IsFalse, j)] == KeepTo(In, Fl, IsFalse, j)
    && O[m..m + CountTo(Fl, IsTrue, j)] == KeepTo(In, Fl, IsTrue, j)
  }

  /** Last pass of `split_two`: every block writes its false-flagged and its true-flagged elements. */
  method SplitTwoBlocks<T>(In: seq<T>, Fl: seq<bool>, offsets: seq<nat>, m: nat, O: array<T>)
    requires |Fl| == |In| == O.Length
    requires |offsets| == NumBlocks(|In|, BlockSize)
    requires forall k :: 0 <= k < |offsets| ==> offsets[k] == CountTo(Fl, IsFalse, Boundary(|In|, BlockSize, k))
    requires m == CountTo(Fl, IsFalse, |In|)
    modifies O
    ensures m <= |In|
    ensures O[..m] == KeepTo(In, Fl, IsFalse, |In|)
    ensures O[m..] == KeepTo(In, Fl, IsTrue, |In|)
  {
    var n, l := |In|, |offsets|;
    TwoWayCounts(Fl, n);
    BoundaryEnds(n, BlockSize);
    for i := 0 to l
      invariant TwoWayPlaced(O[..], In, Fl, m, Boundary(n, BlockSize, i))
    {
      BlockSlice(n, BlockSize, i);
      SplitTwoBlock(In, Fl, O, i * BlockSize, Min(i * BlockSize + BlockSize, n), offsets[i], m);
    }
    assert O[m..] == O[m..m + CountTo(Fl, IsTrue, n)];
  }

  /**
   * The body of `split_two`'s last pass over block [s, e): false-flagged
   * elements go on from offset c0, true-flagged ones from s + (m - c0).
   */
  method SplitTwoBlock<T>(In: seq<T>, Fl: seq<bool>, O: array<T>, s: nat, e: nat, c0: nat, m: nat)
    requires |Fl| == |In| == O.Length && s <= e <= |In|
    requires m == CountTo(Fl, IsFalse, |Fl|)
    requires c0 == CountTo(Fl, IsFalse, s)
    requires TwoWayPlaced(O[..], In, Fl, m, s)
    modifies O
    ensures TwoWayPlaced(O[..], In, Fl, m, e)
  {
    TwoWayCounts(Fl, s);
    var a, b := c0, s + (m - c0);
    for j := s to e
      invariant a == CountTo(Fl, IsFalse, j) && b == m + CountTo(Fl, IsTrue, j)
      invariant TwoWayPlaced(O[..], In, Fl, m, j)
    {
      a, b := SplitTwoWrite(In, Fl, O, m, j, a, b);
    }
  }

  /** One iteration of SplitTwoBlock's loop: In[j] goes to the cursor of its class. */
  method SplitTwoWrite<T>(In: seq<T>, Fl: seq<bool>, O: array<T>, m: nat, j: nat, a: nat, b: nat) returns (a': nat, b': nat)
    requires |Fl| == |In| == O.Length && j < |In|
    requires m == CountTo(Fl, IsFalse, |Fl|)
    requires a == CountTo(Fl, IsFalse, j) && b == m + CountTo(Fl, IsTrue, j)
    requires TwoWayPlaced(O[..], In, Fl, m, j)
    modifies O
    ensures a' == CountTo(Fl, IsFalse, j + 1) && b' == m + CountTo(Fl, IsTrue, j + 1)
    ensures TwoWayPlaced(O[..], In, Fl, m, j + 1)
  {
    ghost var before := O[..];
    SplitTwoBounds(Fl, m, j);
    a', b' := a, b;
    if Fl[j] == false {
      O[a'] := In[j];
      a' := a' + 1;
    } else {
      O[b'] := In[j];
      b' := b' + 1;
    }
    SplitTwoStep(before, O[..], In, Fl, m, j);
  }

  /** The write cursors of `split_two` stay inside their parts. */
  lemma SplitTwoBounds(Fl: seq<bool>, m: nat, j: nat)
    requires j < |Fl| && m == CountTo(Fl, IsFalse, |Fl|)
    ensures CountTo(Fl, IsFalse, j + 1) <= m
    ensures m + CountTo(Fl, IsTrue, j + 1) <= |Fl|
  {
    TwoWayCounts(Fl, |Fl|);
    CountMonotone(Fl, IsFalse, j + 1, |Fl|);
    CountMonotone(Fl, IsTrue, j + 1, |Fl|);
  }

  /** One step of SplitTwoBlock's loop keeps both selections in place. */
  lemma SplitTwoStep<T>(before: seq<T>, after: seq<T>, In: seq<T>, Fl: seq<bool>, m: nat, j: nat)
    requires |Fl| == |In| == |before| && j < |In|
    requires CountTo(Fl, IsFalse, j + 1) <= m && m + CountTo(Fl, IsTrue, j + 1) <= |In|
    requires TwoWayPlaced(before, In, Fl, m, j)
    requires !Fl[j] ==> after == before[CountTo(Fl, IsFalse, j) := In[j]]
    requires Fl[j] ==> after == before[m + CountTo(Fl, IsTrue, j) := In[j]]
    ensures TwoWayPlaced(after, In, Fl, m, j + 1)
  {
    var a, b := CountTo(Fl, IsFalse, j), m + CountTo(Fl, IsTrue, j);
    if Fl[j] == false {
      WriteAppends(before, after, 0, a, In[j], m, b);
      assert before[..a] == before[0..a] && after[..a + 1] == after[0..a + 1];
    } else {
      WriteAppends(before, after, m, b, In[j], 0, a);
      assert before[..a] == before[0..a] && after[..a] == after[0..a];
    }
  }

  /** The body of `split_three`'s first pass: the numbers of 0 flags and of 1 flags in Fl[s..e). */
  method CountZeroOne(Fl: seq<uint8>, s: nat, e: nat) returns (c0: nat, c1: nat)
    requires s <= e <= |Fl|
    ensures CountTo(Fl, IsZero, s) + c0 == CountTo(Fl, IsZero, e)
    ensures CountTo(Fl, IsOne, s) + c1 == CountTo(Fl, IsOne, e)
  {
    c0, c1 := 0, 0;
    for j := s to e
      invariant CountTo(Fl, IsZero, s) + c0 == CountTo(Fl, IsZero, j)
      invariant CountTo(Fl, IsOne, s) + c1 == CountTo(Fl, IsOne, j)
    {
      if Fl[j] == 0 {
        c0 := c0 + 1;
      } else if Fl[j] == 1 {
        c1 := c1 + 1;
      }
    }
  }

  /** First pass of `split_three`: the numbers of 0 flags and of 1 flags in each block. */
  method BlockZeroOneCounts(Fl: seq<uint8>) returns (Sums0: array<nat>, Sums1: array<nat>)
    ensures fresh(Sums0) && fresh(Sums1) && Sums0 != Sums1
    ensures Sums0.Length == Sums1.Length == NumBlocks(|Fl|, BlockSize)
    ensures forall k :: 0 <= k < Sums0.Length ==>
      CountTo(Fl, IsZero, Boundary(|Fl|, BlockSize, k)) + Sums0[k] == CountTo(Fl, IsZero, Boundary(|Fl|, BlockSize, k + 1))
    ensures forall k :: 0 <= k < Sums1.Length ==>
      CountTo(Fl, IsOne, Boundary(|Fl|, BlockSize, k)) + Sums1[k] == CountTo(Fl, IsOne, Boundary(|Fl|, BlockSize, k + 1))
  {
    var n := |Fl|;
    var l := NumBlocks(n, BlockSize);
    Sums0 := new nat[l];
    Sums1 := new nat[l];
    for i := 0 to l
      invariant BlocksCounted(Sums0[..], Fl, IsZero, i)
      invariant BlocksCounted(Sums1[..], Fl, IsOne, i)
    {
      BlockSlice(n, BlockSize, i);
      var c0, c1 := CountZeroOne(Fl, i * BlockSize, Min(i * BlockSize + BlockSize, n));
      ghost var before0, before1 := Sums0[..], Sums1[..];
      Sums0[i] := c0;
      Sums1[i] := c1;
      BlockCountedNext(before0, Sums0[..], Fl, IsZero, i);
      BlockCountedNext(before1, Sums1[..], Fl, IsOne, i);
    }
    assert BlocksCounted(Sums0[..], Fl, IsZero, l);
    assert BlocksCounted(Sums1[..], Fl, IsOne, l);
  }

  /**
   * `split_three`: into Out[lo..hi), the elements of In[lo..hi) with flag 0,
   * then those with flag 1, then the others, each class in order; returns the
   * sizes of the first two classes. Only the first hi - lo flags are read.
   * In and Out must be different arrays.
   */
  method SplitThree<T>(In: array<T>, Out: array<T>, lo: nat, hi: nat, Fl: seq<uint8>) returns (r: Outcome<(nat, nat)>)
    requires lo <= hi <= In.Length && hi <= Out.Length && |Fl| >= hi - lo
    modifies Out
    ensures In == Out ==> r.InvalidArgument? && Out[..] == old(Out[..])
    ensures In != Out ==> r == Ok((Count(Fl[..hi - lo], IsZero), Count(Fl[..hi - lo], IsOne)))
    ensures In != Out ==>
      Out[lo..hi] == Kept(In[lo..hi], Fl[..hi - lo], IsZero) + Kept(In[lo..hi], Fl[..hi - lo], IsOne)
                     + Kept(In[lo..hi], Fl[..hi - lo], IsOther)
    ensures In != Out ==> multiset(Out[lo..hi]) == multiset(In[lo..hi])
    ensures In != Out ==> Out[..lo] == old(Out[..lo]) && Out[hi..] == old(Out[hi..])
  {
    if In == Out {
      return InvalidArgument("In and Out cannot be the same in split_three");
    }
    ghost var input := In[lo..hi];
    var flags := Fl[..hi - lo];
    var m0, m1 := SplitThreeInto(In[lo..hi], Out, lo, flags);
    r := Ok((m0, m1));
    ThreeWayPermutation(input, flags);
    assert In[lo..hi] == input;
  }

  /** `split_three` once In and Out are known to differ; In holds the contents of the input slice. */
  method SplitThreeInto<T>(In: seq<T>, Out: array<T>, lo: nat, Fl: seq<uint8>) returns (m0: nat, m1: nat)
    requires |Fl| == |In| && lo + |In| <= Out.Length
    modifies Out
    ensures m0 == Count(Fl, IsZero) && m1 == Count(Fl, IsOne)
    ensures Out[lo..lo + |In|] == Kept(In, Fl, IsZero) + Kept(In, Fl, IsOne) + Kept(In, Fl, IsOther)
    ensures Out[..lo] == old(Out[..lo]) && Out[lo + |In|..] == old(Out[lo + |In|..])
  {
    var n := |In|;
    var Sums0, Sums1 := BlockZeroOneCounts(Fl);
    m0 := BlockOffsets(Sums0, Fl, n, IsZero);
    ghost var offsets0 := Sums0[..];
    m1 := BlockOffsets(Sums1, Fl, n, IsOne);
    assert Sums0[..] == offsets0;
    SplitThreeBlocks(In, Out, lo, Fl, Sums0[..], Sums1[..], m0, m1);
  }

  /** O[start..] begins with the elements of In[..j] whose flags satisfy p, in order. */
  ghost predicate Placed<T, X>(O: seq<T>, start: nat, In: seq<T>, Fl: seq<X>, p: X -> bool, j: nat)
    requires j <= |In| == |Fl|
  {
    start + CountTo(Fl, p, j) <= |O| && O[start..start + CountTo(Fl, p, j)] == KeepTo(In, Fl, p, j)
  }

  /** Writing In[j] at the end of its class's part extends that part. */
  lemma PlacedGrows<T, X>(before: seq<T>, after: seq<T>, start: nat, In: seq<T>, Fl: seq<X>, p: X -> bool, j: nat)
    requires j < |In| == |Fl| && p(Fl[j])
    requires Placed(before, start, In, Fl, p, j) && start + CountTo(Fl, p, j + 1) <= |before|
    requires after == before[start + CountTo(Fl, p, j) := In[j]]
    ensures Placed(after, start, In, Fl, p, j + 1)
  {
    WriteAppends(before, after, start, start + CountTo(Fl, p, j), In[j], 0, 0);
  }

  /** A write outside the part of a class In[j] is not in leaves that part as it was. */
  lemma PlacedStays<T, X>(before: seq<T>, after: seq<T>, start: nat, In: seq<T>, Fl: seq<X>, p: X -> bool, j: nat, pos: nat, x: T)
    requires j < |In| == |Fl| && !p(Fl[j])
    requires Placed(before, start, In, Fl, p, j)
    requires pos < |before| && after == before[pos := x]
    requires pos < start || start + CountTo(Fl, p, j) <= pos
    ensures Placed(after, start, In, Fl, p, j + 1)
  {
    assert after[start..start + CountTo(Fl, p, j)] == before[start..start + CountTo(Fl, p, j)];
  }

  /**
   * The state of `split_three`'s last pass after the first j elements of the
   * input slice: their 0-flagged, 1-flagged and other elements sit from
   * lo, lo + m0 and lo + m0 + m1 on, and O outside [lo, lo + |In|) is orig.
   */
  ghost predicate ThreeWayPlaced<T>(O: seq<T>, orig: seq<T>, lo: nat, In: seq<T>, Fl: seq<uint8>, m0: nat, m1: nat, j: nat)
    requires j <= |In| == |Fl|
  {
    && |O| == |orig|
    && lo + |In| <= |O|
    && CountTo(Fl, IsZero, j) <= m0
    && CountTo(Fl, IsOne, j) <= m1
    && m0 + m1 + CountTo(Fl, IsOther, j) <= |In|
    && Placed(O, lo, In, Fl, IsZero, j)
    && Placed(O, lo + m0, In, Fl, IsOne, j)
    && Placed(O, lo + m0 + m1, In, Fl, IsOther, j)
    && O[..lo] == orig[..lo]
    && O[lo + |In|..] == orig[lo + |In|..]
  }

  /**
   * Last pass of `split_three`: every block of In, the contents of the input
   * slice, writes its three classes at their offsets in Out[lo..lo + |In|).
   */
  method SplitThreeBlocks<T>(In: seq<T>, Out: array<T>, lo: nat, Fl: seq<uint8>,
                             offsets0: seq<nat>, offsets1: seq<nat>, m0: nat, m1: nat)
    requires |Fl| == |In| && lo + |In| <= Out.Length
    requires |offsets0| == |offsets1| == NumBlocks(|In|, BlockSize)
    requires forall k :: 0 <= k < |offsets0| ==> offsets0[k] == CountTo(Fl, IsZero, Boundary(|In|, BlockSize, k))
    requires forall k :: 0 <= k < |offsets1| ==> offsets1[k] == CountTo(Fl, IsOne, Boundary(|In|, BlockSize, k))
    requires m0 == CountTo(Fl, IsZero, |In|) && m1 == CountTo(Fl, IsOne, |In|)
    modifies Out
    ensures Out[lo..lo + |In|] == Kept(In, Fl, IsZero) + Kept(In, Fl, IsOne) + Kept(In, Fl, IsOther)
    ensures Out[..lo] == old(Out[..lo]) && Out[lo + |In|..] == old(Out[lo + |In|..])
  {
    var n, l := |In|, |offsets0|;
    ghost var orig := Out[..];
    ThreeWayStart(Out[..], lo, In, Fl, m0, m1);
    BoundaryEnds(n, BlockSize);
    for i := 0 to l
      invariant ThreeWayPlaced(Out[..], orig, lo, In, Fl, m0, m1, Boundary(n, BlockSize, i))
    {
      BlockSlice(n, BlockSize, i);
      SplitThreeBlock(In, Out, lo, Fl, i * BlockSize, Min(i * BlockSize + BlockSize, n), offsets0[i], offsets1[i], m0, m1, orig);
    }
    ThreeWayDone(Out[..], orig, lo, In, Fl, m0, m1);
  }

  /** Before the last pass of `split_three` nothing is placed and nothing outside the slice has changed. */
  lemma ThreeWayStart<T>(O: seq<T>, lo: nat, In: seq<T>, Fl: seq<uint8>, m0: nat, m1: nat)
    requires |In| == |Fl| && lo + |In| <= |O|
    requires m0 == CountTo(Fl, IsZero, |Fl|) && m1 == CountTo(Fl, IsOne, |Fl|)
    ensures ThreeWayPlaced(O, O, lo, In, Fl, m0, m1, 0)
  {
    ThreeWayCounts(Fl, |Fl|);
  }

  /** After the last pass of `split_three` the three parts fill the slice. */
  lemma ThreeWayDone<T>(O: seq<T>, orig: seq<T>, lo: nat, In: seq<T>, Fl: seq<uint8>, m0: nat, m1: nat)
    requires |In| == |Fl|
    requires m0 == CountTo(Fl, IsZero, |Fl|) && m1 == CountTo(Fl, IsOne, |Fl|)
    requires ThreeWayPlaced(O, orig, lo, In, Fl, m0, m1, |In|)
    ensures O[lo..lo + |In|] == Kept(In, Fl, IsZero) + Kept(In, Fl, IsOne) + Kept(In, Fl, IsOther)
    ensures O[..lo] == orig[..lo] && O[lo + |In|..] == orig[lo + |In|..]
  {
    ThreeWayCounts(Fl, |Fl|);
    var n := |In|;
    SlicesJoin(O, lo, lo + m0, lo + m0 + m1, lo + n, Kept(In, Fl, IsZero), Kept(In, Fl, IsOne), Kept(In, Fl, IsOther));
  }

  /** Three adjacent slices join into one. */
  lemma SlicesJoin<T>(O: seq<T>, a: nat, b: nat, c: nat, d: nat, x: seq<T>, y: seq<T>, z: seq<T>)
    requires a <= b <= c <= d <= |O|
    requires O[a..b] == x && O[b..c] == y && O[c..d] == z
    ensures O[a..d] == x + y + z
  {
    assert O[a..c] == O[a..b] + O[b..c];
    assert O[a..d] == O[a..c] + O[c..d];
  }

  /**
   * The body of `split_three`'s last pass over block [s, e) of the slice:
   * 0-flagged elements go on from offset o0, 1-flagged ones from m0 + o1 and
   * the others from m0 + m1 + (s - o0 - o1).
   */
  method SplitThreeBlock<T>(In: seq<T>, Out: array<T>, lo: nat, Fl: seq<uint8>, s: nat, e: nat,
                            o0: nat, o1: nat, m0: nat, m1: nat, ghost orig: seq<T>)
    requires |Fl| == |In| && s <= e <= |In|
    requires m0 == CountTo(Fl, IsZero, |Fl|) && m1 == CountTo(Fl, IsOne, |Fl|)
    requires o0 == CountTo(Fl, IsZero, s) && o1 == CountTo(Fl, IsOne, s)
    requires ThreeWayPlaced(Out[..], orig, lo, In, Fl, m0, m1, s)
    modifies Out
    ensures ThreeWayPlaced(Out[..], orig, lo, In, Fl, m0, m1, e)
  {
    ThreeWayCounts(Fl, s);
    var a: nat, b: nat, c: nat := o0, m0 + o1, m0 + m1 + (s - o0 - o1);
    for j := s to e
      invariant ThreeWayCursors(Fl, m0, m1, j, a, b, c)
      invariant ThreeWayPlaced(Out[..], orig, lo, In, Fl, m0, m1, j)
    {
      a, b, c := SplitThreeWrite(Out, lo, Fl, j, In[j], a, b, c, m0, m1, In, orig);
    }
  }

  /** The three write cursors of `split_three` after the first j elements of the slice. */
  ghost predicate ThreeWayCursors(Fl: seq<uint8>, m0: nat, m1: nat, j: nat, a: nat, b: nat, c: nat)
    requires j <= |Fl|
  {
    a == CountTo(Fl, IsZero, j) && b == m0 + CountTo(Fl, IsOne, j) && c == m0 + m1 + CountTo(Fl, IsOther, j)
  }

  /** One iteration of SplitThreeBlock's loop: x, the slice's element j, goes to the cursor of its class. */
  method SplitThreeWrite<T>(Out: array<T>, lo: nat, Fl: seq<uint8>, j: nat, x: T,
                            a: nat, b: nat, c: nat, m0: nat, m1: nat, ghost input: seq<T>, ghost orig: seq<T>) returns (a': nat, b': nat, c': nat)
    requires |Fl| == |input| && j < |input| && x == input[j]
    requires m0 == CountTo(Fl, IsZero, |Fl|) && m1 == CountTo(Fl, IsOne, |Fl|)
    requires ThreeWayCursors(Fl, m0, m1, j, a, b, c)
    requires ThreeWayPlaced(Out[..], orig, lo, input, Fl, m0, m1, j)
    modifies Out
    ensures ThreeWayCursors(Fl, m0, m1, j + 1, a', b', c')
    ensures ThreeWayPlaced(Out[..], orig, lo, input, Fl, m0, m1, j + 1)
  {
    ghost var before := Out[..];
    ThreeWayBounds(Fl, m0, m1, j);
    a', b', c' := a, b, c;
    if Fl[j] == 0 {
      Out[lo + a'] := x;
      a' := a' + 1;
      SplitThreeZero(before, Out[..], orig, lo, input, Fl, m0, m1, j);
    } else if Fl[j] == 1 {
      Out[lo + b'] := x;
      b' := b' + 1;
      SplitThreeOne(before, Out[..], orig, lo, input, Fl, m0, m1, j);
    } else {
      Out[lo + c'] := x;
      c' := c' + 1;
      SplitThreeOther(before, Out[..], orig, lo, input, Fl, m0, m1, j);
    }
  }

  /** The write cursors of `split_three` stay inside their parts. */
  lemma ThreeWayBounds(Fl: seq<uint8>, m0: nat, m1: nat, j: nat)
    requires j < |Fl| && m0 == CountTo(Fl, IsZero, |Fl|) && m1 == CountTo(Fl, IsOne, |Fl|)
    ensures CountTo(Fl, IsZero, j + 1) <= m0
    ensures CountTo(Fl, IsOne, j + 1) <= m1
    ensures m0 + m1 + CountTo(Fl, IsOther, j + 1) <= |Fl|
  {
    ThreeWayCounts(Fl, |Fl|);
    CountMonotone(Fl, IsZero, j + 1, |Fl|);
    CountMonotone(Fl, IsOne, j + 1, |Fl|);
    CountMonotone(Fl, IsOther, j + 1, |Fl|);
  }

  /** A write inside [lo, lo + n) leaves O outside it as orig had it. */
  lemma OutsideUnchanged<T>(before: seq<T>, after: seq<T>, orig: seq<T>, lo: nat, n: nat, pos: nat, x: T)
    requires |before| == |orig| && lo <= pos < lo + n <= |before|
    requires before[..lo] == orig[..lo] && before[lo + n..] == orig[lo + n..]
    requires after == before[pos := x]
    ensures |after| == |orig| && after[..lo] == orig[..lo] && after[lo + n..] == orig[lo + n..]
  {
    assert after[..lo] == before[..lo];
    assert after[lo + n..] == before[lo + n..];
  }

  /** Writing a 0-flagged In[j] after the 0-flagged ones placed so far keeps the three selections in place. */
  lemma SplitThreeZero<T>(before: seq<T>, after: seq<T>, orig: seq<T>, lo: nat, In: seq<T>, Fl: seq<uint8>, m0: nat, m1: nat, j: nat)
    requires |Fl| == |In| && j < |In| && Fl[j] == 0
    requires CountTo(Fl, IsZero, j + 1) <= m0 && CountTo(Fl, IsOne, j + 1) <= m1
    requires m0 + m1 + CountTo(Fl, IsOther, j + 1) <= |In|
    requires ThreeWayPlaced(before, orig, lo, In, Fl, m0, m1, j)
    requires after == before[lo + CountTo(Fl, IsZero, j) := In[j]]
    ensures ThreeWayPlaced(after, orig, lo, In, Fl, m0, m1, j + 1)
  {
    var pos := lo + CountTo(Fl, IsZero, j);
    PlacedGrows(before, after, lo, In, Fl, IsZero, j);
    PlacedStays(before, after, lo + m0, In, Fl, IsOne, j, pos, In[j]);
    PlacedStays(before, after, lo + m0 + m1, In, Fl, IsOther, j, pos, In[j]);
    OutsideUnchanged(before, after, orig, lo, |In|, pos, In[j]);
  }

  /** Writing a 1-flagged In[j] after the 1-flagged ones placed so far keeps the three selections in place. */
  lemma SplitThreeOne<T>(before: seq<T>, after: seq<T>, orig: seq<T>, lo: nat, In: seq<T>, Fl: seq<uint8>, m0: nat, m1: nat, j: nat)
    requires |Fl| == |In| && j < |In| && Fl[j] == 1
    requires CountTo(Fl, IsZero, j + 1) <= m0 && CountTo(Fl, IsOne, j + 1) <= m1
    requires m0 + m1 + CountTo(Fl, IsOther, j + 1) <= |In|
    requires ThreeWayPlaced(before, orig, lo, In, Fl, m0, m1, j)
    requires after == before[lo + m0 + CountTo(Fl, IsOne, j) := In[j]]
    ensures ThreeWayPlaced(after, orig, lo, In, Fl, m0, m1, j + 1)
  {
    var pos := lo + m0 + CountTo(Fl, IsOne, j);
    PlacedStays(before, after, lo, In, Fl, IsZero, j, pos, In[j]);
    PlacedGrows(before, after, lo + m0, In, Fl, IsOne, j);
    PlacedStays(before, after, lo + m0 + m1, In, Fl, IsOther, j, pos, In[j]);
    OutsideUnchanged(before, after, orig, lo, |In|, pos, In[j]);
  }

  /** Writing any other In[j] after the others placed so far keeps the three selections in place. */
  lemma SplitThreeOther<T>(before: seq<T>, after: seq<T>, orig: seq<T>, lo: nat, In: seq<T>, Fl: seq<uint8>, m0: nat, m1: nat, j: nat)
    requires |Fl| == |In| && j < |In| && IsOther(Fl[j])
    requires CountTo(Fl, IsZero, j + 1) <= m0 && CountTo(Fl, IsOne, j + 1) <= m1
    requires m0 + m1 + CountTo(Fl, IsOther, j + 1) <= |In|
    requires ThreeWayPlaced(before, orig, lo, In, Fl, m0, m1, j)
    requires after == before[lo + m0 + m1 + CountTo(Fl, IsOther, j) := In[j]]
    ensures ThreeWayPlaced(after, orig, lo, In, Fl, m0, m1, j + 1)
  {
    var pos := lo + m0 + m1 + CountTo(Fl, IsOther, j);
    PlacedStays(before, after, lo, In, Fl, IsZero, j, pos, In[j]);
    PlacedStays(before, after, lo + m0, In, Fl, IsOne, j, pos, In[j]);
    PlacedGrows(before, after, lo + m0 + m1, In, Fl, IsOther, j);
    OutsideUnchanged(before, after, orig, lo, |In|, pos, In[j]);
  }
}
