/**
 * The dual-pivot quicksort (`quicksort.h`): insertion sort for small ranges,
 * five-sample pivot choice, the three-cursor three-way partition and the
 * serial and forking drivers. A range (A, n) starting at an iterator is the
 * index range [lo, hi) of an array; the forks run one after the other.
 */
module Quicksort {
  import opened SortingSpec

  /** `std::swap(A[i], A[j])`. */
  method Swap<T>(A: array<T>, i: nat, j: nat, ghost s: seq<T>)
    requires i < A.Length && j < A.Length && A[..] == s
    modifies A
    ensures A[..] == s[i := s[j]][j := s[i]]
  {
    A[i], A[j] := A[j], A[i];
  }

  /** An exchange inside [lo, hi), keeping A[..] a rearrangement of orig there. */
  method SwapWithin<T>(A: array<T>, i: nat, j: nat, lo: nat, hi: nat, ghost s: seq<T>, ghost orig: seq<T>)
    requires lo <= i < hi && lo <= j < hi && hi <= A.Length && A[..] == s
    requires Permuted(s, orig, lo, hi)
    modifies A
    ensures A[..] == s[i := s[j]][j := s[i]]
    ensures Permuted(A[..], orig, lo, hi)
  {
    Swap(A, i, j, s);
    SwapKeepsPermuted(s, i, j, lo, hi, orig);
  }

  /**
   * `base_case(A, n)`: whether a range of n elements is left to insertion
   * sort; `large` is the compile-time test on the iterator A: its value type
   * is a pointer, or the iterator itself is wider than 8 bytes. Small ranges
   * stay below 24, and a range that is split has at least 16 elements, more
   * than the 5 `split3` needs.
   */
  function BaseCase(n: nat, large: bool): (r: bool)
    ensures r ==> n < 24
    ensures !r ==> n >= 16
    ensures large ==> (r <==> n < 16)
    ensures !large ==> (r <==> n < 24)
  {
    if large then n < 16 else n < 24
  }

  // ---------------------------------------------------------------- insertion sort

  /**
   * The state of insertion sort's inner loop, inserting s[k] into the sorted
   * s[lo..k): the element being moved sits at j + 1, s[lo..j + 1) and
   * s[j + 2..k + 1) are sorted, the first is below the second, and the moved
   * element is less than every element it has passed.
   */
  ghost predicate Inserting<T>(s: seq<T>, lo: nat, j: int, k: nat, less: (T, T) -> bool) {
    && lo - 1 <= j < k < |s|
    && SortedBetween(s, lo, j + 1, less)
    && SortedBetween(s, j + 2, k + 1, less)
    && (forall a, b :: lo <= a <= j && j + 2 <= b <= k ==> !less(s[b], s[a]))
    && (forall b :: j + 2 <= b <= k ==> less(s[j + 1], s[b]))
  }

  /** One exchange of insertion sort's inner loop moves the element one place down. */
  lemma InsertStep<T>(s: seq<T>, lo: nat, j: nat, k: nat, less: (T, T) -> bool)
    requires Inserting(s, lo, j, k, less) && lo <= j && less(s[j + 1], s[j])
    ensures Inserting(s[j := s[j + 1]][j + 1 := s[j]], lo, j - 1, k, less)
  {
  }

  /** When the moved element is not less than its left neighbour, s[lo..k] is sorted. */
  lemma InsertDone<T(!new)>(s: seq<T>, lo: nat, j: int, k: nat, less: (T, T) -> bool)
    requires StrictWeakOrder(less)
    requires Inserting(s, lo, j, k, less) && (j < lo || !less(s[j + 1], s[j]))
    ensures SortedBetween(s, lo, k + 1, less)
  {
    forall a, b | lo <= a < b <= k
      ensures !less(s[b], s[a])
    {
      if a <= j && b == j + 1 {
        if a < j {
          NegativelyTransitive(less, s[j + 1], s[j], s[a]);
        }
      } else if a == j + 1 {
        Asymmetric(less, s[j + 1], s[b]);
      }
    }
  }

  /** One exchange of `insertion_sort`'s inner loop, moving A[j + 1] below A[j]. */
  method InsertExchange<T>(A: array<T>, lo: nat, j: nat, k: nat, less: (T, T) -> bool, ghost orig: seq<T>)
    requires Inserting(A[..], lo, j, k, less) && lo <= j && less(A[j + 1], A[j])
    requires Permuted(A[..], orig, lo, k + 1)
    modifies A
    ensures Inserting(A[..], lo, j - 1, k, less)
    ensures Permuted(A[..], orig, lo, k + 1)
  {
    ghost var s := A[..];
    SwapWithin(A, j, j + 1, lo, k + 1, s, orig);
    InsertStep(s, lo, j, k, less);
  }

  /** The body of `insertion_sort`'s outer loop: inserts A[k] into the sorted A[lo..k). */
  method Insert<T(!new)>(A: array<T>, lo: nat, k: nat, less: (T, T) -> bool)
    requires lo <= k < A.Length && StrictWeakOrder(less)
    requires SortedBetween(A[..], lo, k, less)
    modifies A
    ensures SortedBetween(A[..], lo, k + 1, less)
    ensures Permuted(A[..], old(A[..]), lo, k + 1)
  {
    ghost var orig := A[..];
    var j: int := k - 1;
    while j >= lo && less(A[j + 1], A[j])
      invariant Inserting(A[..], lo, j, k, less)
      invariant Permuted(A[..], orig, lo, k + 1)
      decreases j + 1 - lo
    {
      InsertExchange(A, lo, j, k, less, orig);
      j := j - 1;
    }
    InsertDone(A[..], lo, j, k, less);
  }

  /** `insertion_sort(A, n, f)` on A[lo..hi): sorts it by exchanging neighbours. */
  method InsertionSort<T(!new)>(A: array<T>, lo: nat, hi: nat, less: (T, T) -> bool)
    requires lo <= hi <= A.Length && StrictWeakOrder(less)
    modifies A
    ensures SortedBetween(A[..], lo, hi, less)
    ensures Permuted(A[..], old(A[..]), lo, hi)
  {
    ghost var orig := A[..];
    var n := hi - lo;
    var i := 1;
    while i < n
      invariant 1 <= i && (n == 0 || i <= n)
      invariant SortedBetween(A[..], lo, if n == 0 then lo else lo + i, less)
      invariant Permuted(A[..], orig, lo, hi)
    {
      ghost var s := A[..];
      Insert(A, lo, lo + i, less);
      PermutedWiden(A[..], s, lo, lo + i + 1, lo, hi);
      PermutedTrans(A[..], s, orig, lo, hi);
      i := i + 1;
    }
  }

  // ---------------------------------------------------------------- pivots

  /**
   * The position of `sort5`'s sample l in a range of n elements starting at
   * lo: m * (l + 1) with the stride m = n / 6.
   */
  function SampleIndex(lo: nat, n: nat, l: nat): (r: nat)
    requires n >= 5 && l < 5
    ensures lo <= r < lo + n
    ensures n >= 6 ==> lo + l < r
  {
    var m := n / 6;
    assert m * 6 <= n;
    assert m * (l + 1) <= m * 5;
    assert n >= 6 ==> m >= 1 && m * (l + 1) >= l + 1;
    lo + m * (l + 1)
  }

  /** With six or more elements the samples lie at strictly increasing positions. */
  lemma SamplesIncrease(lo: nat, n: nat, k: nat, k': nat)
    requires n >= 6 && k < k' < 5
    ensures SampleIndex(lo, n, k) < SampleIndex(lo, n, k')
  {
    var m := n / 6;
    assert m >= 1;
    assert m * (k' + 1) == m * (k + 1) + m * (k' - k);
    assert m * (k' - k) >= 1;
  }

  /** The five samples of `sort5` in a range of n >= 6 elements of s starting at lo. */
  ghost function Samples<T>(s: seq<T>, lo: nat, n: nat): seq<T>
    requires lo + n <= |s| && n >= 6
  {
    seq(5, l requires 0 <= l < 5 => s[SampleIndex(lo, n, l)])
  }

  /**
   * The loop of `sort5(A, n, f)` on A[lo..hi): exchanges A[lo + l] with the
   * sample l, for each l < 5. With six or more elements the stride is at
   * least 1, so every sample is read before it is overwritten and the five
   * samples end up, in order, at the front.
   */
  method GatherSamples<T>(A: array<T>, lo: nat, hi: nat)
    requires lo + 5 <= hi <= A.Length
    modifies A
    ensures Permuted(A[..], old(A[..]), lo, hi)
    ensures hi - lo >= 6 ==> A[lo..lo + 5] == Samples(old(A[..]), lo, hi - lo)
  {
    ghost var orig := A[..];
    ghost var n := hi - lo;
    var size := 5;
    for l := 0 to size
      invariant Permuted(A[..], orig, lo, hi)
      invariant n >= 6 ==> forall k :: 0 <= k < l ==> A[lo + k] == orig[SampleIndex(lo, n, k)]
      invariant n >= 6 ==> forall k :: l <= k < 5 ==> A[SampleIndex(lo, n, k)] == orig[SampleIndex(lo, n, k)]
    {
      if n >= 6 {
        forall k | l < k < 5
          ensures SampleIndex(lo, n, l) < SampleIndex(lo, n, k)
        {
          SamplesIncrease(lo, n, l, k);
        }
      }
      SwapWithin(A, lo + l, SampleIndex(lo, hi - lo, l), lo, hi, A[..], orig);
    }
  }

  /**
   * `sort5(A, n, f)` on A[lo..hi): gathers the five samples at the front and
   * sorts them; with six or more elements the front five are exactly the
   * samples, rearranged.
   */
  method Sort5<T(!new)>(A: array<T>, lo: nat, hi: nat, less: (T, T) -> bool)
    requires lo + 5 <= hi <= A.Length && StrictWeakOrder(less)
    modifies A
    ensures SortedBetween(A[..], lo, lo + 5, less)
    ensures Permuted(A[..], old(A[..]), lo, hi)
    ensures hi - lo >= 6 ==> multiset(A[lo..lo + 5]) == multiset(Samples(old(A[..]), lo, hi - lo))
  {
    GatherSamples(A, lo, hi);
    ghost var sampled := A[..];
    InsertionSort(A, lo, lo + 5, less);
    BagIsMultiset(A[..], lo, lo + 5);
    BagIsMultiset(sampled, lo, lo + 5);
    PermutedWiden(A[..], sampled, lo, lo + 5, lo, hi);
    PermutedTrans(A[..], sampled, old(A[..]), lo, hi);
  }

  /**
   * After `sort5` and the two exchanges that bring A[1] and A[3] to the
   * front, p1 = A[lo] is not greater than p2 = A[lo + 1], and A[lo + 2] lies
   * between them.
   */
  lemma PivotsInOrder<T>(s: seq<T>, s1: seq<T>, t: seq<T>, lo: nat, less: (T, T) -> bool)
    requires SortedBetween(s, lo, lo + 5, less)
    requires s1 == s[lo := s[lo + 1]][lo + 1 := s[lo]]
    requires t == s1[lo + 1 := s1[lo + 3]][lo + 3 := s1[lo + 1]]
    ensures !less(t[lo + 1], t[lo]) && !less(t[lo + 2], t[lo]) && !less(t[lo + 1], t[lo + 2])
  {
    assert t[lo] == s[lo + 1] && t[lo + 1] == s[lo + 3] && t[lo + 2] == s[lo + 2];
  }

  /**
   * The front five after `split3`'s two exchanges, put back in the order
   * `sort5` left them: A[lo] and A[lo + 1] are its entries 1 and 3.
   */
  ghost function Unpivoted<T>(t: seq<T>, lo: nat): seq<T>
    requires lo + 5 <= |t|
  {
    [t[lo + 3], t[lo], t[lo + 2], t[lo + 1], t[lo + 4]]
  }

  /** The two exchanges only move sort5's entries 1 and 3 to the front. */
  lemma PivotsAreSamples<T>(s: seq<T>, s1: seq<T>, t: seq<T>, lo: nat, less: (T, T) -> bool)
    requires SortedBetween(s, lo, lo + 5, less)
    requires s1 == s[lo := s[lo + 1]][lo + 1 := s[lo]]
    requires t == s1[lo + 1 := s1[lo + 3]][lo + 3 := s1[lo + 1]]
    ensures Unpivoted(t, lo) == s[lo..lo + 5]
    ensures SortedBetween(Unpivoted(t, lo), 0, 5, less)
  {
    assert Unpivoted(t, lo) == s[lo..lo + 5];
    forall i, j | 0 <= i < j < 5
      ensures !less(Unpivoted(t, lo)[j], Unpivoted(t, lo)[i])
    {
      assert Unpivoted(t, lo)[j] == s[lo + j] && Unpivoted(t, lo)[i] == s[lo + i];
    }
  }

  /**
   * The first lines of `split3`: `sort5`, then the sorted samples' entries 1
   * and 3 go to A[0] and A[1], where they serve as the pivots p1 and p2. With
   * six or more elements, the front five put back in sorted order are the
   * five samples.
   */
  method ChoosePivots<T(!new)>(A: array<T>, lo: nat, hi: nat, less: (T, T) -> bool)
    requires lo + 5 <= hi <= A.Length && StrictWeakOrder(less)
    modifies A
    ensures !less(A[lo + 1], A[lo]) && !less(A[lo + 2], A[lo]) && !less(A[lo + 1], A[lo + 2])
    ensures SortedBetween(Unpivoted(A[..], lo), 0, 5, less)
    ensures hi - lo >= 6 ==> multiset(Unpivoted(A[..], lo)) == multiset(Samples(old(A[..]), lo, hi - lo))
    ensures Permuted(A[..], old(A[..]), lo, hi)
  {
    ghost var orig := A[..];
    Sort5(A, lo, hi, less);
    ghost var s := A[..];
    SwapWithin(A, lo, lo + 1, lo, hi, s, orig);
    ghost var s1 := A[..];
    SwapWithin(A, lo + 1, lo + 3, lo, hi, s1, orig);
    PivotsInOrder(s, s1, A[..], lo, less);
    PivotsAreSamples(s, s1, A[..], lo, less);
  }

  // ---------------------------------------------------------------- split3

  /**
   * The parts `split3` leaves: A[lo..L) less than the pivot A[L], A[L + 1..M)
   * between A[L] and the second pivot A[M - 1] inclusive, A[M..hi) greater
   * than A[M - 1].
   */
  ghost predicate ThreeParts<T>(s: seq<T>, lo: nat, L: nat, M: nat, hi: nat, less: (T, T) -> bool) {
    && lo <= L < M <= hi <= |s|
    && AllBelow(s, lo, L, s[L], less)
    && NoneBelow(s, L + 1, M, s[L], less)
    && NoneAbove(s, L + 1, M, s[M - 1], less)
    && AllAbove(s, M, hi, s[M - 1], less)
  }

  /**
   * The regions of `split3`'s main loop, with the pivots p1 = s[lo] and
   * p2 = s[lo + 1], p1 not greater than p2: [lo + 2, L) is less than p1,
   * [L, M) is between p1 and p2 inclusive, (R, hi) is greater than p2 and
   * [M, R] is not yet looked at.
   */
  ghost predicate Regions<T>(s: seq<T>, lo: nat, L: nat, M: nat, R: nat, hi: nat, less: (T, T) -> bool) {
    && lo + 2 <= L <= M <= R + 1 <= hi <= |s|
    && !less(s[lo + 1], s[lo])
    && AllBelow(s, lo + 2, L, s[lo], less)
    && NoneBelow(s, L, M, s[lo], less)
    && NoneAbove(s, L, M, s[lo + 1], less)
    && AllAbove(s, R + 1, hi, s[lo + 1], less)
  }

  /** The invariant of `split3`'s main loop: the regions, and A[R] not greater than p2 while M <= R. */
  ghost predicate Cursors<T>(s: seq<T>, lo: nat, L: nat, M: nat, R: nat, hi: nat, less: (T, T) -> bool) {
    && Regions(s, lo, L, M, R, hi, less)
    && (M <= R ==> !less(s[lo + 1], s[R]))
  }

  /** `while (f(*L, p)) L++;` from start, stopped at the latest by stop, where A[stop] is not less than p. */
  method ScanUp<T>(A: array<T>, start: nat, stop: nat, p: T, less: (T, T) -> bool) returns (L: nat)
    requires start <= stop < A.Length && !less(A[stop], p)
    ensures start <= L <= stop && !less(A[L], p)
    ensures AllBelow(A[..], start, L, p, less)
  {
    L := start;
    while less(A[L], p)
      invariant start <= L <= stop
      invariant AllBelow(A[..], start, L, p, less)
      decreases stop - L
    {
      L := L + 1;
    }
  }

  /** `while (f(p, *R)) R--;` from start, stopped at the latest by stop, where A[stop] is not greater than p. */
  method ScanDown<T>(A: array<T>, start: nat, stop: nat, p: T, less: (T, T) -> bool) returns (R: nat)
    requires stop <= start < A.Length && !less(p, A[stop])
    ensures stop <= R <= start && !less(p, A[R])
    ensures AllAbove(A[..], R + 1, start + 1, p, less)
  {
    R := start;
    while less(p, A[R])
      invariant stop <= R <= start
      invariant AllAbove(A[..], R + 1, start + 1, p, less)
      decreases R
    {
      R := R - 1;
    }
  }

  /** Before `split3`'s main loop, with L = M = lo + 2 and R after its first scan, the invariant holds. */
  lemma LoopStart<T>(s: seq<T>, lo: nat, R: nat, hi: nat, less: (T, T) -> bool)
    requires lo + 2 <= R < hi <= |s| && !less(s[lo + 1], s[lo])
    requires !less(s[lo + 1], s[R]) && AllAbove(s, R + 1, hi, s[lo + 1], less)
    ensures Cursors(s, lo, lo + 2, lo + 2, R, hi, less)
  {
  }

  /** The exchange in `split3`'s loop when A[M] is less than p1 keeps the invariant. */
  lemma StepBelow<T>(s: seq<T>, lo: nat, L: nat, M: nat, R: nat, hi: nat, less: (T, T) -> bool)
    requires Cursors(s, lo, L, M, R, hi, less) && M <= R && less(s[M], s[lo])
    ensures Cursors(s[M := s[L]][L := s[M]], lo, L + 1, M + 1, R, hi, less)
  {
    var t := s[M := s[L]][L := s[M]];
    assert t[lo] == s[lo] && t[lo + 1] == s[lo + 1];
  }

  /**
   * The exchanges in `split3`'s loop when A[M] is greater than p2: A[M] and
   * A[R] change places, then what came from A[R] goes to the left part if it
   * is less than p1. The regions hold with R one lower, and the element now
   * at M is not greater than p2.
   */
  lemma StepAboveSwaps<T>(s: seq<T>, s1: seq<T>, t: seq<T>, lo: nat, L: nat, L': nat, M: nat, R: nat, hi: nat, less: (T, T) -> bool)
    requires Cursors(s, lo, L, M, R, hi, less) && M <= R && less(s[lo + 1], s[M])
    requires s1 == s[M := s[R]][R := s[M]]
    requires less(s1[M], s[lo]) ==> L' == L + 1 && t == s1[L := s1[M]][M := s1[L]]
    requires !less(s1[M], s[lo]) ==> L' == L && t == s1
    ensures M < R
    ensures Regions(t, lo, L', M + 1, R - 1, hi, less)
    ensures !less(t[lo + 1], t[M])
  {
    assert t[lo] == s[lo] && t[lo + 1] == s[lo + 1];
    assert t[R] == s[M];
  }

  /** After the scan down from R - 1, the invariant holds again. */
  lemma StepAboveScan<T>(s: seq<T>, lo: nat, L: nat, M: nat, R: nat, R': nat, hi: nat, less: (T, T) -> bool)
    requires Regions(s, lo, L, M, R, hi, less) && M <= R' + 1 <= R + 1
    requires !less(s[lo + 1], s[R']) && AllAbove(s, R' + 1, R + 1, s[lo + 1], less)
    ensures Cursors(s, lo, L, M, R', hi, less)
  {
  }

  /**
   * The exchanges of `split3`'s loop for an A[M] greater than p2: A[M] and
   * A[R] change places, and A[M] goes on to A[L] when it is less than p1.
   */
  method ExchangeAbove<T>(A: array<T>, lo: nat, L: nat, M: nat, R: nat, hi: nat, less: (T, T) -> bool, ghost orig: seq<T>)
    returns (L': nat)
    requires Cursors(A[..], lo, L, M, R, hi, less) && M <= R && less(A[lo + 1], A[M])
    requires Permuted(A[..], orig, lo + 2, hi)
    modifies A
    ensures M < R && Regions(A[..], lo, L', M + 1, R - 1, hi, less) && !less(A[lo + 1], A[M])
    ensures Permuted(A[..], orig, lo + 2, hi)
  {
    ghost var s := A[..];
    SwapWithin(A, M, R, lo + 2, hi, s, orig);
    ghost var s1 := A[..];
    L' := L;
    if less(A[M], A[lo]) {
      SwapWithin(A, L, M, lo + 2, hi, s1, orig);
      L' := L + 1;
    }
    StepAboveSwaps(s, s1, A[..], lo, L, L', M, R, hi, less);
  }

  /** One iteration of `split3`'s loop for an A[M] greater than p2: the exchanges, then the scan down. */
  method SplitAbove<T>(A: array<T>, lo: nat, L: nat, M: nat, R: nat, hi: nat, less: (T, T) -> bool, ghost orig: seq<T>)
    returns (L': nat, R': nat)
    requires Cursors(A[..], lo, L, M, R, hi, less) && M <= R && less(A[lo + 1], A[M])
    requires Permuted(A[..], orig, lo + 2, hi)
    modifies A
    ensures Cursors(A[..], lo, L', M + 1, R', hi, less) && R' < R
    ensures Permuted(A[..], orig, lo + 2, hi)
  {
    L' := ExchangeAbove(A, lo, L, M, R, hi, less, orig);
    ghost var s := A[..];
    R' := ScanDown(A, R - 1, M, A[lo + 1], less);
    StepAboveScan(s, lo, L', M + 1, R - 1, R', hi, less);
  }

  /** One iteration of `split3`'s main loop: looks at A[M] and moves it to its region. */
  method SplitStep<T>(A: array<T>, lo: nat, L: nat, M: nat, R: nat, hi: nat, less: (T, T) -> bool, ghost orig: seq<T>)
    returns (L': nat, M': nat, R': nat)
    requires Cursors(A[..], lo, L, M, R, hi, less) && M <= R
    requires Permuted(A[..], orig, lo + 2, hi)
    modifies A
    ensures Cursors(A[..], lo, L', M', R', hi, less) && M' == M + 1 && R' <= R
    ensures Permuted(A[..], orig, lo + 2, hi)
  {
    if less(A[M], A[lo]) {
      ghost var s := A[..];
      SwapWithin(A, M, L, lo + 2, hi, s, orig);
      StepBelow(s, lo, L, M, R, hi, less);
      L', M', R' := L + 1, M + 1, R;
    } else if less(A[lo + 1], A[M]) {
      L', R' := SplitAbove(A, lo, L, M, R, hi, less, orig);
      M' := M + 1;
    } else {
      L', M', R' := L, M + 1, R;
    }
  }

  /** `split3`'s main loop: runs until M passes R. */
  method SplitLoop<T>(A: array<T>, lo: nat, L0: nat, M0: nat, R0: nat, hi: nat, less: (T, T) -> bool)
    returns (L: nat, M: nat, R: nat)
    requires Cursors(A[..], lo, L0, M0, R0, hi, less)
    modifies A
    ensures Regions(A[..], lo, L, M, R, hi, less) && M == R + 1
    ensures Permuted(A[..], old(A[..]), lo + 2, hi)
  {
    ghost var orig := A[..];
    L, M, R := L0, M0, R0;
    while M <= R
      invariant Cursors(A[..], lo, L, M, R, hi, less)
      invariant Permuted(A[..], orig, lo + 2, hi)
      decreases R + 1 - M
    {
      L, M, R := SplitStep(A, lo, L, M, R, hi, less, orig);
    }
  }

  /**
   * After the first two closing exchanges of `split3` (L lowered by two):
   * the pivots p1 = s[lo] and p2 = s[lo + 1] sit at L - 2 and L - 1, and the
   * three regions have kept their bounds.
   */
  ghost predicate PivotsMoved<T>(s: seq<T>, t: seq<T>, lo: nat, L: nat, R: nat, hi: nat, less: (T, T) -> bool) {
    && lo + 2 <= L <= R + 1 <= hi <= |s| == |t|
    && t[L - 2] == s[lo] && t[L - 1] == s[lo + 1]
    && AllBelow(t, lo, L - 2, s[lo], less)
    && NoneBelow(t, L, R + 1, s[lo], less) && NoneAbove(t, L, R + 1, s[lo + 1], less)
    && AllAbove(t, R + 1, hi, s[lo + 1], less)
  }

  /** The first two closing exchanges of `split3` move the pivots to L - 2 and L - 1. */
  lemma PivotsPlaced<T>(s: seq<T>, s1: seq<T>, t: seq<T>, lo: nat, L: nat, R: nat, hi: nat, less: (T, T) -> bool)
    requires Regions(s, lo, L, R + 1, R, hi, less)
    requires s1 == s[lo + 1 := s[L - 1]][L - 1 := s[lo + 1]]
    requires t == s1[lo := s1[L - 2]][L - 2 := s1[lo]]
    ensures PivotsMoved(s, t, lo, L, R, hi, less)
  {
    forall k | lo <= k < L - 2
      ensures less(t[k], s[lo])
    {
      if k == lo {
        assert t[k] == s[L - 2 + if L - 2 == lo + 1 then 1 else 0];
      } else if k == lo + 1 {
        assert t[k] == s[L - 1];
      } else {
        assert t[k] == s[k];
      }
    }
  }

  /** The first two closing exchanges of `split3`, moving the pivots to L - 2 and L - 1. */
  method MovePivots<T>(A: array<T>, lo: nat, L: nat, R: nat, hi: nat, less: (T, T) -> bool, ghost s: seq<T>)
    returns (ghost t: seq<T>)
    requires A[..] == s && Regions(s, lo, L, R + 1, R, hi, less)
    modifies A
    ensures A[..] == t
    ensures PivotsMoved(s, t, lo, L, R, hi, less)
    ensures Permuted(t, s, lo, hi)
  {
    Swap(A, lo + 1, L - 1, s);
    ghost var s1 := A[..];
    Swap(A, lo, L - 2, s1);
    t := A[..];
    PivotsPlaced(s, s1, t, lo, L, R, hi, less);
    TwoSwapsPermute(s, s1, t, lo + 1, L - 1, lo, L - 2, lo, hi);
  }

  /** The last exchange of `split3` puts p2 at R, the end of the middle part. */
  lemma SecondPivotPlaced<T(!new)>(s: seq<T>, t: seq<T>, u: seq<T>, lo: nat, L: nat, R: nat, hi: nat, less: (T, T) -> bool)
    requires StrictWeakOrder(less) && PivotsMoved(s, t, lo, L, R, hi, less) && !less(s[lo + 1], s[lo])
    requires u == t[L - 1 := t[R]][R := t[L - 1]]
    ensures ThreeParts(u, lo, L - 2, R + 1, hi, less)
    ensures u[L - 2] == s[lo] && u[R] == s[lo + 1]
  {
    Irreflexive(less, s[lo + 1]);
  }

  /** The last closing exchange of `split3`: p2 changes places with A[R], the last element of the middle part. */
  method SwapSecondPivot<T(!new)>(A: array<T>, lo: nat, L: nat, R: nat, hi: nat, less: (T, T) -> bool, ghost s: seq<T>)
    requires StrictWeakOrder(less) && PivotsMoved(s, A[..], lo, L, R, hi, less) && !less(s[lo + 1], s[lo])
    requires Permuted(A[..], s, lo, hi)
    modifies A
    ensures ThreeParts(A[..], lo, L - 2, R + 1, hi, less)
    ensures A[L - 2] == s[lo] && A[R] == s[lo + 1]
    ensures Permuted(A[..], s, lo, hi)
  {
    ghost var t := A[..];
    SwapWithin(A, L - 1, R, lo, hi, t, s);
    SecondPivotPlaced(s, t, A[..], lo, L, R, hi, less);
  }

  /**
   * The closing exchanges of `split3`: L goes back by two, the pivots go to
   * L and L + 1, then p2 changes places with A[R], the last element of the
   * middle part.
   */
  method PlacePivots<T(!new)>(A: array<T>, lo: nat, L: nat, R: nat, hi: nat, less: (T, T) -> bool)
    returns (L': nat)
    requires StrictWeakOrder(less) && Regions(A[..], lo, L, R + 1, R, hi, less)
    modifies A
    ensures L' + 2 == L
    ensures ThreeParts(A[..], lo, L', R + 1, hi, less)
    ensures A[L'] == old(A[lo]) && A[R] == old(A[lo + 1])
    ensures Permuted(A[..], old(A[..]), lo, hi)
  {
    ghost var s := A[..];
    L' := L - 2;
    ghost var t := MovePivots(A, lo, L, R, hi, less, s);
    SwapSecondPivot(A, lo, L, R, hi, less, s);
  }

  /**
   * `split3` once the pivots p1 = A[lo] and p2 = A[lo + 1] are in place:
   * the flag, the initial scans, the main loop and the final exchanges.
   */
  method SplitAroundPivots<T(!new)>(A: array<T>, lo: nat, hi: nat, less: (T, T) -> bool)
    returns (L: nat, M: nat, pivotsEqual: bool)
    requires lo + 5 <= hi <= A.Length && StrictWeakOrder(less)
    requires !less(A[lo + 1], A[lo]) && !less(A[lo + 2], A[lo]) && !less(A[lo + 1], A[lo + 2])
    modifies A
    ensures ThreeParts(A[..], lo, L, M, hi, less)
    ensures A[L] == old(A[lo]) && A[M - 1] == old(A[lo + 1])
    ensures pivotsEqual == !less(A[L], A[M - 1])
    ensures Permuted(A[..], old(A[..]), lo, hi)
  {
    ghost var s := A[..];
    pivotsEqual := !less(A[lo], A[lo + 1]);
    var L0 := ScanUp(A, lo + 2, lo + 2, A[lo], less);
    var R0 := ScanDown(A, hi - 1, lo + 2, A[lo + 1], less);
    LoopStart(s, lo, R0, hi, less);
    var R;
    L, M, R := SplitLoop(A, lo, L0, L0, R0, hi, less);
    ghost var s1 := A[..];
    assert s1[lo] == s1[..lo + 2][lo] == s[lo] && s1[lo + 1] == s1[..lo + 2][lo + 1] == s[lo + 1];
    PermutedWiden(s1, s, lo + 2, hi, lo, hi);
    L := PlacePivots(A, lo, L, R, hi, less);
    PermutedTrans(A[..], s1, s, lo, hi);
  }

  /**
   * `split3(A, n, f)` on A[lo..hi): picks the pivots p1 and p2 from five
   * samples and partitions the range into elements less than p1, p1,
   * elements between p1 and p2 (ending with p2), and elements greater than
   * p2. Returns the position L of p1, the end M of the middle part, and
   * whether the pivots are equivalent, when the middle part need not be
   * sorted.
   */
  method Split3<T(!new)>(A: array<T>, lo: nat, hi: nat, less: (T, T) -> bool)
    returns (L: nat, M: nat, pivotsEqual: bool)
    requires lo + 5 <= hi <= A.Length && StrictWeakOrder(less)
    modifies A
    ensures ThreeParts(A[..], lo, L, M, hi, less)
    ensures hi - lo >= 6 ==>
      (exists t :: && |t| == 5 && SortedBetween(t, 0, 5, less)
                   && multiset(t) == multiset(Samples(old(A[..]), lo, hi - lo))
                   && A[L] == t[1] && A[M - 1] == t[3])
    ensures pivotsEqual == !less(A[L], A[M - 1])
    ensures Permuted(A[..], old(A[..]), lo, hi)
  {
    ghost var orig := A[..];
    ChoosePivots(A, lo, hi, less);
    ghost var s := A[..];
    L, M, pivotsEqual := SplitAroundPivots(A, lo, hi, less);
    PermutedTrans(A[..], s, orig, lo, hi);
    ghost var t := Unpivoted(s, lo);
    assert A[L] == t[1] && A[M - 1] == t[3];
  }

  // ---------------------------------------------------------------- drivers

  /** The pivots `split3` leaves are in order: p1 is not greater than p2. */
  lemma PivotsOrdered<T(!new)>(s: seq<T>, lo: nat, L: nat, M: nat, hi: nat, less: (T, T) -> bool)
    requires StrictWeakOrder(less) && ThreeParts(s, lo, L, M, hi, less)
    ensures !less(s[M - 1], s[L])
  {
    if M - 1 == L {
      Irreflexive(less, s[L]);
    }
  }

  /**
   * When `split3` reports equal pivots, the middle part is already sorted:
   * all of its elements are equivalent to p1 and p2.
   */
  lemma PivotsEqualMiddleSorted<T(!new)>(s: seq<T>, lo: nat, L: nat, M: nat, hi: nat, less: (T, T) -> bool)
    requires StrictWeakOrder(less) && ThreeParts(s, lo, L, M, hi, less) && !less(s[L], s[M - 1])
    ensures SortedBetween(s, L + 1, M, less)
  {
    EquivalentSorted(s, L + 1, M, s[L], s[M - 1], less);
  }

  /** Sorting the left part after `split3` keeps the three parts and the pivots. */
  lemma ThreePartsAfterLeft<T>(s1: seq<T>, s2: seq<T>, lo: nat, L: nat, M: nat, hi: nat, less: (T, T) -> bool)
    requires ThreeParts(s1, lo, L, M, hi, less) && Permuted(s2, s1, lo, L)
    ensures ThreeParts(s2, lo, L, M, hi, less)
    ensures s2[L] == s1[L] && s2[M - 1] == s1[M - 1]
  {
    PermutedKeepsBounds(s2, s1, lo, L, s1[L], less);
    PermutedAgree(s2, s1, lo, L, L, hi);
  }

  /** Rearranging the middle part, then the right part, after `split3` keeps p1 and the left part. */
  lemma LeftKept<T>(s1: seq<T>, s2: seq<T>, s3: seq<T>, lo: nat, L: nat, M: nat, e: nat, less: (T, T) -> bool)
    requires ThreeParts(s1, lo, L, M, e, less)
    requires Permuted(s2, s1, L + 1, M) && Permuted(s3, s2, M, e)
    ensures s3[L] == s1[L] && AllBelow(s3, lo, L, s1[L], less)
  {
    PermutedAgree(s3, s2, M, e, lo, L + 1);
    PermutedAgree(s2, s1, L + 1, M, lo, L + 1);
  }

  /**
   * Rearranging the middle part, then the right part, after `split3` keeps
   * the middle part between the pivots; a sorted middle part stays sorted.
   */
  lemma MiddleKept<T>(s1: seq<T>, s2: seq<T>, s3: seq<T>, lo: nat, L: nat, M: nat, e: nat, less: (T, T) -> bool)
    requires ThreeParts(s1, lo, L, M, e, less)
    requires Permuted(s2, s1, L + 1, M) && Permuted(s3, s2, M, e)
    ensures NoneBelow(s3, L + 1, M, s1[L], less) && NoneAbove(s3, L + 1, M, s1[M - 1], less)
    ensures SortedBetween(s2, L + 1, M, less) ==> SortedBetween(s3, L + 1, M, less)
  {
    PermutedAgree(s3, s2, M, e, L + 1, M);
    PermutedKeepsBounds(s2, s1, L + 1, M, s1[L], less);
    PermutedKeepsBounds(s2, s1, L + 1, M, s1[M - 1], less);
  }

  /** Rearranging the middle part, then the right part, after `split3` keeps the right part above p2. */
  lemma RightKept<T>(s1: seq<T>, s2: seq<T>, s3: seq<T>, lo: nat, L: nat, M: nat, e: nat, less: (T, T) -> bool)
    requires ThreeParts(s1, lo, L, M, e, less)
    requires Permuted(s2, s1, L + 1, M) && Permuted(s3, s2, M, e)
    ensures AllAbove(s3, M, e, s1[M - 1], less)
  {
    PermutedAgree(s2, s1, L + 1, M, M, e);
    PermutedKeepsBounds(s3, s2, M, e, s1[M - 1], less);
  }

  /**
   * p1 at L, a left part below p1, a sorted middle part between p1 and p2 and
   * a sorted right part above p2 make s[L..e) sorted and s[lo..L) below it.
   */
  lemma PartsJoin<T(!new)>(s: seq<T>, lo: nat, L: nat, M: nat, e: nat, p2: T, less: (T, T) -> bool)
    requires StrictWeakOrder(less) && lo <= L < M <= e <= |s| && !less(p2, s[L])
    requires AllBelow(s, lo, L, s[L], less)
    requires NoneBelow(s, L + 1, M, s[L], less) && NoneAbove(s, L + 1, M, p2, less)
    requires AllAbove(s, M, e, p2, less)
    requires SortedBetween(s, L + 1, M, less) && SortedBetween(s, M, e, less)
    ensures SortedBetween(s, L, e, less) && Below(s, lo, L, e, less)
  {
    var p1 := s[L];
    Irreflexive(less, p1);
    forall j | M <= j < e
      ensures !less(s[j], p1)
    {
      if less(s[j], p1) {
        Transitive(less, p2, s[j], p1);
      }
    }
    assert NoneBelow(s, L, e, p1, less);
    BelowByHighPivot(s, L + 1, M, e, p2, less);
    JoinSorted(s, L + 1, M, e, less);
    JoinSorted(s, L, L + 1, e, less);
    BelowByLowPivot(s, lo, L, e, p1, less);
  }

  /**
   * After `split3` (giving s1), sorting the middle part (s2) and then the
   * right part (s3) leaves s3[L..e) sorted, s3[lo..L) below it, and
   * s3[L + 1..e) a rearrangement of s1[L + 1..e).
   */
  lemma PartsSorted<T(!new)>(s1: seq<T>, s2: seq<T>, s3: seq<T>, lo: nat, L: nat, M: nat, e: nat, less: (T, T) -> bool)
    requires StrictWeakOrder(less) && ThreeParts(s1, lo, L, M, e, less)
    requires Permuted(s2, s1, L + 1, M) && SortedBetween(s2, L + 1, M, less)
    requires Permuted(s3, s2, M, e) && SortedBetween(s3, M, e, less)
    ensures SortedBetween(s3, L, e, less) && Below(s3, lo, L, e, less)
    ensures Permuted(s3, s1, L + 1, e)
  {
    LeftKept(s1, s2, s3, lo, L, M, e, less);
    MiddleKept(s1, s2, s3, lo, L, M, e, less);
    RightKept(s1, s2, s3, lo, L, M, e, less);
    PivotsOrdered(s1, lo, L, M, e, less);
    PartsJoin(s3, lo, L, M, e, s1[M - 1], less);
    PermutedWiden(s2, s1, L + 1, M, L + 1, e);
    PermutedWiden(s3, s2, M, e, L + 1, e);
    PermutedTrans(s3, s2, s1, L + 1, e);
  }

  /**
   * The invariant of `quicksort_serial`'s loop with e the end of the part
   * left to sort: s[e..hi) is sorted, s[lo..e) is below it, and s[lo..hi)
   * is a rearrangement of orig[lo..hi).
   */
  ghost predicate SortedFrom<T>(s: seq<T>, orig: seq<T>, lo: nat, e: nat, hi: nat, less: (T, T) -> bool) {
    && SortedBetween(s, e, hi, less) && Below(s, lo, e, hi, less)
    && Permuted(s, orig, lo, hi)
  }

  /**
   * The invariant of `quicksort_serial`'s loop survives a round that
   * rearranges s0[lo..e) into s3 with s3[L..e) sorted and above s3[lo..L).
   */
  lemma RoundKeeps<T>(s0: seq<T>, s3: seq<T>, orig: seq<T>, lo: nat, L: nat, e: nat, hi: nat, less: (T, T) -> bool)
    requires SortedFrom(s0, orig, lo, e, hi, less)
    requires Permuted(s3, s0, lo, e) && lo <= L
    requires SortedBetween(s3, L, e, less) && Below(s3, lo, L, e, less)
    ensures SortedFrom(s3, orig, lo, L, hi, less)
  {
    SortedOutside(s3, s0, lo, e, e, hi, less);
    PermutedKeepsBelow(s3, s0, lo, e, hi, less);
    JoinSorted(s3, L, e, hi, less);
    PermutedWiden(s3, s0, lo, e, lo, hi);
    PermutedTrans(s3, s0, orig, lo, hi);
  }

  /**
   * A round of `quicksort_serial`'s loop, from s0 through `split3` (s1), the
   * middle part sorted (s2) and the right part sorted (s3), keeps the loop's
   * invariant with L as the new end of the part left to sort.
   */
  lemma RoundDone<T(!new)>(s0: seq<T>, s1: seq<T>, s2: seq<T>, s3: seq<T>, orig: seq<T>,
                           lo: nat, L: nat, M: nat, e: nat, hi: nat, less: (T, T) -> bool)
    requires StrictWeakOrder(less) && SortedFrom(s0, orig, lo, e, hi, less)
    requires ThreeParts(s1, lo, L, M, e, less) && Permuted(s1, s0, lo, e)
    requires Permuted(s2, s1, L + 1, M) && SortedBetween(s2, L + 1, M, less)
    requires Permuted(s3, s2, M, e) && SortedBetween(s3, M, e, less)
    ensures SortedFrom(s3, orig, lo, L, hi, less)
  {
    PartsSorted(s1, s2, s3, lo, L, M, e, less);
    PermutedWiden(s3, s1, L + 1, e, lo, e);
    PermutedTrans(s3, s1, s0, lo, e);
    RoundKeeps(s0, s3, orig, lo, L, e, hi, less);
  }

  /** Sorting the part left to sort finishes `quicksort_serial`. */
  lemma FinishKeeps<T>(s0: seq<T>, s: seq<T>, orig: seq<T>, lo: nat, e: nat, hi: nat, less: (T, T) -> bool)
    requires SortedFrom(s0, orig, lo, e, hi, less)
    requires Permuted(s, s0, lo, e) && SortedBetween(s, lo, e, less)
    ensures SortedBetween(s, lo, hi, less) && Permuted(s, orig, lo, hi)
  {
    RoundKeeps(s0, s, orig, lo, lo, e, hi, less);
  }

  /**
   * The middle part of a round of `quicksort_serial`: sorted by a recursive
   * call unless the pivots are equal, when it is sorted already.
   */
  method SerialMiddle<T(!new)>(A: array<T>, lo: nat, L: nat, M: nat, e: nat, midEq: bool, less: (T, T) -> bool, large: bool)
    requires StrictWeakOrder(less) && ThreeParts(A[..], lo, L, M, e, less) && midEq == !less(A[L], A[M - 1])
    modifies A
    ensures SortedBetween(A[..], L + 1, M, less) && Permuted(A[..], old(A[..]), L + 1, M)
    decreases e - lo, 0
  {
    if !midEq {
      QuicksortSerial(A, L + 1, M, less, large);
    } else {
      PivotsEqualMiddleSorted(A[..], lo, L, M, e, less);
    }
  }

  /**
   * One round of `quicksort_serial`'s loop on the part A[lo..e) left to
   * sort: `split3`, then the middle part (unless the pivots are equal) and
   * the right part sorted by recursive calls. Returns L, the new end of the
   * part left to sort; the loop's invariant holds for it.
   */
  method SerialRound<T(!new)>(A: array<T>, lo: nat, e: nat, hi: nat, less: (T, T) -> bool, large: bool, ghost orig: seq<T>)
    returns (L: nat)
    requires lo + 5 <= e <= hi <= A.Length && StrictWeakOrder(less)
    requires SortedFrom(A[..], orig, lo, e, hi, less)
    modifies A
    ensures lo <= L < e
    ensures SortedFrom(A[..], orig, lo, L, hi, less)
    decreases e - lo, 1
  {
    ghost var s0 := A[..];
    var M, midEq;
    L, M, midEq := Split3(A, lo, e, less);
    ghost var s1 := A[..];
    SerialMiddle(A, lo, L, M, e, midEq, less, large);
    ghost var s2 := A[..];
    QuicksortSerial(A, M, e, less, large);
    RoundDone(s0, s1, s2, A[..], orig, lo, L, M, e, hi, less);
  }

  /**
   * The loop of `quicksort_serial(A, n, f)` on A[lo..hi): while the part
   * A[lo..lo + n) left to sort is not a base case, runs a round on it.
   */
  method SerialRounds<T(!new)>(A: array<T>, lo: nat, hi: nat, less: (T, T) -> bool, large: bool)
    returns (n: nat)
    requires lo <= hi <= A.Length && StrictWeakOrder(less)
    modifies A
    ensures lo + n <= hi && BaseCase(n, large)
    ensures SortedFrom(A[..], old(A[..]), lo, lo + n, hi, less)
    decreases hi - lo, 2
  {
    ghost var orig := A[..];
    n := hi - lo;
    while !BaseCase(n, large)
      invariant lo + n <= hi && SortedFrom(A[..], orig, lo, lo + n, hi, less)
      decreases n
    {
      var L := SerialRound(A, lo, lo + n, hi, less, large, orig);
      n := L - lo;
    }
  }

  /**
   * `quicksort_serial(A, n, f)` on A[lo..hi): the rounds of its loop leave a
   * base case A[lo..lo + n) below a sorted rest, and insertion sort
   * finishes it.
   */
  method QuicksortSerial<T(!new)>(A: array<T>, lo: nat, hi: nat, less: (T, T) -> bool, large: bool)
    requires lo <= hi <= A.Length && StrictWeakOrder(less)
    modifies A
    ensures SortedBetween(A[..], lo, hi, less)
    ensures Permuted(A[..], old(A[..]), lo, hi)
    decreases hi - lo, 3
  {
    var n := SerialRounds(A, lo, hi, less, large);
    ghost var s := A[..];
    InsertionSort(A, lo, lo + n, less);
    FinishKeeps(s, A[..], old(A[..]), lo, lo + n, hi, less);
  }

  /**
   * The three recursive calls of `quicksort` after `split3` (the middle one
   * skipped when the pivots are equal) leave the whole range sorted and a
   * permutation of what it held before the split.
   */
  lemma ForkJoined<T(!new)>(s0: seq<T>, s1: seq<T>, s2: seq<T>, s3: seq<T>, s4: seq<T>,
                            lo: nat, L: nat, M: nat, hi: nat, midEq: bool, less: (T, T) -> bool)
    requires StrictWeakOrder(less)
    requires ThreeParts(s1, lo, L, M, hi, less) && Permuted(s1, s0, lo, hi)
    requires midEq == !less(s1[L], s1[M - 1])
    requires Permuted(s2, s1, lo, L) && SortedBetween(s2, lo, L, less)
    requires if midEq then s3 == s2 else Permuted(s3, s2, L + 1, M) && SortedBetween(s3, L + 1, M, less)
    requires Permuted(s4, s3, M, hi) && SortedBetween(s4, M, hi, less)
    ensures SortedBetween(s4, lo, hi, less) && Permuted(s4, s0, lo, hi)
  {
    ThreePartsAfterLeft(s1, s2, lo, L, M, hi, less);
    if midEq {
      PivotsEqualMiddleSorted(s2, lo, L, M, hi, less);
    }
    PartsSorted(s2, s3, s4, lo, L, M, hi, less);
    LeftJoined(s0, s1, s2, s4, lo, L, hi, less);
  }

  /** A sorted left part joins the sorted rest above it into one sorted permutation. */
  lemma LeftJoined<T>(s0: seq<T>, s1: seq<T>, s2: seq<T>, s4: seq<T>, lo: nat, L: nat, hi: nat, less: (T, T) -> bool)
    requires Permuted(s1, s0, lo, hi) && L < hi
    requires Permuted(s2, s1, lo, L) && SortedBetween(s2, lo, L, less)
    requires Permuted(s4, s2, L + 1, hi) && SortedBetween(s4, L, hi, less) && Below(s4, lo, L, hi, less)
    ensures SortedBetween(s4, lo, hi, less) && Permuted(s4, s0, lo, hi)
  {
    SortedOutside(s4, s2, L + 1, hi, lo, L, less);
    JoinSorted(s4, lo, L, hi, less);
    PermutedWiden(s2, s1, lo, L, lo, hi);
    PermutedWiden(s4, s2, L + 1, hi, lo, hi);
    PermutedTrans(s4, s2, s1, lo, hi);
    PermutedTrans(s4, s1, s0, lo, hi);
  }

  /**
   * `quicksort(A, n, f)` on A[lo..hi): below 1024 elements the serial sort;
   * otherwise `split3`, then the left, middle (unless the pivots are equal)
   * and right parts sorted by recursive calls, which the source forks and
   * the model runs one after the other.
   */
  method Quicksort<T(!new)>(A: array<T>, lo: nat, hi: nat, less: (T, T) -> bool, large: bool)
    requires lo <= hi <= A.Length && StrictWeakOrder(less)
    modifies A
    ensures SortedBetween(A[..], lo, hi, less)
    ensures Permuted(A[..], old(A[..]), lo, hi)
    decreases hi - lo
  {
    if hi - lo < 1024 {
      QuicksortSerial(A, lo, hi, less, large);
    } else {
      ghost var s0 := A[..];
      var L, M, midEq := Split3(A, lo, hi, less);
      ghost var s1 := A[..];
      Quicksort(A, lo, L, less, large);
      ghost var s2 := A[..];
      if !midEq {
        Quicksort(A, L + 1, M, less, large);
      }
      ghost var s3 := A[..];
      Quicksort(A, M, hi, less, large);
      ForkJoined(s0, s1, s2, s3, A[..], lo, L, M, hi, midEq, less);
    }
  }
}
