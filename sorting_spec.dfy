/**
 * What the comparison sort promises, stated over an index range [lo, hi) of
 * an array's contents: strict weak orders, sortedness, permutations, and the
 * bounds a pivot puts on the parts of a partition.
 */
module SortingSpec {

  /**
   * The three laws of a strict weak order for one triple of elements:
   * irreflexivity, transitivity, and transitivity of incomparability (stated
   * as negative transitivity: not a < b and not b < c give not a < c).
   */
  ghost predicate OrderedTriple<T>(less: (T, T) -> bool, a: T, b: T, c: T) {
    && !less(a, a)
    && (less(a, b) && less(b, c) ==> less(a, c))
    && (!less(a, b) && !less(b, c) ==> !less(a, c))
  }

  /** `less` is a strict weak order, what a sort's comparator must be. */
  ghost predicate StrictWeakOrder<T(!new)>(less: (T, T) -> bool) {
    forall a, b, c :: OrderedTriple(less, a, b, c)
  }

  lemma Irreflexive<T(!new)>(less: (T, T) -> bool, a: T)
    requires StrictWeakOrder(less)
    ensures !less(a, a)
  {
    assert OrderedTriple(less, a, a, a);
  }

  lemma Asymmetric<T(!new)>(less: (T, T) -> bool, a: T, b: T)
    requires StrictWeakOrder(less) && less(a, b)
    ensures !less(b, a)
  {
    assert OrderedTriple(less, a, b, a);
  }

  lemma Transitive<T(!new)>(less: (T, T) -> bool, a: T, b: T, c: T)
    requires StrictWeakOrder(less) && less(a, b) && less(b, c)
    ensures less(a, c)
  {
    assert OrderedTriple(less, a, b, c);
  }

  lemma NegativelyTransitive<T(!new)>(less: (T, T) -> bool, a: T, b: T, c: T)
    requires StrictWeakOrder(less) && !less(a, b) && !less(b, c)
    ensures !less(a, c)
  {
    assert OrderedTriple(less, a, b, c);
  }

  /** s[lo..hi) is sorted: no element is less than one before it. */
  ghost predicate SortedBetween<T>(s: seq<T>, lo: nat, hi: nat, less: (T, T) -> bool) {
    && lo <= hi <= |s|
    && forall i, j :: lo <= i < j < hi ==> !less(s[j], s[i])
  }

  /** No element of s[mid..hi) is less than an element of s[lo..mid). */
  ghost predicate Below<T>(s: seq<T>, lo: nat, mid: nat, hi: nat, less: (T, T) -> bool) {
    && lo <= mid <= hi <= |s|
    && forall i, j :: lo <= i < mid <= j < hi ==> !less(s[j], s[i])
  }

  /** The multiset of the elements of s[lo..hi), collected from the right. */
  ghost function Bag<T>(s: seq<T>, lo: nat, hi: nat): multiset<T>
    requires lo <= hi <= |s|
    decreases hi - lo
  {
    if lo == hi then multiset{} else Bag(s, lo, hi - 1) + multiset{s[hi - 1]}
  }

  /** Bag is the multiset of the slice. */
  lemma {:induction false} BagIsMultiset<T>(s: seq<T>, lo: nat, hi: nat)
    requires lo <= hi <= |s|
    ensures Bag(s, lo, hi) == multiset(s[lo..hi])
    decreases hi - lo
  {
    if lo < hi {
      BagIsMultiset(s, lo, hi - 1);
      assert s[lo..hi] == s[lo..hi - 1] + [s[hi - 1]];
    }
  }

  /** Bags of adjacent ranges add up. */
  lemma {:induction false} BagSplit<T>(s: seq<T>, lo: nat, mid: nat, hi: nat)
    requires lo <= mid <= hi <= |s|
    ensures Bag(s, lo, hi) == Bag(s, lo, mid) + Bag(s, mid, hi)
    decreases hi - mid
  {
    if mid < hi {
      BagSplit(s, lo, mid, hi - 1);
    }
  }

  /** Ranges holding the same elements at the same places have the same bag. */
  lemma {:induction false} BagSame<T>(a: seq<T>, b: seq<T>, lo: nat, hi: nat)
    requires lo <= hi <= |a| && hi <= |b|
    requires forall k :: lo <= k < hi ==> a[k] == b[k]
    ensures Bag(a, lo, hi) == Bag(b, lo, hi)
    decreases hi - lo
  {
    if lo < hi {
      BagSame(a, b, lo, hi - 1);
    }
  }

  /**
   * a is b with b[lo..hi) rearranged: the same length, the same elements
   * outside [lo, hi), and the same multiset inside.
   */
  ghost predicate Permuted<T>(a: seq<T>, b: seq<T>, lo: nat, hi: nat) {
    && lo <= hi <= |a| == |b|
    && a[..lo] == b[..lo]
    && a[hi..] == b[hi..]
    && Bag(a, lo, hi) == Bag(b, lo, hi)
  }

  /** Every element of s[lo..hi) is less than x. */
  ghost predicate AllBelow<T>(s: seq<T>, lo: nat, hi: nat, x: T, less: (T, T) -> bool) {
    hi <= |s| && forall k :: lo <= k < hi ==> less(s[k], x)
  }

  /** No element of s[lo..hi) is less than x. */
  ghost predicate NoneBelow<T>(s: seq<T>, lo: nat, hi: nat, x: T, less: (T, T) -> bool) {
    hi <= |s| && forall k :: lo <= k < hi ==> !less(s[k], x)
  }

  /** No element of s[lo..hi) is greater than x. */
  ghost predicate NoneAbove<T>(s: seq<T>, lo: nat, hi: nat, x: T, less: (T, T) -> bool) {
    hi <= |s| && forall k :: lo <= k < hi ==> !less(x, s[k])
  }

  /** Every element of s[lo..hi) is greater than x. */
  ghost predicate AllAbove<T>(s: seq<T>, lo: nat, hi: nat, x: T, less: (T, T) -> bool) {
    hi <= |s| && forall k :: lo <= k < hi ==> less(x, s[k])
  }

  /** Exchanging two elements of s[lo..hi) keeps its multiset. */
  lemma SwapMultiset<T>(s: seq<T>, i: nat, j: nat, lo: nat, hi: nat)
    requires lo <= i < hi && lo <= j < hi && hi <= |s|
    ensures multiset(s[i := s[j]][j := s[i]][lo..hi]) == multiset(s[lo..hi])
  {
    var t := s[i := s[j]][j := s[i]];
    if i != j {
      var u := s[lo..hi];
      assert t[lo..hi] == u[i - lo := u[j - lo]][j - lo := u[i - lo]];
    } else {
      assert t == s;
    }
  }

  /** Exchanging two elements of s inside [lo, hi) rearranges s[lo..hi). */
  lemma SwapPermutes<T>(s: seq<T>, i: nat, j: nat, lo: nat, hi: nat)
    requires lo <= i < hi && lo <= j < hi && hi <= |s|
    ensures Permuted(s[i := s[j]][j := s[i]], s, lo, hi)
  {
    var t := s[i := s[j]][j := s[i]];
    SwapMultiset(s, i, j, lo, hi);
    BagIsMultiset(s, lo, hi);
    BagIsMultiset(t, lo, hi);
    assert t[..lo] == s[..lo];
    assert t[hi..] == s[hi..];
  }

  /** An exchange inside [lo, hi) keeps s a rearrangement of orig. */
  lemma SwapKeepsPermuted<T>(s: seq<T>, i: nat, j: nat, lo: nat, hi: nat, orig: seq<T>)
    requires Permuted(s, orig, lo, hi) && lo <= i < hi && lo <= j < hi
    ensures Permuted(s[i := s[j]][j := s[i]], orig, lo, hi)
  {
    SwapPermutes(s, i, j, lo, hi);
    PermutedTrans(s[i := s[j]][j := s[i]], s, orig, lo, hi);
  }

  /** Two exchanges inside [lo, hi) rearrange s[lo..hi). */
  lemma TwoSwapsPermute<T>(s: seq<T>, s1: seq<T>, t: seq<T>, i: nat, j: nat, k: nat, l: nat, lo: nat, hi: nat)
    requires lo <= i < hi && lo <= j < hi && lo <= k < hi && lo <= l < hi && hi <= |s|
    requires s1 == s[i := s[j]][j := s[i]] && t == s1[k := s1[l]][l := s1[k]]
    ensures Permuted(t, s, lo, hi)
  {
    SwapPermutes(s, i, j, lo, hi);
    SwapKeepsPermuted(s1, k, l, lo, hi, s);
  }

  /** Rearranging twice is rearranging. */
  lemma PermutedTrans<T>(a: seq<T>, b: seq<T>, c: seq<T>, lo: nat, hi: nat)
    requires Permuted(a, b, lo, hi) && Permuted(b, c, lo, hi)
    ensures Permuted(a, c, lo, hi)
  {
  }

  /** Rearranging a range rearranges every range around it. */
  lemma PermutedWiden<T>(a: seq<T>, b: seq<T>, lo: nat, hi: nat, lo': nat, hi': nat)
    requires Permuted(a, b, lo, hi) && lo' <= lo && hi <= hi' <= |a|
    ensures Permuted(a, b, lo', hi')
  {
    assert a[..lo'] == a[..lo][..lo'] && b[..lo'] == b[..lo][..lo'];
    assert a[hi'..] == a[hi..][hi' - hi..] && b[hi'..] == b[hi..][hi' - hi..];
    forall k | lo' <= k < lo
      ensures a[k] == b[k]
    {
      assert a[k] == a[..lo][k];
    }
    forall k | hi <= k < hi'
      ensures a[k] == b[k]
    {
      assert a[k] == a[hi..][k - hi];
    }
    BagSame(a, b, lo', lo);
    BagSame(a, b, hi, hi');
    BagSplit(a, lo', lo, hi');
    BagSplit(a, lo, hi, hi');
    BagSplit(b, lo', lo, hi');
    BagSplit(b, lo, hi, hi');
  }

  /** Outside the rearranged range every element stays where it was. */
  lemma PermutedOutside<T>(a: seq<T>, b: seq<T>, lo: nat, hi: nat, k: nat)
    requires Permuted(a, b, lo, hi) && k < |a| && (k < lo || hi <= k)
    ensures a[k] == b[k]
  {
    if k < lo {
      assert a[k] == a[..lo][k];
    } else {
      assert a[k] == a[hi..][k - hi];
    }
  }

  /** A range outside the rearranged one is left as it was. */
  lemma PermutedAgree<T>(a: seq<T>, b: seq<T>, lo: nat, hi: nat, lo': nat, hi': nat)
    requires Permuted(a, b, lo, hi) && hi' <= |a| && (hi' <= lo || hi <= lo')
    ensures forall k :: lo' <= k < hi' ==> a[k] == b[k]
  {
    forall k | lo' <= k < hi'
      ensures a[k] == b[k]
    {
      PermutedOutside(a, b, lo, hi, k);
    }
  }

  /** A sorted range outside the rearranged one stays sorted. */
  lemma SortedOutside<T>(a: seq<T>, b: seq<T>, lo: nat, hi: nat, lo': nat, hi': nat, less: (T, T) -> bool)
    requires Permuted(a, b, lo, hi) && SortedBetween(b, lo', hi', less) && (hi' <= lo || hi <= lo')
    ensures SortedBetween(a, lo', hi', less)
  {
    PermutedAgree(a, b, lo, hi, lo', hi');
  }

  /** Every element of a rearranged range was somewhere in that range before. */
  lemma PermutedElement<T>(a: seq<T>, b: seq<T>, lo: nat, hi: nat, k: nat) returns (k': nat)
    requires Permuted(a, b, lo, hi) && lo <= k < hi
    ensures lo <= k' < hi && a[k] == b[k']
  {
    BagIsMultiset(a, lo, hi);
    BagIsMultiset(b, lo, hi);
    assert a[k] == a[lo..hi][k - lo];
    assert a[k] in multiset(b[lo..hi]);
    var i :| 0 <= i < hi - lo && b[lo..hi][i] == a[k];
    k' := lo + i;
  }

  /** A property of every element of a range holds after the range is rearranged. */
  lemma PermutedKeeps<T>(a: seq<T>, b: seq<T>, lo: nat, hi: nat, P: T -> bool)
    requires Permuted(a, b, lo, hi)
    requires forall k :: lo <= k < hi ==> P(b[k])
    ensures forall k :: lo <= k < hi ==> P(a[k])
  {
    forall k | lo <= k < hi
      ensures P(a[k])
    {
      var k' := PermutedElement(a, b, lo, hi, k);
    }
  }

  /** A bound that holds for every element of a range holds after the range is rearranged. */
  lemma PermutedKeepsBounds<T>(a: seq<T>, b: seq<T>, lo: nat, hi: nat, x: T, less: (T, T) -> bool)
    requires Permuted(a, b, lo, hi)
    ensures AllBelow(b, lo, hi, x, less) ==> AllBelow(a, lo, hi, x, less)
    ensures NoneBelow(b, lo, hi, x, less) ==> NoneBelow(a, lo, hi, x, less)
    ensures NoneAbove(b, lo, hi, x, less) ==> NoneAbove(a, lo, hi, x, less)
    ensures AllAbove(b, lo, hi, x, less) ==> AllAbove(a, lo, hi, x, less)
  {
    if AllBelow(b, lo, hi, x, less) {
      PermutedKeeps(a, b, lo, hi, z => less(z, x));
    }
    if NoneBelow(b, lo, hi, x, less) {
      PermutedKeeps(a, b, lo, hi, z => !less(z, x));
    }
    if NoneAbove(b, lo, hi, x, less) {
      PermutedKeeps(a, b, lo, hi, z => !less(x, z));
    }
    if AllAbove(b, lo, hi, x, less) {
      PermutedKeeps(a, b, lo, hi, z => less(x, z));
    }
  }

  /** Rearranging the lower part keeps it below the upper part. */
  lemma PermutedKeepsBelow<T>(a: seq<T>, b: seq<T>, lo: nat, mid: nat, hi: nat, less: (T, T) -> bool)
    requires Permuted(a, b, lo, mid) && Below(b, lo, mid, hi, less)
    ensures Below(a, lo, mid, hi, less)
  {
    forall i, j | lo <= i < mid <= j < hi
      ensures !less(a[j], a[i])
    {
      var i' := PermutedElement(a, b, lo, mid, i);
      assert a[j] == a[mid..][j - mid] == b[mid..][j - mid] == b[j];
    }
  }

  /** Two sorted ranges, the first below the second, make one sorted range. */
  lemma JoinSorted<T>(s: seq<T>, lo: nat, mid: nat, hi: nat, less: (T, T) -> bool)
    requires SortedBetween(s, lo, mid, less) && SortedBetween(s, mid, hi, less) && Below(s, lo, mid, hi, less)
    ensures SortedBetween(s, lo, hi, less)
  {
  }

  /** Elements less than a pivot are below those not less than it. */
  lemma BelowByLowPivot<T(!new)>(s: seq<T>, lo: nat, mid: nat, hi: nat, x: T, less: (T, T) -> bool)
    requires StrictWeakOrder(less) && lo <= mid <= hi
    requires AllBelow(s, lo, mid, x, less) && NoneBelow(s, mid, hi, x, less)
    ensures Below(s, lo, mid, hi, less)
  {
    forall i, j | lo <= i < mid <= j < hi
      ensures !less(s[j], s[i])
    {
      if less(s[j], s[i]) {
        Transitive(less, s[j], s[i], x);
      }
    }
  }

  /** Elements not greater than a pivot are below those greater than it. */
  lemma BelowByHighPivot<T(!new)>(s: seq<T>, lo: nat, mid: nat, hi: nat, x: T, less: (T, T) -> bool)
    requires StrictWeakOrder(less) && lo <= mid <= hi
    requires NoneAbove(s, lo, mid, x, less) && AllAbove(s, mid, hi, x, less)
    ensures Below(s, lo, mid, hi, less)
  {
    forall i, j | lo <= i < mid <= j < hi
      ensures !less(s[j], s[i])
    {
      if less(s[j], s[i]) {
        Transitive(less, x, s[j], s[i]);
      }
    }
  }

  /**
   * Elements between two equivalent pivots (neither less than the other) are
   * all equivalent, so any order of them is sorted.
   */
  lemma EquivalentSorted<T(!new)>(s: seq<T>, lo: nat, hi: nat, x: T, y: T, less: (T, T) -> bool)
    requires StrictWeakOrder(less) && lo <= hi
    requires !less(x, y) && NoneBelow(s, lo, hi, x, less) && NoneAbove(s, lo, hi, y, less)
    ensures SortedBetween(s, lo, hi, less)
  {
    forall i, j | lo <= i < j < hi
      ensures !less(s[j], s[i])
    {
      NegativelyTransitive(less, x, y, s[i]);
      NegativelyTransitive(less, s[j], x, s[i]);
    }
  }
}
