/**
 * Monoids and the left fold by which every reduction and scan of the
 * primitive engine is specified.
 */
module Monoids {

  /** A monoid as the library receives it per call: an identity and a combinator. */
  datatype Monoid<!T> = Monoid(identity: T, f: (T, T) -> T)

  /**
   * What the library demands of every monoid it is given: `f` is associative
   * and `identity` is a left identity. (A right identity is never needed.)
   */
  ghost predicate IsMonoid<T(!new)>(m: Monoid<T>) {
    && (forall x, y, z :: m.f(m.f(x, y), z) == m.f(x, m.f(y, z)))
    && (forall x :: m.f(m.identity, x) == x)
  }

  /**
   * The addition monoid on counts (`addm<size_t>`): a monoid with identity 0.
   * Counts never exceed the input length, so no wrap-around.
   */
  function AddMonoid(): (m: Monoid<nat>)
    ensures IsMonoid(m)
    ensures m.identity == 0 && forall a: nat, b: nat :: m.f(a, b) == a + b
  {
    var add: (nat, nat) -> nat := (a: nat, b: nat) => a + b;
    Monoid(0, add)
  }

  /**
   * Left fold of `s` from `acc`: f(...f(f(acc, s[0]), s[1])..., s[|s|-1]).
   * It is unfolded at the last element, so that one loop step is one unfolding.
   */
  function Fold<T>(f: (T, T) -> T, acc: T, s: seq<T>): T
    decreases |s|
  {
    if s == [] then acc else f(Fold(f, acc, s[..|s| - 1]), s[|s| - 1])
  }

  /** Folding a concatenation folds the second part from the fold of the first. */
  lemma {:induction false} FoldAppend<T>(f: (T, T) -> T, acc: T, s: seq<T>, t: seq<T>)
    ensures Fold(f, acc, s + t) == Fold(f, Fold(f, acc, s), t)
    decreases |t|
  {
    if t == [] {
      assert s + t == s;
    } else {
      assert (s + t)[..|s + t| - 1] == s + t[..|t| - 1];
      FoldAppend(f, acc, s, t[..|t| - 1]);
    }
  }

  /** Folding is the same when read from the front: the first element is combined first. */
  lemma FoldFront<T>(f: (T, T) -> T, acc: T, s: seq<T>)
    requires |s| > 0
    ensures Fold(f, acc, s) == Fold(f, f(acc, s[0]), s[1..])
  {
    assert [s[0]][..0] == [];
    FoldAppend(f, acc, [s[0]], s[1..]);
    assert [s[0]] + s[1..] == s;
  }

  /**
   * For a monoid, a non-empty part folded from any seed `x` equals `x` combined
   * with the part's own fold from the identity: this is what lets a block be
   * reduced on its own and its result combined later.
   */
  lemma {:induction false} FoldShift<T(!new)>(m: Monoid<T>, x: T, s: seq<T>)
    requires IsMonoid(m) && |s| > 0
    ensures Fold(m.f, x, s) == m.f(x, Fold(m.f, m.identity, s))
    decreases |s|
  {
    var init := s[..|s| - 1];
    if init == [] {
      assert Fold(m.f, m.identity, init) == m.identity;
    } else {
      FoldShift(m, x, init);
    }
  }

  /**
   * Seeding a fold with the first element, as `reduce_serial` does, gives the
   * fold from the identity.
   */
  lemma FoldSeededWithFirst<T(!new)>(m: Monoid<T>, s: seq<T>)
    requires IsMonoid(m) && |s| > 0
    ensures Fold(m.f, s[0], s[1..]) == Fold(m.f, m.identity, s)
  {
    FoldFront(m.f, m.identity, s);
  }
}
