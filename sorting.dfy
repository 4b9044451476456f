/**
 * `Array.prototype.sort` with a comparator, as the client uses it on arrays it
 * owns: the array is rearranged in place. The comparator is given as the
 * relation `after(x, y)`, "the comparator puts `x` after `y`" (a positive result).
 */
module Sorting {
  import opened Seqs
  /** No element is put after its right neighbour. */
  predicate AdjacentOrdered<T>(s: seq<T>, after: (T, T) -> bool)
  {
    forall k :: 0 < k < |s| ==> !after(s[k - 1], s[k])
  }

  /** No element is put after a later one. */
  predicate Ordered<T>(s: seq<T>, after: (T, T) -> bool)
  {
    forall i, j :: 0 <= i < j < |s| ==> !after(s[i], s[j])
  }

  /** The comparator never puts each of two elements after the other. */
  ghost predicate Asymmetric<T(!new)>(after: (T, T) -> bool)
  {
    forall x, y :: after(x, y) ==> !after(y, x)
  }

  /** "Not after" is transitive, as for a comparator that subtracts keys. */
  ghost predicate NotAfterTransitive<T(!new)>(after: (T, T) -> bool)
  {
    forall x, y, z :: !after(x, y) && !after(y, z) ==> !after(x, z)
  }

  /** The comparator never puts one element satisfying `p` after another: `p` picks out elements of equal rank. */
  ghost predicate EqualRank<T(!new)>(p: T -> bool, after: (T, T) -> bool)
  {
    forall x, y :: p(x) && p(y) ==> !after(x, y)
  }

  /** `s` keeps every group of equal-rank elements of `t` in its relative order (the sort is stable). */
  ghost predicate StableFrom<T(!new)>(s: seq<T>, t: seq<T>, after: (T, T) -> bool)
  {
    forall p: T -> bool :: EqualRank(p, after) ==> Filter(s, p) == Filter(t, p)
  }

  /** No element in `s[lo..hi]` is put after its right neighbour. */
  predicate AdjacentOrderedIn<T>(s: seq<T>, lo: int, hi: int, after: (T, T) -> bool)
  {
    forall k :: lo < k < hi && 0 < k < |s| ==> !after(s[k - 1], s[k])
  }

  /**
   * Sorts `a` in place: the contents are a permutation of the old contents,
   * elements of equal rank keep their relative order and, for a comparator that
   * never orders two elements both ways, no element is left after its right neighbour.
   */
  method InsertionSort<T(!new)>(a: array<T>, after: (T, T) -> bool)
    modifies a
    ensures multiset(a[..]) == multiset(old(a[..]))
    ensures StableFrom(a[..], old(a[..]), after)
    ensures Asymmetric(after) ==> AdjacentOrdered(a[..], after)
  {
    var i := 0;
    while i < a.Length
      invariant 0 <= i <= a.Length
      invariant multiset(a[..]) == multiset(old(a[..]))
      invariant StableFrom(a[..], old(a[..]), after)
      invariant Asymmetric(after) ==> AdjacentOrderedIn(a[..], 0, i, after)
    {
      ghost var before := a[..];
      InsertLast(a, i, after);
      StableTrans(a[..], before, old(a[..]), after);
      i := i + 1;
    }
  }

  /** One insertion step: `a[i]` moves left past every element the comparator puts after it. */
  method InsertLast<T(!new)>(a: array<T>, i: int, after: (T, T) -> bool)
    requires 0 <= i < a.Length
    requires Asymmetric(after) ==> AdjacentOrderedIn(a[..], 0, i, after)
    modifies a
    ensures multiset(a[..]) == multiset(old(a[..]))
    ensures StableFrom(a[..], old(a[..]), after)
    ensures Asymmetric(after) ==> AdjacentOrderedIn(a[..], 0, i + 1, after)
  {
    var j := i;
    while j > 0 && after(a[j - 1], a[j])
      invariant 0 <= j <= i
      invariant multiset(a[..]) == multiset(old(a[..]))
      invariant StableFrom(a[..], old(a[..]), after)
      invariant Asymmetric(after) ==> AdjacentOrderedIn(a[..], 0, j, after)
      invariant Asymmetric(after) ==> AdjacentOrderedIn(a[..], j, i + 1, after)
      invariant Asymmetric(after) && 0 < j < i ==> !after(a[j - 1], a[j + 1])
    {
      SwapDown(a, j, after, old(a[..]));
      j := j - 1;
    }
  }

  /**
   * Moves `a[j]` one place left past a neighbour the comparator puts after it,
   * keeping the array a stable permutation of `orig`.
   */
  method SwapDown<T(!new)>(a: array<T>, j: int, after: (T, T) -> bool, ghost orig: seq<T>)
    requires 0 < j < a.Length && after(a[j - 1], a[j])
    requires multiset(a[..]) == multiset(orig) && StableFrom(a[..], orig, after)
    modifies a
    ensures a[..] == old(a[..])[j - 1 := old(a[j])][j := old(a[j - 1])]
    ensures multiset(a[..]) == multiset(orig) && StableFrom(a[..], orig, after)
  {
    ghost var before := a[..];
    SwapAdjacentStable(before, j, after);
    Swap(a, j - 1, j);
    StableTrans(a[..], before, orig, after);
  }

  /** Exchanges two elements of `a`. */
  method Swap<T>(a: array<T>, i: int, j: int)
    requires 0 <= i < a.Length && 0 <= j < a.Length
    modifies a
    ensures a[..] == old(a[..])[i := old(a[j])][j := old(a[i])]
    ensures multiset(a[..]) == multiset(old(a[..]))
  {
    a[i], a[j] := a[j], a[i];
  }

  /** Exchanging neighbours the comparator puts out of order never reorders a group of equal rank. */
  lemma SwapAdjacentStable<T(!new)>(s: seq<T>, j: int, after: (T, T) -> bool)
    requires 0 < j < |s| && after(s[j - 1], s[j])
    ensures StableFrom(s[j - 1 := s[j]][j := s[j - 1]], s, after)
  {
    var x, y := s[j - 1], s[j];
    var pre, post := s[..j - 1], s[j + 1..];
    assert s == pre + [x, y] + post;
    assert s[j - 1 := y][j := x] == pre + [y, x] + post;
    forall p: T -> bool | EqualRank(p, after)
      ensures Filter(s[j - 1 := y][j := x], p) == Filter(s, p)
    {
      assert [x, y] == [x] + [y] && [y, x] == [y] + [x];
      FilterAppend([x], [y], p);
      FilterAppend([y], [x], p);
      assert Filter([x, y], p) == Filter([y, x], p);
      FilterAppend(pre, [x, y], p);
      FilterAppend(pre + [x, y], post, p);
      FilterAppend(pre, [y, x], p);
      FilterAppend(pre + [y, x], post, p);
    }
  }

  lemma StableTrans<T(!new)>(s: seq<T>, t: seq<T>, u: seq<T>, after: (T, T) -> bool)
    requires StableFrom(s, t, after) && StableFrom(t, u, after)
    ensures StableFrom(s, u, after)
  {
  }

  /** With a transitive "not after", a sequence ordered between neighbours is ordered throughout. */
  lemma {:induction false} AdjacentToOrdered<T(!new)>(s: seq<T>, after: (T, T) -> bool)
    requires NotAfterTransitive(after)
    requires AdjacentOrdered(s, after)
    ensures Ordered(s, after)
  {
    forall i, j | 0 <= i < j < |s|
      ensures !after(s[i], s[j])
    {
      var k := i + 1;
      while k < j
        invariant i < k <= j
        invariant !after(s[i], s[k])
      {
        assert !after(s[k], s[k + 1]);
        k := k + 1;
      }
    }
  }
}
