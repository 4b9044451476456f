/** Order-preserving filtering and set-size facts used by the queries and loops of the model. */
module Seqs {

  /** The elements of `s` that satisfy `p`, in their order in `s` (Array.prototype.filter). */
  function Filter<T(!new)>(s: seq<T>, p: T -> bool): (r: seq<T>)
    ensures |r| <= |s|
    ensures forall x :: x in r <==> x in s && p(x)
    ensures forall k :: 0 <= k < |r| ==> p(r[k])
  {
    if s == [] then [] else (if p(s[0]) then [s[0]] else []) + Filter(s[1..], p)
  }

  /** Filtering a concatenation filters each part: the kept elements keep their relative order. */
  lemma {:induction false} FilterAppend<T(!new)>(s: seq<T>, t: seq<T>, p: T -> bool)
    ensures Filter(s + t, p) == Filter(s, p) + Filter(t, p)
  {
    if s == [] {
      assert s + t == t;
    } else {
      assert (s + t)[1..] == s[1..] + t;
      FilterAppend(s[1..], t, p);
    }
  }

  /** A subset is no larger than its superset. */
  lemma {:induction false} SubsetNoLarger<T>(a: set<T>, b: set<T>)
    requires a <= b
    ensures |a| <= |b|
  {
    assert b == a + (b - a);
    assert a * (b - a) == {};
  }

  /** The first element kept by a filter is the first element of `s` that passes it. */
  lemma {:induction false} FilterHead<T(!new)>(s: seq<T>, p: T -> bool)
    requires Filter(s, p) != []
    ensures exists k :: 0 <= k < |s| && s[k] == Filter(s, p)[0] && p(s[k]) && forall j :: 0 <= j < k ==> !p(s[j])
  {
    if !p(s[0]) {
      FilterHead(s[1..], p);
      var k :| 0 <= k < |s[1..]| && s[1..][k] == Filter(s[1..], p)[0] && p(s[1..][k])
        && forall j :: 0 <= j < k ==> !p(s[1..][j]);
      assert s[k + 1] == Filter(s, p)[0];
      forall j | 0 <= j < k + 1
        ensures !p(s[j])
      {
        if j > 0 {
          assert s[j] == s[1..][j - 1];
        }
      }
    }
  }

  /** Filtering twice is filtering once by both tests. */
  lemma {:induction false} FilterFilter<T(!new)>(s: seq<T>, p: T -> bool, q: T -> bool, both: T -> bool)
    requires forall x :: both(x) == (p(x) && q(x))
    ensures Filter(Filter(s, p), q) == Filter(s, both)
  {
    if s != [] {
      var head, tail := [s[0]], s[1..];
      assert s == head + tail;
      FilterFilter(tail, p, q, both);
      FilterAppend(head, tail, p);
      FilterAppend(head, tail, both);
      FilterAppend(Filter(head, p), Filter(tail, p), q);
    }
  }

  /** The distinct values `f` takes on `s`. */
  function Image<T, U>(s: set<T>, f: T -> U): set<U>
  {
    set x | x in s :: f(x)
  }

  /**
   * If `g` determines `f` on `s` (elements with equal `g` have equal `f`), then
   * `s` has no more distinct `f`-values than distinct `g`-values.
   */
  lemma {:induction false} ImageNoLarger<T, U, V>(s: set<T>, f: T -> U, g: T -> V)
    requires forall x, y :: x in s && y in s && g(x) == g(y) ==> f(x) == f(y)
    ensures |Image(s, f)| <= |Image(s, g)|
    decreases s
  {
    if s != {} {
      var x :| x in s;
      var s' := s - {x};
      ImageNoLarger(s', f, g);
      var fs, fs' := Image(s, f), Image(s', f);
      var gs, gs' := Image(s, g), Image(s', g);
      assert fs == fs' + {f(x)};
      assert gs == gs' + {g(x)};
      if g(x) in gs' {
        var y :| y in s' && g(y) == g(x);
        assert f(x) == f(y);
        assert fs == fs';
        assert gs == gs';
      } else {
        assert |gs| == |gs'| + 1;
      }
    }
  }
}
