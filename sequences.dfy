/** The stable filter `Array.prototype.filter` performs, and what it keeps. */
module Sequences {

  /** `s.filter(keep)`: the elements of `s` for which `keep` holds, in their
      original order. */
  function FilterBy<T>(s: seq<T>, keep: T -> bool): seq<T> {
    if s == [] then [] else (if keep(s[0]) then [s[0]] else []) + FilterBy(s[1..], keep)
  }

  /** `a` can be obtained from `b` by deleting elements, keeping the order of
      the rest. */
  ghost predicate IsSubsequence<T>(a: seq<T>, b: seq<T>)
    decreases |b|
  {
    a == [] ||
    (b != [] && ((a[0] == b[0] && IsSubsequence(a[1..], b[1..])) || IsSubsequence(a, b[1..])))
  }

  /** The filtered sequence is an order-preserving subsequence of the input. */
  lemma {:induction false} FilterBySubsequence<T>(s: seq<T>, keep: T -> bool)
    ensures IsSubsequence(FilterBy(s, keep), s)
  {
    if s != [] {
      FilterBySubsequence(s[1..], keep);
      var rest := FilterBy(s[1..], keep);
      if keep(s[0]) {
        var r := [s[0]] + rest;
        assert FilterBy(s, keep) == r;
        assert r[0] == s[0] && r[1..] == rest;
      } else {
        assert FilterBy(s, keep) == rest;
      }
    }
  }

  /** Each value occurs in the filtered sequence as often as in the input when
      it is kept, and not at all when it is not. */
  lemma {:induction false} FilterByCount<T>(s: seq<T>, keep: T -> bool, x: T)
    ensures multiset(FilterBy(s, keep))[x] == if keep(x) then multiset(s)[x] else 0
  {
    if s != [] {
      FilterByCount(s[1..], keep, x);
      assert s == [s[0]] + s[1..];
      assert multiset(s) == multiset([s[0]]) + multiset(s[1..]);
    }
  }

  /** A value is in the filtered sequence exactly when it is in the input and
      is kept. */
  lemma FilterByMembership<T>(s: seq<T>, keep: T -> bool, x: T)
    ensures x in FilterBy(s, keep) <==> x in s && keep(x)
  {
    FilterByCount(s, keep, x);
    assert x in FilterBy(s, keep) <==> x in multiset(FilterBy(s, keep));
    assert x in s <==> x in multiset(s);
  }

  /** Filtering keeps everything when every element is kept. */
  lemma {:induction false} FilterByKeepsAll<T>(s: seq<T>, keep: T -> bool)
    requires forall i :: 0 <= i < |s| ==> keep(s[i])
    ensures FilterBy(s, keep) == s
  {
    if s != [] {
      FilterByKeepsAll(s[1..], keep);
    }
  }

  /** Everything the filter returns satisfies the predicate. */
  lemma {:induction false} FilterBySatisfies<T>(s: seq<T>, keep: T -> bool)
    ensures forall i :: 0 <= i < |FilterBy(s, keep)| ==> keep(FilterBy(s, keep)[i])
  {
    if s != [] {
      FilterBySatisfies(s[1..], keep);
    }
  }

  /** Filtering twice with the same predicate is filtering once. */
  lemma FilterByIdempotent<T>(s: seq<T>, keep: T -> bool)
    ensures FilterBy(FilterBy(s, keep), keep) == FilterBy(s, keep)
  {
    FilterBySatisfies(s, keep);
    FilterByKeepsAll(FilterBy(s, keep), keep);
  }

  /** Filtering distributes over concatenation. */
  lemma {:induction false} FilterByAppend<T>(a: seq<T>, b: seq<T>, keep: T -> bool)
    ensures FilterBy(a + b, keep) == FilterBy(a, keep) + FilterBy(b, keep)
  {
    if a == [] {
      assert a + b == b;
    } else {
      FilterByAppend(a[1..], b, keep);
      var head := if keep(a[0]) then [a[0]] else [];
      calc {
        FilterBy(a + b, keep);
        { assert (a + b)[0] == a[0] && (a + b)[1..] == a[1..] + b; }
        head + FilterBy(a[1..] + b, keep);
        head + (FilterBy(a[1..], keep) + FilterBy(b, keep));
        (head + FilterBy(a[1..], keep)) + FilterBy(b, keep);
      }
    }
  }

  /** Two filters applied one after the other commute. */
  lemma {:induction false} FilterByCommute<T>(s: seq<T>, f: T -> bool, g: T -> bool)
    ensures FilterBy(FilterBy(s, f), g) == FilterBy(FilterBy(s, g), f)
  {
    if s != [] {
      FilterByCommute(s[1..], f, g);
      var x := s[0];
      FilterByAppend(if f(x) then [x] else [], FilterBy(s[1..], f), g);
      FilterByAppend(if g(x) then [x] else [], FilterBy(s[1..], g), f);
    }
  }

  /** A stricter predicate keeps a subsequence of what a looser one keeps. */
  lemma {:induction false} FilterByMonotone<T>(s: seq<T>, strict: T -> bool, loose: T -> bool)
    requires forall x :: strict(x) ==> loose(x)
    ensures IsSubsequence(FilterBy(s, strict), FilterBy(s, loose))
  {
    if s != [] {
      FilterByMonotone(s[1..], strict, loose);
      var a := FilterBy(s[1..], strict);
      var b := FilterBy(s[1..], loose);
      if strict(s[0]) {
        assert FilterBy(s, strict) == [s[0]] + a && ([s[0]] + a)[1..] == a;
        assert FilterBy(s, loose) == [s[0]] + b && ([s[0]] + b)[1..] == b;
      } else if loose(s[0]) {
        assert FilterBy(s, strict) == a;
        assert FilterBy(s, loose) == [s[0]] + b && ([s[0]] + b)[1..] == b;
      } else {
        assert FilterBy(s, strict) == a && FilterBy(s, loose) == b;
      }
    }
  }

  /** The filter on a two-element sequence. */
  lemma FilterByPair<T>(x: T, y: T, keep: T -> bool)
    ensures FilterBy([x, y], keep) == (if keep(x) then [x] else []) + (if keep(y) then [y] else [])
  {
    assert [x, y][1..] == [y];
    assert [y][1..] == [];
    assert FilterBy([y], keep) == (if keep(y) then [y] else []) + FilterBy([], keep);
    assert FilterBy([x, y], keep) == (if keep(x) then [x] else []) + FilterBy([y], keep);
  }
}
