/** Order-preserving selection over sequences: the subsequence relation and
    `Filter`, the model of JavaScript's `Array.prototype.filter`. */
module Seqs {

  /** `a` can be obtained from `b` by deleting elements (order kept). */
  predicate Subseq<T(==)>(a: seq<T>, b: seq<T>)
    decreases |b|
  {
    if a == [] then true
    else if b == [] then false
    else (a[0] == b[0] && Subseq(a[1..], b[1..])) || Subseq(a, b[1..])
  }

  lemma {:induction false} SubseqMultiset<T>(a: seq<T>, b: seq<T>)
    requires Subseq(a, b)
    ensures multiset(a) <= multiset(b)
    decreases |b|
  {
    if a == [] {
    } else {
      assert b == [b[0]] + b[1..];
      if a[0] == b[0] && Subseq(a[1..], b[1..]) {
        assert a == [a[0]] + a[1..];
        SubseqMultiset(a[1..], b[1..]);
      } else {
        SubseqMultiset(a, b[1..]);
      }
    }
  }

  lemma {:induction false} SubseqRefl<T>(s: seq<T>)
    ensures Subseq(s, s)
  {
    if s != [] {
      SubseqRefl(s[1..]);
    }
  }

  /** Keeps, in order, exactly the elements that satisfy `p`; every kept
      value occurs as often as in `s`, every rejected value not at all. */
  function Filter<T(==,!new)>(p: T -> bool, s: seq<T>): (r: seq<T>)
    ensures Subseq(r, s)
    ensures forall x :: multiset(r)[x] == if p(x) then multiset(s)[x] else 0
    ensures forall x :: x in r <==> x in s && p(x)
    ensures forall i :: 0 <= i < |r| ==> p(r[i])
    ensures |r| <= |s|
  {
    if s == [] then []
    else
      assert s == [s[0]] + s[1..];
      var rest := Filter(p, s[1..]);
      if p(s[0]) then
        assert ([s[0]] + rest)[1..] == rest;
        [s[0]] + rest
      else rest
  }

  /** The contract of `Filter` determines it: any subsequence of `s` with
      the same multiplicities is `Filter(p, s)`. */
  lemma {:induction false} FilterUnique<T(!new)>(p: T -> bool, s: seq<T>, r: seq<T>)
    requires Subseq(r, s)
    requires forall x :: multiset(r)[x] == if p(x) then multiset(s)[x] else 0
    ensures r == Filter(p, s)
    decreases |s|
  {
    if s == [] {
      assert r == [];
    } else {
      var h := s[0];
      assert s == [h] + s[1..];
      if r != [] && r[0] == h && Subseq(r[1..], s[1..]) {
        assert r == [h] + r[1..];
        assert p(h) by {
          assert multiset(r)[h] > 0;
        }
        FilterUnique(p, s[1..], r[1..]);
      } else {
        assert Subseq(r, s[1..]);
        SubseqMultiset(r, s[1..]);
        assert multiset(r)[h] <= multiset(s[1..])[h] < multiset(s)[h];
        assert !p(h);
        FilterUnique(p, s[1..], r);
      }
    }
  }

  /** A predicate that holds of every element keeps the whole sequence. */
  lemma FilterAll<T(!new)>(p: T -> bool, s: seq<T>)
    requires forall i :: 0 <= i < |s| ==> p(s[i])
    ensures Filter(p, s) == s
  {
    SubseqRefl(s);
    FilterUnique(p, s, s);
  }

  /** Filtering distributes over concatenation. */
  lemma {:induction false} FilterConcat<T(!new)>(p: T -> bool, a: seq<T>, b: seq<T>)
    ensures Filter(p, a + b) == Filter(p, a) + Filter(p, b)
    decreases |a|
  {
    if a == [] {
      assert a + b == b;
    } else {
      assert (a + b)[0] == a[0];
      assert (a + b)[1..] == a[1..] + b;
      FilterConcat(p, a[1..], b);
    }
  }

  /** Filtering by two predicates in either order gives the same result. */
  lemma {:induction false} FilterCommute<T(!new)>(p: T -> bool, q: T -> bool, s: seq<T>)
    ensures Filter(p, Filter(q, s)) == Filter(q, Filter(p, s))
    decreases |s|
  {
    if s != [] {
      FilterCommute(p, q, s[1..]);
      var rest := s[1..];
      if q(s[0]) {
        assert ([s[0]] + Filter(q, rest))[0] == s[0];
        assert ([s[0]] + Filter(q, rest))[1..] == Filter(q, rest);
      }
      if p(s[0]) {
        assert ([s[0]] + Filter(p, rest))[0] == s[0];
        assert ([s[0]] + Filter(p, rest))[1..] == Filter(p, rest);
      }
    }
  }

  /** A predicate and its complement split `s` into two parts whose lengths add up. */
  lemma {:induction false} FilterSplitLength<T(!new)>(p: T -> bool, q: T -> bool, s: seq<T>)
    requires forall x :: q(x) == !p(x)
    ensures |Filter(p, s)| + |Filter(q, s)| == |s|
    decreases |s|
  {
    if s != [] {
      FilterSplitLength(p, q, s[1..]);
    }
  }
}
