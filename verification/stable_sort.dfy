/** A stable sort by a three-way comparator, the model of
    `Array.prototype.sort(compareFn)`, which the ECMAScript standard requires
    to be stable. The algorithm is insertion sort; `SortIsTheStableSort`
    shows that every stable sort yields the same sequence, so the choice of
    algorithm is not visible. */
module StableSort {
  import opened Ordering
  
  /** Inserts `x` after every leading element that is not greater than it. */
  function Insert<T>(c: (T, T) -> int, x: T, s: seq<T>): (r: seq<T>)
    ensures multiset(r) == multiset(s) + multiset{x}
    ensures |r| == |s| + 1
  {
    if s == [] then [x]
    else if c(x, s[0]) < 0 then [x] + s
    else
      assert s == [s[0]] + s[1..];
      [s[0]] + Insert(c, x, s[1..])
  }

  /** Sorts `s` by inserting its elements one after another, in order. */
  function Sort<T>(c: (T, T) -> int, s: seq<T>): (r: seq<T>)
    ensures multiset(r) == multiset(s)
    ensures |r| == |s|
    decreases |s|
  {
    if s == [] then []
    else
      assert s == s[..|s| - 1] + [s[|s| - 1]];
      Insert(c, s[|s| - 1], Sort(c, s[..|s| - 1]))
  }

  /** Two elements where the second does not come before the first are
      already sorted. */
  lemma SortTiedPair<T>(c: (T, T) -> int, x: T, y: T)
    requires c(y, x) >= 0
    ensures Sort(c, [x, y]) == [x, y]
  {
    assert [x, y][..1] == [x] && [x][..0] == [];
    assert Sort(c, [x]) == [x];
    assert Insert(c, y, []) == [y];
  }

  /** The elements of `s` that compare equal to `k`, in their order in `s`. */
  ghost function Peers<T>(c: (T, T) -> int, k: T, s: seq<T>): seq<T>
  {
    if s == [] then []
    else (if c(s[0], k) == 0 then [s[0]] else []) + Peers(c, k, s[1..])
  }

  /** A sequence is stably rearranged from `s` when every class of
      comparator-equal elements appears in the same order as in `s`. */
  ghost predicate SamePeers<T(!new)>(c: (T, T) -> int, r: seq<T>, s: seq<T>)
  {
    forall k :: Peers(c, k, r) == Peers(c, k, s)
  }

  lemma {:induction false} PeersConcat<T>(c: (T, T) -> int, k: T, a: seq<T>, b: seq<T>)
    ensures Peers(c, k, a + b) == Peers(c, k, a) + Peers(c, k, b)
    decreases |a|
  {
    if a == [] {
      assert a + b == b;
    } else {
      var head := if c(a[0], k) == 0 then [a[0]] else [];
      assert (a + b)[0] == a[0];
      assert (a + b)[1..] == a[1..] + b;
      assert Peers(c, k, a + b) == head + Peers(c, k, a[1..] + b);
      PeersConcat(c, k, a[1..], b);
      ConcatAssoc(head, Peers(c, k, a[1..]), Peers(c, k, b));
    }
  }

  lemma PeersCons<T>(c: (T, T) -> int, k: T, x: T, t: seq<T>)
    ensures Peers(c, k, [x] + t) == (if c(x, k) == 0 then [x] else []) + Peers(c, k, t)
  {
    assert ([x] + t)[0] == x;
    assert ([x] + t)[1..] == t;
  }

  /** Every element of `Peers(c, k, s)` is an element of `s` equal to `k`. */
  lemma {:induction false} PeersMembers<T>(c: (T, T) -> int, k: T, s: seq<T>)
    ensures forall e :: e in Peers(c, k, s) ==> e in s && c(e, k) == 0
    decreases |s|
  {
    if s != [] {
      PeersMembers(c, k, s[1..]);
    }
  }

  /** If nothing in `s` is equal to `k`, `k` has no peers in `s`. */
  lemma {:induction false} PeersNone<T>(c: (T, T) -> int, k: T, s: seq<T>)
    requires forall i :: 0 <= i < |s| ==> c(s[i], k) != 0
    ensures Peers(c, k, s) == []
    decreases |s|
  {
    if s != [] {
      PeersNone(c, k, s[1..]);
    }
  }

  /** If everything in `s` is equal to `k`, all of `s` are peers of `k`. */
  lemma {:induction false} PeersAll<T>(c: (T, T) -> int, k: T, s: seq<T>)
    requires forall i :: 0 <= i < |s| ==> c(s[i], k) == 0
    ensures Peers(c, k, s) == s
    decreases |s|
  {
    if s != [] {
      PeersAll(c, k, s[1..]);
    }
  }

  lemma {:induction false} InsertSorted<T(!new)>(c: (T, T) -> int, x: T, t: seq<T>)
    requires IsTotalPreorder(c)
    requires SortedBy(c, t)
    ensures SortedBy(c, Insert(c, x, t))
    decreases |t|
  {
    if t == [] {
    } else if c(x, t[0]) < 0 {
      forall j | 0 <= j < |t|
        ensures c(x, t[j]) <= 0
      {
        PreorderFacts(c, x, t[0], t[j]);
      }
      SortedCons(c, x, t);
    } else {
      var u := Insert(c, x, t[1..]);
      assert t == [t[0]] + t[1..];
      SortedCons(c, t[0], t[1..]);
      InsertSorted(c, x, t[1..]);
      forall j | 0 <= j < |u|
        ensures c(t[0], u[j]) <= 0
      {
        assert u[j] in multiset(u);
        if u[j] == x {
          PreorderFacts(c, x, t[0], x);
        } else {
          assert u[j] in multiset(t[1..]);
          var i :| 0 <= i < |t[1..]| && t[1..][i] == u[j];
        }
      }
      SortedCons(c, t[0], u);
    }
  }

  /** The result of `Sort` is sorted. */
  lemma {:induction false} SortSorted<T(!new)>(c: (T, T) -> int, s: seq<T>)
    requires IsTotalPreorder(c)
    ensures SortedBy(c, Sort(c, s))
    decreases |s|
  {
    if s != [] {
      SortSorted(c, s[..|s| - 1]);
      InsertSorted(c, s[|s| - 1], Sort(c, s[..|s| - 1]));
    }
  }

  /** Inserting into a sorted sequence keeps each class in the order it
      would have had if `x` had been appended at the end. */
  lemma {:induction false} PeersInsert<T(!new)>(c: (T, T) -> int, k: T, x: T, t: seq<T>)
    requires IsTotalPreorder(c)
    requires SortedBy(c, t)
    ensures Peers(c, k, Insert(c, x, t)) == Peers(c, k, t + [x])
    decreases |t|
  {
    if t == [] {
      assert t + [x] == [x];
    } else if c(x, t[0]) < 0 {
      assert Insert(c, x, t) == [x] + t;
      PeersInsertBelow(c, k, x, t);
    } else {
      var u := Insert(c, x, t[1..]);
      assert Insert(c, x, t) == [t[0]] + u;
      assert SortedBy(c, t[1..]) by {
        assert t == [t[0]] + t[1..];
        SortedCons(c, t[0], t[1..]);
      }
      PeersInsert(c, k, x, t[1..]);
      PeersInsertStep(c, k, x, t, u);
    }
  }

  lemma PeersInsertStep<T(!new)>(c: (T, T) -> int, k: T, x: T, t: seq<T>, u: seq<T>)
    requires t != [] && Peers(c, k, u) == Peers(c, k, t[1..] + [x])
    ensures Peers(c, k, [t[0]] + u) == Peers(c, k, t + [x])
  {
    var head := if c(t[0], k) == 0 then [t[0]] else [];
    var a := Peers(c, k, t[1..]);
    var b := Peers(c, k, [x]);
    PeersCons(c, k, t[0], u);
    assert Peers(c, k, [t[0]] + u) == head + Peers(c, k, u);
    PeersConcat(c, k, t[1..], [x]);
    assert Peers(c, k, u) == a + b;
    PeersConcat(c, k, [t[0]] + t[1..], [x]);
    PeersCons(c, k, t[0], t[1..]);
    assert Peers(c, k, [t[0]] + t[1..]) == head + a;
    assert t == [t[0]] + t[1..];
    ConcatAssoc(head, a, b);
  }

  lemma ConcatAssoc<T>(a: seq<T>, b: seq<T>, d: seq<T>)
    ensures a + (b + d) == (a + b) + d
  {
  }

  lemma PeersInsertBelow<T(!new)>(c: (T, T) -> int, k: T, x: T, t: seq<T>)
    requires IsTotalPreorder(c)
    requires SortedBy(c, t)
    requires t != [] && c(x, t[0]) < 0
    ensures Peers(c, k, [x] + t) == Peers(c, k, t + [x])
  {
    PeersConcat(c, k, t, [x]);
    PeersCons(c, k, x, t);
    PeersCons(c, k, x, []);
    if c(x, k) == 0 {
      NoPeersAbove(c, k, x, t);
    }
  }

  /** When `x` is below the head of a sorted `t`, nothing in `t` is in the class of `x`. */
  lemma NoPeersAbove<T(!new)>(c: (T, T) -> int, k: T, x: T, t: seq<T>)
    requires IsTotalPreorder(c)
    requires SortedBy(c, t)
    requires t != [] && c(x, t[0]) < 0 && c(x, k) == 0
    ensures Peers(c, k, t) == []
  {
    forall j | 0 <= j < |t|
      ensures c(t[j], k) != 0
    {
      PreorderFacts(c, x, t[0], t[j]);
      PreorderFacts(c, x, k, t[j]);
      PreorderFacts(c, k, t[j], x);
    }
    PeersNone(c, k, t);
  }

  /** `Sort` is stable: comparator-equal elements keep their input order. */
  lemma {:induction false} SortStable<T(!new)>(c: (T, T) -> int, s: seq<T>)
    requires IsTotalPreorder(c)
    ensures SamePeers(c, Sort(c, s), s)
    decreases |s|
  {
    if s != [] {
      var init, last := s[..|s| - 1], s[|s| - 1];
      assert s == init + [last];
      SortStable(c, init);
      SortSorted(c, init);
      forall k
        ensures Peers(c, k, Sort(c, s)) == Peers(c, k, s)
      {
        PeersInsert(c, k, last, Sort(c, init));
        PeersConcat(c, k, Sort(c, init), [last]);
        PeersConcat(c, k, init, [last]);
      }
    }
  }

  /** Two sorted sequences with the same classes in the same orders are equal. */
  lemma {:induction false} StablySortedUnique<T(!new)>(c: (T, T) -> int, r1: seq<T>, r2: seq<T>)
    requires IsTotalPreorder(c)
    requires SortedBy(c, r1) && SortedBy(c, r2)
    requires SamePeers(c, r1, r2)
    ensures r1 == r2
    decreases |r1| + |r2|
  {
    if r1 == [] && r2 == [] {
    } else if r1 == [] {
      PreorderFacts(c, r2[0], r2[0], r2[0]);
      assert r2 == [r2[0]] + r2[1..];
      PeersCons(c, r2[0], r2[0], r2[1..]);
      assert false;
    } else if r2 == [] {
      PreorderFacts(c, r1[0], r1[0], r1[0]);
      assert r1 == [r1[0]] + r1[1..];
      PeersCons(c, r1[0], r1[0], r1[1..]);
      assert false;
    } else {
      var a, b := r1[0], r2[0];
      assert r1 == [a] + r1[1..];
      assert r2 == [b] + r2[1..];
      LeastBelow(c, r1, r2);
      LeastBelow(c, r2, r1);
      PreorderFacts(c, a, b, a);
      PeersCons(c, a, a, r1[1..]);
      PeersCons(c, a, b, r2[1..]);
      assert Peers(c, a, r1)[0] == a;
      assert Peers(c, a, r2)[0] == b;
      forall k
        ensures Peers(c, k, r1[1..]) == Peers(c, k, r2[1..])
      {
        PeersCons(c, k, a, r1[1..]);
        PeersCons(c, k, a, r2[1..]);
        var head := if c(a, k) == 0 then [a] else [];
        assert Peers(c, k, r1[1..]) == (head + Peers(c, k, r1[1..]))[|head|..];
        assert Peers(c, k, r2[1..]) == (head + Peers(c, k, r2[1..]))[|head|..];
      }
      SortedCons(c, a, r1[1..]);
      SortedCons(c, a, r2[1..]);
      StablySortedUnique(c, r1[1..], r2[1..]);
    }
  }

  /** The head of a sorted sequence is not greater than the head of another
      sorted sequence with the same classes. */
  lemma LeastBelow<T(!new)>(c: (T, T) -> int, r1: seq<T>, r2: seq<T>)
    requires IsTotalPreorder(c)
    requires SortedBy(c, r2)
    requires SamePeers(c, r1, r2)
    requires r1 != [] && r2 != []
    ensures c(r2[0], r1[0]) <= 0
  {
    var a := r1[0];
    PreorderFacts(c, a, a, a);
    assert r1 == [a] + r1[1..];
    PeersCons(c, a, a, r1[1..]);
    assert Peers(c, a, r2) != [];
    var e := Peers(c, a, r2)[0];
    PeersMembers(c, a, r2);
    assert e in r2 && c(e, a) == 0;
    var j :| 0 <= j < |r2| && r2[j] == e;
    PreorderFacts(c, r2[0], e, a);
    PreorderFacts(c, e, e, e);
  }

  /** Any sorted, stable rearrangement of `s` is `Sort(c, s)`: whatever
      stable algorithm the JavaScript engine uses, it returns this sequence. */
  lemma SortIsTheStableSort<T(!new)>(c: (T, T) -> int, s: seq<T>, r: seq<T>)
    requires IsTotalPreorder(c)
    requires SortedBy(c, r)
    requires SamePeers(c, r, s)
    ensures r == Sort(c, s)
  {
    SortSorted(c, s);
    SortStable(c, s);
    StablySortedUnique(c, r, Sort(c, s));
  }

  /** With a comparator that always answers "equal", sorting changes nothing. */
  lemma SortAllEqual<T(!new)>(c: (T, T) -> int, s: seq<T>)
    requires forall a, b :: c(a, b) == 0
    ensures Sort(c, s) == s
  {
    SortStable(c, s);
    if s != [] {
      var k := s[0];
      var r := Sort(c, s);
      PeersAll(c, k, s);
      PeersAll(c, k, r);
    }
  }

  function Reverse<T>(s: seq<T>): (r: seq<T>)
    ensures |r| == |s|
    ensures forall i :: 0 <= i < |s| ==> r[i] == s[|s| - 1 - i]
  {
    if s == [] then [] else Reverse(s[1..]) + [s[0]]
  }

  lemma ReverseConcat<T>(a: seq<T>, b: seq<T>)
    ensures Reverse(a + b) == Reverse(b) + Reverse(a)
  {
    var l, r := Reverse(a + b), Reverse(b) + Reverse(a);
    forall i | 0 <= i < |l|
      ensures l[i] == r[i]
    {
      if i < |b| {
        assert l[i] == (a + b)[|a| + |b| - 1 - i] == b[|b| - 1 - i];
      } else {
        assert l[i] == (a + b)[|a| + |b| - 1 - i] == a[|a| - 1 - (i - |b|)];
      }
    }
  }

  /** Reversing a sorted sequence sorts it by the flipped comparator `d`. */
  lemma ReverseSorted<T>(c: (T, T) -> int, d: (T, T) -> int, s: seq<T>)
    requires forall a, b :: d(a, b) == c(b, a)
    requires SortedBy(c, s)
    ensures SortedBy(d, Reverse(s))
  {
    var r := Reverse(s);
    forall i, j | 0 <= i < j < |r|
      ensures d(r[i], r[j]) <= 0
    {
      assert r[i] == s[|s| - 1 - i] && r[j] == s[|s| - 1 - j];
    }
  }

  /** Under the flipped comparator, the classes of a reversed sequence are
      the reversed classes. */
  lemma {:induction false} PeersReverse<T(!new)>(c: (T, T) -> int, d: (T, T) -> int, k: T, s: seq<T>)
    requires IsTotalPreorder(c)
    requires forall a, b :: d(a, b) == c(b, a)
    ensures Peers(d, k, Reverse(s)) == Reverse(Peers(c, k, s))
    decreases |s|
  {
    if s != [] {
      var head := if c(s[0], k) == 0 then [s[0]] else [];
      var rest := Peers(c, k, s[1..]);
      assert Reverse(s) == Reverse(s[1..]) + [s[0]];
      assert Peers(d, k, [s[0]]) == head by {
        PeersCons(d, k, s[0], []);
        PreorderFacts(c, s[0], k, s[0]);
      }
      assert Peers(d, k, Reverse(s)) == Reverse(rest) + head by {
        PeersConcat(d, k, Reverse(s[1..]), [s[0]]);
        PeersReverse(c, d, k, s[1..]);
      }
      assert Peers(c, k, s) == head + rest by {
        assert s == [s[0]] + s[1..];
        PeersCons(c, k, s[0], s[1..]);
      }
      ReverseConcat(head, rest);
      assert Reverse(head) == head;
    }
  }

  /** In a sequence without ties, every class has at most one member. */
  lemma {:induction false} NoTiesSinglePeer<T(!new)>(c: (T, T) -> int, k: T, s: seq<T>)
    requires IsTotalPreorder(c)
    requires forall i, j :: 0 <= i < j < |s| ==> c(s[i], s[j]) != 0
    ensures |Peers(c, k, s)| <= 1
    decreases |s|
  {
    if s != [] {
      if c(s[0], k) == 0 {
        forall j | 0 <= j < |s[1..]|
          ensures c(s[1..][j], k) != 0
        {
          assert c(s[0], s[j + 1]) != 0;
          PreorderFacts(c, s[0], k, s[j + 1]);
          PreorderFacts(c, s[j + 1], k, s[0]);
        }
        PeersNone(c, k, s[1..]);
      } else {
        NoTiesSinglePeer(c, k, s[1..]);
      }
    }
  }

  /** Comparators that agree on which pairs are equal have the same classes. */
  lemma {:induction false} PeersSameTies<T>(c: (T, T) -> int, d: (T, T) -> int, k: T, s: seq<T>)
    requires forall a :: (d(a, k) == 0) == (c(a, k) == 0)
    ensures Peers(d, k, s) == Peers(c, k, s)
    decreases |s|
  {
    if s != [] {
      PeersSameTies(c, d, k, s[1..]);
    }
  }

  /** The flipped comparator of a total preorder is a total preorder. */
  lemma FlipPreorder<T(!new)>(c: (T, T) -> int, d: (T, T) -> int)
    requires IsTotalPreorder(c)
    requires forall a, b :: d(a, b) == c(b, a)
    ensures IsTotalPreorder(d)
  {
    forall a, b, e | d(a, b) <= 0 && d(b, e) <= 0
      ensures d(a, e) <= 0
    {
      assert c(e, b) <= 0 && c(b, a) <= 0;
    }
  }

  /** Without ties, each class of `s` is the same under `c` and its flip `d`,
      in the reversed sort and in `s`. */
  lemma FlippedPeers<T(!new)>(c: (T, T) -> int, d: (T, T) -> int, s: seq<T>, k: T)
    requires IsTotalPreorder(c)
    requires forall a, b :: d(a, b) == c(b, a)
    requires forall i, j :: 0 <= i < j < |s| ==> c(s[i], s[j]) != 0
    requires SamePeers(c, Sort(c, s), s)
    ensures Peers(d, k, Reverse(Sort(c, s))) == Peers(d, k, s)
  {
    PeersReverse(c, d, k, Sort(c, s));
    NoTiesSinglePeer(c, k, s);
    var p := Peers(c, k, s);
    assert Reverse(p) == p;
    forall a
      ensures (d(a, k) == 0) == (c(a, k) == 0)
    {
      PreorderFacts(c, a, k, a);
    }
    PeersSameTies(c, d, k, s);
  }

  /** Without ties, sorting by the flipped comparator reverses the sort. */
  lemma FlippedSortReverses<T(!new)>(c: (T, T) -> int, d: (T, T) -> int, s: seq<T>)
    requires IsTotalPreorder(c)
    requires forall a, b :: d(a, b) == c(b, a)
    requires forall i, j :: 0 <= i < j < |s| ==> c(s[i], s[j]) != 0
    ensures Sort(d, s) == Reverse(Sort(c, s))
  {
    FlipPreorder(c, d);
    SortSorted(c, s);
    SortStable(c, s);
    ReverseSorted(c, d, Sort(c, s));
    forall k
      ensures Peers(d, k, Reverse(Sort(c, s))) == Peers(d, k, s)
    {
      FlippedPeers(c, d, s, k);
    }
    SortIsTheStableSort(d, s, Reverse(Sort(c, s)));
  }
}
