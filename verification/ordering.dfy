/** Three-way comparators in the JavaScript style: a comparator returns a
    negative number, zero or a positive number, and only the sign matters. */
module Ordering {

  /** `c` is a total preorder read through the sign of its result:
      swapping the arguments flips the sign, and "not greater" is transitive.
      This is what `Array.prototype.sort` needs of a comparator, and what the
      model assumes of `String.prototype.localeCompare`. */
  ghost predicate IsTotalPreorder<T(!new)>(c: (T, T) -> int)
  {
    && (forall a, b :: c(a, b) < 0 <==> c(b, a) > 0)
    && (forall a, b, d :: c(a, b) <= 0 && c(b, d) <= 0 ==> c(a, d) <= 0)
  }

  /** Every earlier element is not greater than every later one. */
  ghost predicate SortedBy<T>(c: (T, T) -> int, s: seq<T>)
  {
    forall i, j :: 0 <= i < j < |s| ==> c(s[i], s[j]) <= 0
  }

  /** The facts about a total preorder the sorting proofs use. */
  lemma PreorderFacts<T(!new)>(c: (T, T) -> int, a: T, b: T, d: T)
    requires IsTotalPreorder(c)
    ensures c(a, a) == 0
    ensures c(a, b) == 0 ==> c(b, a) == 0
    ensures c(a, b) >= 0 ==> c(b, a) <= 0
    ensures c(a, b) <= 0 && c(b, a) <= 0 ==> c(a, b) == 0
    ensures c(a, b) == 0 && c(b, d) == 0 ==> c(a, d) == 0
    ensures c(a, b) < 0 && c(b, d) <= 0 ==> c(a, d) < 0
    ensures c(a, b) <= 0 && c(b, d) < 0 ==> c(a, d) < 0
  {
  }

  /** Sortedness of a sequence with a head, split into head and tail. */
  lemma SortedCons<T>(c: (T, T) -> int, x: T, t: seq<T>)
    ensures SortedBy(c, [x] + t) <==>
              (forall j :: 0 <= j < |t| ==> c(x, t[j]) <= 0) && SortedBy(c, t)
  {
    var s := [x] + t;
    if (forall j :: 0 <= j < |t| ==> c(x, t[j]) <= 0) && SortedBy(c, t) {
      forall i, j | 0 <= i < j < |s|
        ensures c(s[i], s[j]) <= 0
      {
        if i > 0 {
          assert s[i] == t[i - 1] && s[j] == t[j - 1];
        } else {
          assert s[j] == t[j - 1];
        }
      }
    }
    if SortedBy(c, s) {
      forall i, j | 0 <= i < j < |t|
        ensures c(t[i], t[j]) <= 0
      {
        assert t[i] == s[i + 1] && t[j] == s[j + 1];
      }
      forall j | 0 <= j < |t|
        ensures c(x, t[j]) <= 0
      {
        assert s[0] == x && t[j] == s[j + 1];
        assert 0 < j + 1 < |s|;
      }
    }
  }

  /** Sortedness in the all-pairs sense gives sortedness of neighbours. */
  lemma SortedAdjacent<T>(c: (T, T) -> int, s: seq<T>)
    requires SortedBy(c, s)
    ensures forall i :: 0 <= i < |s| - 1 ==> c(s[i], s[i + 1]) <= 0
  {
  }
}
