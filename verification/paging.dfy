/** The page window: JavaScript's `Array.prototype.slice`, and the page of
    rows from index `(currentPage - 1) * pageSize` up to, not including,
    `currentPage * pageSize`. JavaScript numbers are modelled as unbounded integers. */
module Paging {

  /** Resolves a `slice` argument against a length `n`: a negative index
      counts back from the end, and the result is clamped to `[0, n]`. */
  function Resolve(i: int, n: nat): (r: nat)
    ensures r <= n
  {
    if i < 0 then (if n + i < 0 then 0 else n + i)
    else if i < n then i else n
  }

  /** `slice` on `s`: the contiguous run of `s` between the resolved
      start and end, or nothing when the end does not lie after the start. */
  function JsSlice<T>(s: seq<T>, start: int, end: int): (r: seq<T>)
    ensures |r| == if Resolve(start, |s|) < Resolve(end, |s|) then Resolve(end, |s|) - Resolve(start, |s|) else 0
    ensures forall i :: 0 <= i < |r| ==> r[i] == s[Resolve(start, |s|) + i]
  {
    var from, to := Resolve(start, |s|), Resolve(end, |s|);
    if from < to then s[from..to] else []
  }

  /** The rows shown on page `currentPage` when pages hold `pageSize` rows. */
  function Page<T>(s: seq<T>, currentPage: int, pageSize: int): (r: seq<T>)
    ensures forall x :: x in r ==> x in s
    ensures pageSize >= 0 ==> |r| <= pageSize
  {
    assert currentPage * pageSize == (currentPage - 1) * pageSize + pageSize;
    JsSlice(s, (currentPage - 1) * pageSize, currentPage * pageSize)
  }

  /** The index of the first row of page `currentPage`. */
  function Offset(currentPage: int, pageSize: int): int
  {
    (currentPage - 1) * pageSize
  }

  /** For a page number and a page size of at least one, the page is the
      contiguous slice of `s` starting at `(currentPage - 1) * pageSize`,
      cut short at the end of `s`. */
  lemma PageWindow<T>(s: seq<T>, currentPage: int, pageSize: int)
    requires currentPage >= 1 && pageSize >= 1
    ensures var offset := Offset(currentPage, pageSize);
            && 0 <= offset
            && |Page(s, currentPage, pageSize)| == Min(pageSize, Max(0, |s| - offset))
            && forall i :: 0 <= i < |Page(s, currentPage, pageSize)| ==>
                 offset + i < |s| && Page(s, currentPage, pageSize)[i] == s[offset + i]
  {
    var offset := (currentPage - 1) * pageSize;
    assert offset >= 0 by {
      MulNonNegative(currentPage - 1, pageSize);
    }
    assert currentPage * pageSize == offset + pageSize;
  }

  /** `PageWindow` for rows already known to be the page and a total
      already known to be the length of `s`. */
  lemma PageWindowOf<T>(s: seq<T>, currentPage: int, pageSize: int, rows: seq<T>, total: int)
    requires currentPage >= 1 && pageSize >= 1
    requires rows == Page(s, currentPage, pageSize) && total == |s|
    ensures var offset := Offset(currentPage, pageSize);
            && 0 <= offset
            && |rows| == Min(pageSize, Max(0, total - offset))
            && forall i :: 0 <= i < |rows| ==> offset + i < |s| && rows[i] == s[offset + i]
  {
    PageWindow(s, currentPage, pageSize);
  }

  /** A page is empty exactly when its offset is at or past the end of `s`. */
  lemma PageEmptyIff<T>(s: seq<T>, currentPage: int, pageSize: int)
    requires currentPage >= 1 && pageSize >= 1
    ensures Page(s, currentPage, pageSize) == [] <==> Offset(currentPage, pageSize) >= |s|
  {
    PageWindow(s, currentPage, pageSize);
  }

  /** Every row of `s` appears on exactly the page its index falls into:
      row `i` is row `i % pageSize` of page `i / pageSize + 1`. */
  lemma PagesCover<T>(s: seq<T>, pageSize: int, i: int)
    requires pageSize >= 1
    requires 0 <= i < |s|
    ensures i / pageSize >= 0
    ensures var p := Page(s, i / pageSize + 1, pageSize);
            i % pageSize < |p| && p[i % pageSize] == s[i]
  {
    var q, m := i / pageSize, i % pageSize;
    assert i == q * pageSize + m;
    assert q >= 0;
    PageWindow(s, q + 1, pageSize);
    assert (q + 1 - 1) * pageSize == q * pageSize;
  }

  /** The page that row `i` of `s` is shown on. */
  lemma PageContaining<T>(s: seq<T>, pageSize: int, i: int) returns (page: int)
    requires pageSize >= 1
    requires 0 <= i < |s|
    ensures page >= 1 && s[i] in Page(s, page, pageSize)
  {
    PagesCover(s, pageSize, i);
    page := i / pageSize + 1;
  }

  lemma MulNonNegative(a: int, b: int)
    requires a >= 0 && b >= 0
    ensures a * b >= 0
  {
  }

  function Min(a: int, b: int): int { if a <= b then a else b }

  function Max(a: int, b: int): int { if a >= b then a else b }
}
