/** The `Customers` list component: an in-memory list of customers that is
    filtered by a search term, optionally sorted by name and cut into pages.
    React state becomes the `ListState` value; every render is the pure
    function `Render`, and every event handler a function from state to state. */
module CustomerList {
  import Seqs
  import Text
  import Ordering
  import StableSort
  import Paging

  datatype Customer = Customer(id: int, name: string, email: string)

  datatype Option<T> = None | Some(value: T)

  /** The string operations of the JavaScript runtime that the component
      calls. They are parameters: their real, Unicode-aware behaviour is not
      modelled; the lemmas about sorting assume only that `localeCompare`
      is a total preorder (`Ordering.IsTotalPreorder`). */
  datatype Locale = Locale(toLowerCase: string -> string, localeCompare: (string, string) -> int)

  /** The component's state: the list and the UI choices that shape its view.
      `sortOrder` is `None` until a sort order has been picked. */
  datatype ListState = ListState(
    customers: seq<Customer>,
    search: string,
    sortOrder: Option<string>,
    currentPage: int,
    pageSize: int)

  /** What one render shows: the table rows and the pager's total. */
  datatype ViewModel = ViewModel(rows: seq<Customer>, total: nat)

  const InitialCustomers: seq<Customer> := [
    Customer(1, "John Doe", "john@example.com"),
    Customer(2, "Jane Smith", "jane@example.com"),
    Customer(3, "Alice Brown", "alice@example.com")
  ]

  const InitialState: ListState := ListState(InitialCustomers, "", None, 1, 5)

  // ---------------------------------------------------------------- delete

  /** Keeps a customer unless it has the deleted id. */
  function KeepsOnDelete(id: int): Customer -> bool
  {
    (c: Customer) => c.id != id
  }

  /** Has the deleted id. */
  function HasId(id: int): Customer -> bool
  {
    (c: Customer) => c.id == id
  }

  /** The delete handler's new list: every customer whose id differs from
      the deleted one, in order. */
  function Delete(customers: seq<Customer>, id: int): (r: seq<Customer>)
    ensures Seqs.Subseq(r, customers)
    ensures forall i :: 0 <= i < |r| ==> r[i].id != id
    ensures forall x: Customer :: x.id != id ==> multiset(r)[x] == multiset(customers)[x]
    ensures |r| == |customers| - |Seqs.Filter(HasId(id), customers)|
  {
    Seqs.FilterSplitLength(KeepsOnDelete(id), HasId(id), customers);
    Seqs.Filter(KeepsOnDelete(id), customers)
  }

  /** Delete is the only order-preserving sublist that drops exactly the
      customers with the given id and keeps every other one as often as it occurs. */
  lemma DeleteCharacterised(customers: seq<Customer>, id: int, r: seq<Customer>)
    requires Seqs.Subseq(r, customers)
    requires forall x: Customer :: multiset(r)[x] == if x.id != id then multiset(customers)[x] else 0
    ensures r == Delete(customers, id)
  {
    Seqs.FilterUnique(KeepsOnDelete(id), customers, r);
  }

  /** Deleting the same id twice changes nothing the second time. */
  lemma DeleteIdempotent(customers: seq<Customer>, id: int)
    ensures Delete(Delete(customers, id), id) == Delete(customers, id)
  {
    var d := Delete(customers, id);
    Seqs.FilterAll(KeepsOnDelete(id), d);
  }

  /** The delete handler: the customers with the id leave the list, every
      other customer stays, and the search, order and page are kept. */
  function HandleDelete(st: ListState, id: int): (r: ListState)
    ensures forall c :: c in r.customers <==> c in st.customers && c.id != id
    ensures r.search == st.search && r.sortOrder == st.sortOrder
    ensures r.currentPage == st.currentPage && r.pageSize == st.pageSize
  {
    st.(customers := Delete(st.customers, id))
  }

  // ---------------------------------------------------------------- search

  /** The lower-cased name or the lower-cased email contains the term. */
  predicate Matches(toLowerCase: string -> string, c: Customer, term: string)
  {
    Text.Includes(toLowerCase(c.name), term) || Text.Includes(toLowerCase(c.email), term)
  }

  function MatchesTerm(toLowerCase: string -> string, term: string): Customer -> bool
  {
    (c: Customer) => Matches(toLowerCase, c, term)
  }

  /** The customers whose lower-cased name or lower-cased email contains
      the stored search term, in order. */
  function FilterCustomers(customers: seq<Customer>, toLowerCase: string -> string, search: string): (r: seq<Customer>)
    ensures Seqs.Subseq(r, customers)
    ensures forall x :: x in r <==> x in customers && Matches(toLowerCase, x, search)
    ensures forall x :: Matches(toLowerCase, x, search) ==> multiset(r)[x] == multiset(customers)[x]
  {
    Seqs.Filter(MatchesTerm(toLowerCase, search), customers)
  }

  /** With the empty search term every customer is kept, in order. */
  lemma EmptySearchKeepsAll(customers: seq<Customer>, toLowerCase: string -> string)
    ensures FilterCustomers(customers, toLowerCase, "") == customers
  {
    forall i | 0 <= i < |customers|
      ensures MatchesTerm(toLowerCase, "")(customers[i])
    {
      Text.IncludesEmpty(toLowerCase(customers[i].name));
    }
    Seqs.FilterAll(MatchesTerm(toLowerCase, ""), customers);
  }

  /** The search handler stores the lower-cased search text as the term and
      keeps everything else, the current page included. */
  function HandleSearch(st: ListState, toLowerCase: string -> string, value: string): (r: ListState)
    ensures r.search == toLowerCase(value)
    ensures r.customers == st.customers && r.sortOrder == st.sortOrder
    ensures r.currentPage == st.currentPage && r.pageSize == st.pageSize
  {
    st.(search := toLowerCase(value))
  }

  /** After a search for `value`, a customer is listed exactly when the
      lower-cased `value` occurs at some position of its lower-cased name or
      email; the list is otherwise unchanged. */
  lemma SearchIsCaseFolded(st: ListState, locale: Locale, value: string, c: Customer)
    ensures var after := HandleSearch(st, locale.toLowerCase, value);
            && after.customers == st.customers
            && after.search == locale.toLowerCase(value)
            && (c in Filtered(after, locale) <==>
                  c in st.customers &&
                  ((exists i :: Text.OccursAt(locale.toLowerCase(c.name), locale.toLowerCase(value), i)) ||
                   (exists i :: Text.OccursAt(locale.toLowerCase(c.email), locale.toLowerCase(value), i))))
  {
    Text.IncludesIffOccurs(locale.toLowerCase(c.name), locale.toLowerCase(value));
    Text.IncludesIffOccurs(locale.toLowerCase(c.email), locale.toLowerCase(value));
  }

  // ---------------------------------------------------------------- sort

  /** The comparator handed to the sort. It answers 0 while the order is
      falsy (null or the empty string). For "asc" it compares the names with
      `localeCompare`; for every other order it compares them the other way round. */
  function SortComparator(sortOrder: Option<string>, localeCompare: (string, string) -> int): (r: (Customer, Customer) -> int)
    ensures forall a: Customer, b: Customer, a': Customer, b': Customer :: a.name == a'.name && b.name == b'.name ==> r(a, b) == r(a', b')
  {
    (a: Customer, b: Customer) =>
      if sortOrder.None? || sortOrder.value == "" then 0
      else if sortOrder.value == "asc" then localeCompare(a.name, b.name)
      else localeCompare(b.name, a.name)
  }

  /** Every order other than null, "" and "asc" gives the ascending
      comparator with its arguments swapped. */
  lemma DescendingFlipsAscending(order: string, localeCompare: (string, string) -> int)
    requires order != "" && order != "asc"
    ensures forall a, b :: SortComparator(Some(order), localeCompare)(a, b)
                           == SortComparator(Some("asc"), localeCompare)(b, a)
  {
  }

  /** The comparator is a valid `sort` comparator whenever `localeCompare` is. */
  lemma ComparatorIsPreorder(sortOrder: Option<string>, localeCompare: (string, string) -> int)
    requires Ordering.IsTotalPreorder(localeCompare)
    ensures Ordering.IsTotalPreorder(SortComparator(sortOrder, localeCompare))
  {
    var c := SortComparator(sortOrder, localeCompare);
    forall a, b
      ensures c(a, b) < 0 <==> c(b, a) > 0
    {
      assert localeCompare(a.name, b.name) < 0 <==> localeCompare(b.name, a.name) > 0;
    }
    forall a, b, d | c(a, b) <= 0 && c(b, d) <= 0
      ensures c(a, d) <= 0
    {
      if !(sortOrder.None? || sortOrder.value == "") {
        if sortOrder.value == "asc" {
          assert localeCompare(a.name, b.name) <= 0 && localeCompare(b.name, d.name) <= 0;
        } else {
          assert localeCompare(d.name, b.name) <= 0 && localeCompare(b.name, a.name) <= 0;
        }
      }
    }
  }

  /** A sorted copy of the filtered list: a rearrangement of its customers. */
  function SortCustomers(filtered: seq<Customer>, sortOrder: Option<string>, localeCompare: (string, string) -> int): (r: seq<Customer>)
    ensures multiset(r) == multiset(filtered)
    ensures |r| == |filtered|
  {
    StableSort.Sort(SortComparator(sortOrder, localeCompare), filtered)
  }

  /** While no order is chosen the comparator is always 0 and the stable
      sort returns the filtered list unchanged. */
  lemma UnsortedKeepsOrder(filtered: seq<Customer>, sortOrder: Option<string>, localeCompare: (string, string) -> int)
    requires sortOrder.None? || sortOrder.value == ""
    ensures SortCustomers(filtered, sortOrder, localeCompare) == filtered
  {
    StableSort.SortAllEqual(SortComparator(sortOrder, localeCompare), filtered);
  }

  /** With "asc", neighbouring names never decrease, and customers whose
      names compare equal stay in their filtered order. */
  lemma AscendingOrder(filtered: seq<Customer>, localeCompare: (string, string) -> int)
    requires Ordering.IsTotalPreorder(localeCompare)
    ensures var r := SortCustomers(filtered, Some("asc"), localeCompare);
            && (forall i :: 0 <= i < |r| - 1 ==> localeCompare(r[i].name, r[i + 1].name) <= 0)
            && StableSort.SamePeers(SortComparator(Some("asc"), localeCompare), r, filtered)
  {
    var c := SortComparator(Some("asc"), localeCompare);
    ComparatorIsPreorder(Some("asc"), localeCompare);
    StableSort.SortSorted(c, filtered);
    StableSort.SortStable(c, filtered);
    Ordering.SortedAdjacent(c, StableSort.Sort(c, filtered));
  }

  /** With any other non-empty order, neighbouring names never increase, and
      customers whose names compare equal stay in their filtered order. */
  lemma DescendingOrder(filtered: seq<Customer>, order: string, localeCompare: (string, string) -> int)
    requires Ordering.IsTotalPreorder(localeCompare)
    requires order != "" && order != "asc"
    ensures var r := SortCustomers(filtered, Some(order), localeCompare);
            && (forall i :: 0 <= i < |r| - 1 ==> localeCompare(r[i + 1].name, r[i].name) <= 0)
            && StableSort.SamePeers(SortComparator(Some(order), localeCompare), r, filtered)
  {
    var c := SortComparator(Some(order), localeCompare);
    ComparatorIsPreorder(Some(order), localeCompare);
    StableSort.SortSorted(c, filtered);
    StableSort.SortStable(c, filtered);
    Ordering.SortedAdjacent(c, StableSort.Sort(c, filtered));
  }

  /** When no two filtered names compare equal, the descending list is
      exactly the ascending list reversed. With ties it is not: both orders
      keep tied customers in their filtered order. */
  lemma DescendingReversesAscending(filtered: seq<Customer>, order: string, localeCompare: (string, string) -> int)
    requires Ordering.IsTotalPreorder(localeCompare)
    requires order != "" && order != "asc"
    requires forall i, j :: 0 <= i < j < |filtered| ==> localeCompare(filtered[i].name, filtered[j].name) != 0
    ensures SortCustomers(filtered, Some(order), localeCompare)
            == StableSort.Reverse(SortCustomers(filtered, Some("asc"), localeCompare))
  {
    var asc, desc := SortComparator(Some("asc"), localeCompare), SortComparator(Some(order), localeCompare);
    ComparatorIsPreorder(Some("asc"), localeCompare);
    assert forall a, b :: desc(a, b) == asc(b, a);
    assert forall i, j :: 0 <= i < j < |filtered| ==> asc(filtered[i], filtered[j]) != 0;
    StableSort.FlippedSortReverses(asc, desc, filtered);
  }

  /** A collation that compares names by length only, so that distinct
      names of equal length tie. */
  function LengthCompare(a: string, b: string): int
  {
    |a| - |b|
  }

  lemma LengthCompareIsPreorder()
    ensures Ordering.IsTotalPreorder(LengthCompare)
  {
  }

  /** With ties, switching to descending order need not reverse the rows:
      two names that tie keep their filtered order under both orders, for a
      comparator that is a total preorder. */
  lemma TiesNotReversed()
    ensures Ordering.IsTotalPreorder(LengthCompare)
    ensures var f := [Customer(1, "ab", "x"), Customer(2, "cd", "y")];
            && SortCustomers(f, Some("desc"), LengthCompare) == f
            && StableSort.Reverse(SortCustomers(f, Some("asc"), LengthCompare)) != f
  {
    LengthCompareIsPreorder();
    var f := [Customer(1, "ab", "x"), Customer(2, "cd", "y")];
    var desc, asc := SortComparator(Some("desc"), LengthCompare), SortComparator(Some("asc"), LengthCompare);
    assert desc(f[1], f[0]) == 0 && asc(f[1], f[0]) == 0;
    StableSort.SortTiedPair(desc, f[0], f[1]);
    StableSort.SortTiedPair(asc, f[0], f[1]);
    assert [f[0], f[1]] == f;
    var up := SortCustomers(f, Some("asc"), LengthCompare);
    assert StableSort.Reverse(up)[0] == up[1] == f[1] != f[0];
  }

  /** Whatever stable algorithm the engine's `sort` uses, its result is
      `SortCustomers`: it is the only sorted, stable rearrangement. */
  lemma SortIsEngineSort(filtered: seq<Customer>, sortOrder: Option<string>, localeCompare: (string, string) -> int, r: seq<Customer>)
    requires Ordering.IsTotalPreorder(localeCompare)
    requires Ordering.SortedBy(SortComparator(sortOrder, localeCompare), r)
    requires StableSort.SamePeers(SortComparator(sortOrder, localeCompare), r, filtered)
    ensures r == SortCustomers(filtered, sortOrder, localeCompare)
  {
    ComparatorIsPreorder(sortOrder, localeCompare);
    StableSort.SortIsTheStableSort(SortComparator(sortOrder, localeCompare), filtered, r);
  }

  /** The sort handler records the chosen order and keeps everything else,
      the current page included. */
  function HandleSort(st: ListState, order: string): (r: ListState)
    ensures r.sortOrder == Some(order)
    ensures r.customers == st.customers && r.search == st.search
    ensures r.currentPage == st.currentPage && r.pageSize == st.pageSize
  {
    st.(sortOrder := Some(order))
  }

  // ---------------------------------------------------------------- render

  /** The customers that match the stored term, in list order. */
  function Filtered(st: ListState, locale: Locale): (r: seq<Customer>)
    ensures Seqs.Subseq(r, st.customers)
    ensures forall c :: c in r <==> c in st.customers && Matches(locale.toLowerCase, c, st.search)
  {
    FilterCustomers(st.customers, locale.toLowerCase, st.search)
  }

  /** The matching customers in the chosen order, each as often as filtered. */
  function Sorted(st: ListState, locale: Locale): (r: seq<Customer>)
    ensures multiset(r) == multiset(Filtered(st, locale))
    ensures forall c :: c in r <==> c in st.customers && Matches(locale.toLowerCase, c, st.search)
  {
    SortCustomers(Filtered(st, locale), st.sortOrder, locale.localeCompare)
  }

  /** The table shows the current page of the sorted list; the pager's total
      is the number of filtered customers. */
  function Render(st: ListState, locale: Locale): (v: ViewModel)
    ensures v.total == |Sorted(st, locale)|
    ensures forall c :: c in v.rows ==> c in st.customers && Matches(locale.toLowerCase, c, st.search)
    ensures st.pageSize >= 0 ==> |v.rows| <= st.pageSize
  {
    ViewModel(Paging.Page(Sorted(st, locale), st.currentPage, st.pageSize), |Filtered(st, locale)|)
  }

  /** The pager's change handler: only the new page number is kept. */
  function HandlePageChange(st: ListState, page: int): (r: ListState)
    ensures r.currentPage == page
    ensures r.customers == st.customers && r.search == st.search
    ensures r.sortOrder == st.sortOrder && r.pageSize == st.pageSize
  {
    st.(currentPage := page)
  }

  /** For a page and a page size of at least one, the rows are the slice of
      the sorted list starting at `(currentPage - 1) * pageSize`, and there
      are `min(pageSize, max(0, total - (currentPage - 1) * pageSize))` of them. */
  lemma WindowIsSlice(st: ListState, locale: Locale)
    requires st.currentPage >= 1 && st.pageSize >= 1
    ensures var v := Render(st, locale);
            var offset := Paging.Offset(st.currentPage, st.pageSize);
            && 0 <= offset
            && |v.rows| == Paging.Min(st.pageSize, Paging.Max(0, v.total - offset))
            && forall i :: 0 <= i < |v.rows| ==>
                 offset + i < |Sorted(st, locale)| && v.rows[i] == Sorted(st, locale)[offset + i]
  {
    var sorted := Sorted(st, locale);
    var v := Render(st, locale);
    Paging.PageWindowOf(sorted, st.currentPage, st.pageSize, v.rows, v.total);
  }

  /** The pager's total counts the filtered customers, and only them: picking
      a sort order or a page, or changing the page size, leaves it unchanged. */
  lemma TotalIgnoresPaging(st: ListState, locale: Locale, order: string, page: int, size: int)
    ensures Render(st, locale).total == |Filtered(st, locale)|
    ensures Render(HandlePageChange(HandleSort(st, order), page).(pageSize := size), locale).total
            == Render(st, locale).total
  {
  }

  /** The table is empty exactly when the current page starts at or after the
      pager's total. `HandleSearch` and `HandleSort` keep the current page, so
      a search that narrows the list below the page's offset empties the table. */
  lemma EmptyTableIff(st: ListState, locale: Locale)
    requires st.currentPage >= 1 && st.pageSize >= 1
    ensures Render(st, locale).rows == [] <==>
              Paging.Offset(st.currentPage, st.pageSize) >= Render(st, locale).total
  {
    var sorted := Sorted(st, locale);
    assert Render(st, locale).total == |sorted|;
    Paging.PageEmptyIff(sorted, st.currentPage, st.pageSize);
  }

  /** Every filtered customer is shown on some page: the one its position in
      the sorted list falls into. */
  lemma EveryMatchOnSomePage(st: ListState, locale: Locale, c: Customer)
    requires st.pageSize >= 1
    requires c in Filtered(st, locale)
    ensures exists page :: page >= 1 && ShownOnPage(st, locale, c, page)
  {
    var sorted := Sorted(st, locale);
    assert c in multiset(sorted);
    var i :| 0 <= i < |sorted| && sorted[i] == c;
    var page := Paging.PageContaining(sorted, st.pageSize, i);
    var after := st.(currentPage := page);
    assert Sorted(after, locale) == sorted;
    assert Render(after, locale).rows == Paging.Page(sorted, page, st.pageSize);
    assert ShownOnPage(st, locale, c, page);
  }

  /** `c` is a row of the table when page `page` is selected. */
  ghost predicate ShownOnPage(st: ListState, locale: Locale, c: Customer, page: int)
  {
    c in Render(st.(currentPage := page), locale).rows
  }

  /** Every row shown is a customer of the list that matches the search. */
  lemma RowsMatch(st: ListState, locale: Locale)
    ensures forall c :: c in Render(st, locale).rows ==>
              c in st.customers && Matches(locale.toLowerCase, c, st.search)
  {
    var sorted := Sorted(st, locale);
    var rows := Render(st, locale).rows;
    forall c | c in rows
      ensures c in st.customers && Matches(locale.toLowerCase, c, st.search)
    {
      var i :| 0 <= i < |rows| && rows[i] == c;
      assert c in sorted;
      assert c in multiset(Filtered(st, locale));
    }
  }

  /** After a delete no row shows the deleted id, and the pager's total drops
      by the number of listed customers that had it. */
  lemma DeleteView(st: ListState, locale: Locale, id: int)
    ensures forall c :: c in Render(HandleDelete(st, id), locale).rows ==> c.id != id
    ensures Render(HandleDelete(st, id), locale).total
            == Render(st, locale).total - |Seqs.Filter(HasId(id), Filtered(st, locale))|
  {
    var after := HandleDelete(st, id);
    RowsMatch(after, locale);
    forall c | c in Render(after, locale).rows
      ensures c.id != id
    {
      var i :| 0 <= i < |after.customers| && after.customers[i] == c;
    }
    var p := MatchesTerm(locale.toLowerCase, st.search);
    Seqs.FilterCommute(p, KeepsOnDelete(id), st.customers);
    assert Filtered(after, locale) == Delete(Filtered(st, locale), id);
  }

  /** The first render shows the three initial customers in their order,
      whatever the runtime's string operations do. */
  lemma InitialView(locale: Locale)
    ensures Render(InitialState, locale) == ViewModel(InitialCustomers, 3)
  {
    EmptySearchKeepsAll(InitialCustomers, locale.toLowerCase);
    UnsortedKeepsOrder(InitialCustomers, None, locale.localeCompare);
    Paging.PageWindow(InitialCustomers, 1, 5);
  }
}
