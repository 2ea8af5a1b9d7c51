# Customers list pipeline, modelled in Dafny

This project models the client-side list logic of the `Customers` component
of a small customer-management screen. The component keeps an in-memory list
of customers (`id`, `name`, `email`). On every render it:

1. filters the list by a search term, matching the lower-cased name or the
   lower-cased email by substring;
2. sorts the filtered list by name when a sort order is chosen, with a stable
   sort;
3. shows one page of the sorted list as a contiguous slice, and gives the
   pager the filtered count as its total.

A delete button removes every customer with the clicked id.

The model is functional. React state becomes the immutable `ListState`
value. A render is the pure function `CustomerList.Render`, and each event
handler (`HandleDelete`, `HandleSearch`, `HandleSort`, `HandlePageChange`)
is a function from state to state.

The JavaScript runtime's string operations are parameters, held in a
`Locale` value:

- `toLowerCase` is any function from strings to strings. No lemma needs
  anything more of it.
- `localeCompare` is any three-way comparator. The sorting lemmas assume only
  that it is a total preorder when read through its sign
  (`Ordering.IsTotalPreorder`).

Files:

- `seqs.dfy` (`Seqs`): the subsequence relation and `Filter`, the model of
  `Array.prototype.filter`.
- `text.dfy` (`Text`): `Includes`, the model of `String.prototype.includes`.
- `ordering.dfy` (`Ordering`): comparators, total preorders and sortedness.
- `stable_sort.dfy` (`StableSort`): a stable insertion sort, the model of
  `Array.prototype.sort`. The lemmas prove it sorted, a permutation and
  stable, and prove it is the only stable sorted rearrangement. So no stable
  algorithm an engine might use can give a different result.
- `paging.dfy` (`Paging`): `Array.prototype.slice`, with negative indices and
  clamping, and the page window built on it.
- `customers.dfy` (`CustomerList`): the component's state, its handlers, its
  render, and the properties of the whole pipeline.

The model follows the code where its behaviour differs from what the screen
suggests:

- The comparator tests `!sortOrder`, so the empty string sorts nothing, just
  like `null`. Every other value except `"asc"` sorts descending, not only
  `"desc"`.
- Switching between ascending and descending does not always reverse the
  rows. The stable sort keeps customers with comparator-equal names in
  filtered order in both directions. So the descending rows are the reversed
  ascending rows only when no two names compare equal
  (`DescendingReversesAscending`); two tied names are not swapped
  (`TiesNotReversed`).
- Searching and sorting do not reset the current page. A search that leaves
  fewer matches than the current page's offset shows an empty table while the
  pager's total is positive (`EmptyTableIff`).

## Model

| member | source | states |
|---|---|---|
| `CustomerList.Delete` | src/components/Customers.tsx:27-29 | The result is an order-preserving sublist of the customers. No remaining customer has the deleted id. Every customer with another id keeps its exact number of occurrences. The length drops by the number of customers that had the id. |
| `CustomerList.DeleteCharacterised` | src/components/Customers.tsx:27-29 | Any order-preserving sublist that drops exactly the customers with the id, and keeps all others with their multiplicities, equals `Delete`. |
| `CustomerList.DeleteIdempotent` | src/components/Customers.tsx:27-29 | Deleting the same id a second time changes nothing. |
| `CustomerList.DeleteView` | src/components/Customers.tsx:27-29 | After a delete no table row has the deleted id. The pager's total drops by exactly the number of filtered customers that had the id. |
| `CustomerList.HandleDelete` | src/components/Customers.tsx:27-29 | After a delete, a customer is in the list iff it was in it before and has a different id. The search term, sort order, current page and page size are kept. |
| `Seqs.Filter` | src/components/Customers.tsx:39-41 | `filter` returns an order-preserving subsequence. Each element satisfying the predicate occurs as often as in the input, each other element not at all. An element is in the result iff it is in the input and satisfies the predicate. |
| `Seqs.FilterUnique` | src/components/Customers.tsx:39-41 | The contract of `Filter` determines its result: any subsequence with those multiplicities is `Filter`'s result. |
| `CustomerList.FilterCustomers` | src/components/Customers.tsx:39-41 | The filtered list is a subsequence of the customers. A customer is in it iff it is a customer whose lower-cased name or lower-cased email includes the stored term. Matching customers keep their multiplicity. |
| `CustomerList.EmptySearchKeepsAll` | src/components/Customers.tsx:39-41 | With the initial empty term, every string includes it, so filtering returns the customer list unchanged. |
| `Text.IncludesIffOccurs` | src/components/Customers.tsx:40 | `includes` holds iff the term occurs at some position of the string. |
| `Text.Includes` | src/components/Customers.tsx:40 | A term that is a prefix of the string is included. An included term is never longer than the string. |
| `CustomerList.Filtered` | src/components/Customers.tsx:39-41 | The filtered list is an order-preserving sublist of the customers. A customer is in it iff it is in the list and matches the stored term. |
| `CustomerList.HandleSearch` | src/components/Customers.tsx:31-33 | The stored term becomes `toLowerCase(value)`. The list, sort order, page size and current page stay the same, so a search does not return to page 1. |
| `CustomerList.SearchIsCaseFolded` | src/components/Customers.tsx:31-33 | After a search for `value`, the stored term is `toLowerCase(value)`. A customer is listed iff that term occurs in its lower-cased name or email. The list itself is not changed. |
| `CustomerList.ComparatorIsPreorder` | src/components/Customers.tsx:43-46 | For every sort order, the comparator passed to `sort` is a total preorder whenever `localeCompare` is one. |
| `CustomerList.SortComparator` | src/components/Customers.tsx:43-46 | The comparator looks only at the two customers' names: customers with the same names compare the same way. |
| `CustomerList.DescendingFlipsAscending` | src/components/Customers.tsx:45 | Every order other than null, `""` and `"asc"` compares like `"asc"` with the two customers swapped. |
| `CustomerList.SortCustomers` | src/components/Customers.tsx:43 | The sorted list has the same multiset of customers as the filtered list, so also the same length. |
| `CustomerList.UnsortedKeepsOrder` | src/components/Customers.tsx:44 | When the order is null or empty, the comparator is always 0 and the result equals the filtered list. |
| `CustomerList.AscendingOrder` | src/components/Customers.tsx:45 | For `"asc"`, adjacent names are non-decreasing under `localeCompare`. Each class of comparator-equal customers appears in its filtered order. |
| `CustomerList.DescendingOrder` | src/components/Customers.tsx:45 | For any other non-empty order, adjacent names are non-increasing under `localeCompare`. Each class of comparator-equal customers appears in its filtered order. |
| `CustomerList.DescendingReversesAscending` | src/components/Customers.tsx:43-46 | When no two filtered names compare equal, the descending list is exactly the ascending list reversed. |
| `CustomerList.TiesNotReversed` | src/components/Customers.tsx:43-46 | With ties the reversal fails. Take two customers whose names tie under a comparator that is a total preorder. Both `"asc"` and `"desc"` keep them in filtered order, so the descending rows are not the reversed ascending rows. |
| `CustomerList.SortIsEngineSort` | src/components/Customers.tsx:43-46 | Any sorted, stable rearrangement of the filtered list, such as the one an engine's `sort` returns, equals `SortCustomers`. |
| `CustomerList.Sorted` | src/components/Customers.tsx:43-46 | The sorted list holds the same customers as the filtered list, each as often. A customer is in it iff it is in the list and matches the stored term. |
| `CustomerList.HandleSort` | src/components/Customers.tsx:35-37 | The sort order becomes the chosen value. The list, search term, page size and current page stay the same, so sorting does not return to page 1. |
| `StableSort.Sort` | src/components/Customers.tsx:43 | The sort returns a permutation of its input: the same multiset and the same length. |
| `StableSort.SortSorted` | src/components/Customers.tsx:43-46 | For a total preorder, every earlier element of the result is not greater than every later one. |
| `StableSort.SortStable` | src/components/Customers.tsx:43-46 | For every element `k`, the elements comparing equal to `k` appear in the result in the same order as in the input. |
| `StableSort.SortIsTheStableSort` | src/components/Customers.tsx:43 | A sorted sequence whose comparator-equal classes appear in input order is exactly `Sort`'s result. |
| `StableSort.FlippedSortReverses` | src/components/Customers.tsx:45 | For a sequence without ties, sorting by the flipped comparator gives the reverse of sorting by the comparator. |
| `StableSort.SortAllEqual` | src/components/Customers.tsx:44 | With a comparator that always returns 0, sorting returns its input unchanged. |
| `Paging.Resolve` | src/components/Customers.tsx:64 | A resolved `slice` index is a valid bound: between 0 and the length. |
| `Paging.JsSlice` | src/components/Customers.tsx:64 | `slice` returns the run of the input from the resolved start. Its length is the resolved end minus the resolved start, or 0 when the end is not after the start. |
| `Paging.Page` | src/components/Customers.tsx:64 | Every row of a page is an element of the list. A page of a non-negative size holds at most that many rows. |
| `Paging.PageWindow` | src/components/Customers.tsx:64 | For page >= 1 and size >= 1, the page is the slice starting at `(page-1)*size`. Its length is `min(size, max(0, n - (page-1)*size))`. |
| `Paging.PageEmptyIff` | src/components/Customers.tsx:64 | For page >= 1 and size >= 1, a page is empty iff its offset is at or past the end of the list. |
| `Paging.PagesCover` | src/components/Customers.tsx:64 | Row `i` of the list is row `i % size` of page `i / size + 1`. |
| `CustomerList.WindowIsSlice` | src/components/Customers.tsx:64 | The table rows are the sorted list's slice from `(currentPage-1)*pageSize`. There are `min(pageSize, max(0, total - (currentPage-1)*pageSize))` of them. |
| `CustomerList.Render` | src/components/Customers.tsx:39-85 | The pager's total is the length of the sorted list. Every row is a customer of the list that matches the term. With a non-negative page size there are at most page-size rows. |
| `CustomerList.EmptyTableIff` | src/components/Customers.tsx:64 | The table is empty iff the current page's offset is at least the pager's total. |
| `CustomerList.RowsMatch` | src/components/Customers.tsx:63-64 | Every table row is one of the customers and matches the search term. |
| `CustomerList.TotalIgnoresPaging` | src/components/Customers.tsx:85 | The pager's total is the filtered count. Choosing a sort order or a page, or changing the page size, does not change it. |
| `CustomerList.EveryMatchOnSomePage` | src/components/Customers.tsx:82-86 | Every filtered customer is a table row for some page number >= 1. |
| `CustomerList.InitialView` | src/components/Customers.tsx:14-25 | The first render shows the three initial customers in their original order, with total 3, whatever the string operations do. |
| `CustomerList.HandlePageChange` | src/components/Customers.tsx:86 | The current page becomes the chosen page. The list, search term, sort order and page size stay the same. |

## Left out

- `src/ApiService/CustomerService.ts`: `fetch` calls to a fixed URL with no logic to verify. The component never calls it.
- `src/App.tsx`: composition of React and antd components only.
- Rendering, React hooks and re-rendering, and the antd `Table`, `Pagination`, `Select` and `Search` widgets. The values they feed in (search text, sort order, page) are plain parameters of the handlers.
- The Add and Edit buttons: they have no handlers, so there is no behaviour to model.
- Unicode behaviour of `toLowerCase` and the locale collation of `localeCompare`: these are runtime library behaviour. They are parameters, and only the total-preorder property of `localeCompare` is assumed.
- JavaScript strings are sequences of UTF-16 code units, and Dafny strings are sequences of Unicode scalar values. Strings holding a lone surrogate cannot be represented, and substring positions count code points, not code units. On well-formed strings, `includes` gives the same answer either way.
- `Array.prototype.sort` with a comparator that is not a total preorder: its result is implementation-defined. The model fixes insertion sort, and the sorting lemmas assume a total preorder.
- JavaScript numbers are modelled as unbounded integers. Fractional, `NaN` and infinite page numbers or page sizes, and float rounding of large products, are not modelled.
- The pager's `onChange` passes the page size as a second argument, which `setCurrentPage` ignores. The page size never changes inside the component, so `HandlePageChange` takes only the page.
- The server-side search, sort and paging, the create and edit modal, and the error handling described for the API-backed version are not part of this component's code, so they are not modelled.
