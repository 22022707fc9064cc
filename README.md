# Users store model

A Dafny model of the users store of a small Nuxt/Pinia table application
(`store/users.ts`). The store holds a list of user records and the view settings:
search query, sort field, sort order, current page and page size. It offers:

- mutations: load, add, update, delete, and setters for the view settings;
- three derived views: the filtered-and-sorted list, the current page of that list,
  and the number of pages.

Modules:

- `Wrappers`: `Option`.
- `Seqs`: a generic `Filter` (JavaScript `Array.prototype.filter`) and the
  subsequence relation.
- `Text`: ASCII lower-casing (`toLowerCase`), substring search (`includes`) and the
  JavaScript string order (`<`), which compares the strings' UTF-16 code units.
- `Users`: the record, the draft given to `addUser`, and the partial record given to
  `updateUser`. Each mutation is a function from the list before to the list after.
- `Search`: the search stage of `filteredUsers`.
- `Sorting`: the comparator of `filteredUsers` and a stable insertion sort.
- `Paging`: `Array.prototype.slice` with its negative-index rules, the page of
  `paginatedUsers`, and the ceiling division of `totalPages`.
- `UsersStore`: the class `Store`. Its fields are the refs of the store. Its methods
  change them as the store's actions do. The computed views are methods that recompute
  on each call.

Behaviour of the code that the model keeps:

- `deleteUser` removes every record with the given id, not just one.
- `updateUser` spreads the patch last, so a patch carrying an `id` renames the record.
  It can then create a duplicate id: `Users.UpdateCanDuplicateIds` gives an instance.
- The sort runs in place on the list it is given. With an empty query that list is the
  stored `users` array itself (line 44), so reading `filteredUsers` reorders the stored
  records.
- `Array.prototype.sort` is stable since ECMAScript 2019. The sort is therefore modelled
  as a stable sort, and its result is fully determined (`Sorting.SortUnique`).

## Model

| member | source | states |
|---|---|---|
| Users.MaxId | store/users.ts:27 | the largest id in the list, or 0 when none is larger: no id exceeds it, and it is 0 or some record's id |
| Users.Added | store/users.ts:26-29 | exactly one record is appended, with id max(ids, 0) + 1; the earlier records are unchanged; the new id exceeds every old one; adding to the empty list gives id 1; unique ids stay unique |
| UsersStore.Store.AddUser | store/users.ts:26-29 | the stored list becomes `Added` of the old one, and unique ids stay unique |
| Users.Overlay | store/users.ts:35 | the spread `{ ...u, ...p }`: an empty patch keeps the record; field by field, a field present in the patch replaces the record's (the id included), and an absent field keeps the record's value |
| Users.OverlayTwice | store/users.ts:35 | applying the same patch twice is applying it once |
| Users.FindIndex | store/users.ts:33 | the index of the first record with the id, or -1 exactly when no record has it |
| Users.Updated | store/users.ts:33-36 | only the first record with the id changes, and it becomes the patch laid over it; the length is kept; with no match the list is unchanged |
| Users.UpdatedKeepsIdsUnique | store/users.ts:35 | a patch without an id, or with the same id, keeps ids unique |
| Users.UpdateCanDuplicateIds | store/users.ts:35 | a patch whose id is another record's id breaks uniqueness (a two-record instance) |
| UsersStore.Store.UpdateUser | store/users.ts:31-37 | the stored list becomes `Updated` of the old one; uniqueness is kept when the patch leaves the id alone |
| Users.Without | store/users.ts:40 | the list after deletion is no longer than before, and holds exactly the old records whose id differs |
| Users.WithoutSpec | store/users.ts:40 | every record whose id differs keeps its count; the order is kept (a subsequence); with no match the list is unchanged; unique ids stay unique |
| UsersStore.Store.DeleteUser | store/users.ts:39-41 | the stored list becomes the list without the id, and unique ids stay unique |
| Seqs.Filter | store/users.ts:40 | the result keeps exactly the elements that pass, each as often as before, and is no longer than the input |
| Seqs.FilterIsSubsequence | store/users.ts:40 | filtering keeps the relative order |
| Seqs.FilterIdempotent | store/users.ts:48-52 | filtering twice with one predicate is filtering once |
| Text.Lower | store/users.ts:47 | lower-casing keeps the length and lower-cases each character |
| Text.LowerIdempotent | store/users.ts:47 | lower-casing twice is lower-casing once |
| Text.ContainsIff | store/users.ts:49-51 | `includes` holds exactly when the needle occurs at some position |
| Text.ContainsFirstChar | store/users.ts:49-51 | a non-empty needle that occurs has its first character in the text |
| Text.Contains | store/users.ts:49-51 | `includes`: the empty needle is found in every string, and a needle is found only in a string at least as long |
| Text.CharUnits | store/users.ts:59-60 | a character below U+10000 is the single code unit of its own value; one above is a pair, a high surrogate then a low surrogate, that decodes back to the character; the first unit is a high surrogate exactly for a pair |
| Text.Units | store/users.ts:59-60 | a string's UTF-16 code units: each below 0x10000, between one and two per character |
| Text.UnitsInjective | store/users.ts:59-60 | different strings have different code units |
| Text.UnitsLessTrichotomy | store/users.ts:59-60 | the order on code units is a strict total order |
| Text.UnitsLessTransitive | store/users.ts:59-60 | the order on code units is transitive |
| Text.StrLess | store/users.ts:59-60 | `<` on strings (code unit by code unit) never holds between equal strings |
| Text.StrLessBySurrogate | store/users.ts:59-60 | U+20BB7 sorts before U+FF71, because its high surrogate 0xD842 is below 0xFF71 |
| Text.StrLessTrichotomy | store/users.ts:59-60 | two strings are equal exactly when neither is less, and never each less than the other |
| Text.StrLessTransitive | store/users.ts:59-60 | the string order is transitive |
| Search.Matches | store/users.ts:49-51 | the OR of the three `includes` tests: the empty query matches every record, and a query matches only if some field is at least as long |
| Search.SearchFilter | store/users.ts:46-53 | an empty query keeps the list; otherwise exactly the records whose first name, last name or email contains the lower-cased query, case-insensitively, each as often as before and in the same order; unique ids stay unique |
| Search.SearchFilterIdempotent | store/users.ts:46-53 | searching the result again with the same query changes nothing |
| Search.SearchIgnoresQueryCase | store/users.ts:47 | a query and its lower-cased form select the same records |
| Search.AnnMatchesAn | store/users.ts:49 | "Ann" matches the query "an" through the lower-cased first name |
| Search.BobMissesAn | store/users.ts:48-52 | "Bob" with empty last name and email does not match "an" |
| Search.SearchScenario | store/users.ts:46-53 | searching [Ann, Bob] for "an" gives [Ann] |
| Sorting.KeyLess | store/users.ts:59-60 | `<` on the chosen field's values never holds between equal values |
| Sorting.KeyTrichotomy | store/users.ts:56-61 | for a field, two records' keys are equal or exactly one is less |
| Sorting.KeyLessTransitive | store/users.ts:56-61 | the key order is transitive |
| Sorting.Compare | store/users.ts:55-62 | the comparator returns -1, 0 or 1; 0 exactly on equal keys; negative exactly when the first key is less (ascending) or greater (descending) |
| Sorting.PrecedesIff | store/users.ts:59-61 | "not after" means the key is less or equal in the chosen direction |
| Sorting.PrecedesTotal | store/users.ts:59-61 | of two records, at least one is not after the other |
| Sorting.PrecedesTransitive | store/users.ts:59-61 | the comparator is consistent: "not after" is transitive |
| Sorting.SortedByKey | store/users.ts:55-62 | sorted means the keys are non-decreasing (ascending) or non-increasing (descending) |
| Sorting.SortedCons | store/users.ts:55-62 | a list with a head is sorted exactly when its tail is sorted and the head is not after any later record |
| Sorting.Insert | store/users.ts:55-62 | inserting adds exactly that one record |
| Sorting.InsertSorted | store/users.ts:55-62 | insertion into a sorted list keeps it sorted |
| Sorting.Sort | store/users.ts:55-62 | the sort keeps the length and is a permutation |
| Sorting.SortSorted | store/users.ts:55-62 | the sorted list is sorted by the chosen field and order |
| Sorting.SortStable | store/users.ts:55-62 | records with equal keys keep their relative order |
| Sorting.SortOfSorted | store/users.ts:55-62 | a list already sorted is left as it is |
| Sorting.SortIdempotent | store/users.ts:55-62 | sorting twice is sorting once |
| Sorting.SortKeepsIdsUnique | store/users.ts:55-62 | sorting keeps ids unique |
| Sorting.SortUnique | store/users.ts:55-62 | any sorted, stable permutation of the list is the sort's result |
| Users.PermutationKeepsIdsUnique | store/users.ts:55 | a permutation of a list with unique ids has unique ids |
| UsersStore.FilteredView | store/users.ts:43-65 | the view holds exactly the records passing the search, each as often as in the list, so it is no longer than the list; with an empty query it is a permutation of all records |
| UsersStore.FilteredViewSpec | store/users.ts:43-65 | the view is sorted; a record is in it exactly when it is in the list and passes the search; unique ids stay unique |
| UsersStore.FilteredViewStable | store/users.ts:44-55 | with an empty query, recomputing the view on the list it left behind gives the same list |
| UsersStore.Store.FilteredUsers | store/users.ts:43-65 | returns the view; with an empty query the stored list becomes the view, otherwise it is unchanged |
| Paging.SliceIndex | store/users.ts:70 | a slice bound lies in [0, n] and is clamped to n when non-negative; the body counts a negative bound back from the end, and `Paging.NonPositivePages` shows two instances |
| Paging.Slice | store/users.ts:70 | a slice is no longer than the list, nor longer than end − start when start ≤ end |
| Paging.Page | store/users.ts:68-70 | a page holds at most `perPage` records, and none when `perPage` is 0 |
| Paging.PageIsClampedSlice | store/users.ts:67-71 | from page 1 on, a page is the part of [(page-1)·k, page·k) inside the list: at most k records, empty once the start passes the end, and each record in place |
| Paging.NonPositivePages | store/users.ts:68-70 | page 0 is empty, and page -1 is the slice from 2k to k records before the end, both by the slice rules |
| Paging.PageCount | store/users.ts:73-75 | the page count is the least r with n ≤ r·k |
| Paging.PageCountExamples | store/users.ts:73-75 | 25 records of 10 per page give 3 pages; no records give 0 |
| Paging.PagesCoverAll | store/users.ts:67-75 | pages 1 to the page count, joined, are the whole list |
| Paging.PageEmptyIff | store/users.ts:67-75 | from page 1 on, a page is empty exactly when its number exceeds the page count |
| UsersStore.Store.PaginatedUsers | store/users.ts:67-71 | returns the page `currentPage` of the view, with the view's side effect on the stored list |
| UsersStore.Store.TotalPages | store/users.ts:73-75 | returns the page count of the view's length, with the view's side effect on the stored list |
| UsersStore.Store.SetSearchQuery | store/users.ts:77-80 | sets the query and returns to page 1; nothing else changes |
| UsersStore.Store.SetSorting | store/users.ts:82-85 | sets field and order; nothing else changes |
| UsersStore.Store.SetPage | store/users.ts:87-89 | sets the page as given, without clamping; nothing else changes |
| UsersStore.Store.LoadUsers | store/users.ts:13-24 | a fetched list replaces the records (a null body gives the empty list); a failure keeps them; the store ends not loading |
| UsersStore.Store.constructor | store/users.ts:5-11 | the initial state: no records, not loading, empty query, ascending by id, page 1, 10 per page |

## Left out

- The HTTP request and its JSON parsing in `loadUsers`: the fetch outcome is a parameter of `LoadUsers`.
- The console logging in `loadUsers` and `updateUser`: it has no effect on the state.
- `LoadUsers`: only the state after the load completes is stated. The `loading` flag during the await is not modelled, and neither are concurrent loads that interleave.
- Vue reactivity, and the caching of `computed` values: the model recomputes a view on each call. `UsersStore.FilteredViewStable` shows that recomputing with an empty query gives the same list. With a query, the stored list is not changed.
- `Text.Lower`: only ASCII A–Z are lower-cased. Unicode case mapping of `toLowerCase` is not modelled.
- The `User` type declares only what the store reads. `types/user.ts` is not part of this model. The record has the id and the three searched fields, and the sort keys are those four fields.
- Mixed-type and `undefined` comparisons in the sort comparator: each sort key is an integer or a string.
- Floating-point numbers: page numbers and ids are unbounded integers. In the source they are doubles, so with an existing id of 2^53 or more, `Math.max(...) + 1` rounds and can reuse an id. `Users.Added`'s promise that the new id exceeds every old one holds in the source only below 2^53. A fractional or `NaN` page, and `Infinity` or `NaN` from `Math.ceil` when the page size is 0, are not modelled.
- `UsersStore.Store.TotalPages`: requires a positive page size. The store fixes it at 10, and no action changes it.
- A patch field that is explicitly `undefined`: it is treated like an absent field, though the spread would copy the `undefined`.
- The engine's limit on the number of arguments to `Math.max(...ids)`: very large lists are not modelled.
- The in-place sort is modelled as a functional sort whose result is written back to the stored list. When the query is empty, aliasing is expressed by that write-back.
- `nuxt.config.ts`: configuration only, with no store logic.
