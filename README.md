# Product table: join, filter/sort pipeline and view-state transitions

This project models the computational core of a single-page product
catalogue (`src/App.jsx`). The catalogue lists products. Each product is
joined at startup with its category and that category's owner user. The page
then shows the rows that pass the active filters, in the requested order:

- **Startup join** (`Catalog`). Every product gets the first category whose
  `id` equals its `categoryId`, and the first user whose `id` equals that
  category's `ownerId`. The spread `{ ...product, category, user }` keeps the
  product's own fields, and the product order is kept.
- **`filterTable`** (`Table`, with `Sorting`, `Seqs`, `Text`). It runs five
  stages in a fixed order:
  1. exact user-name filter;
  2. sort by one of four comparators (id by subtraction; product name,
     category title and user name by `localeCompare`);
  3. in-place reversal when the order is `'desc'`, whether or not a column is
     set;
  4. category-id membership filter;
  5. case-insensitive substring search on the product's own name, after
     trimming and lower-casing the query.

  `Table.Pipeline` is this as a function. `Table.FilterTable` is the method
  that, like the source, sorts and reverses an array in place.
  `Sorting.SortInPlace` is a stable insertion sort proved equal to the
  functional `Sorting.SortSpec`.
- **View state** (`View`). The five `useState` values are fields of the class
  `View.ViewState`. Its methods are the handlers:
  - `handleSorting`: a per-column cycle unsorted → `asc` → `desc` → unsorted;
    another column restarts at `asc`.
  - `handleCategoriesFilter`: remove the id if present, otherwise append it.
  - the "Reset all filters" handler: clears categories, user and query, and
    keeps the sort.
  - the user links and the search box: plain replacements.

  `View.NextSort` and `View.Toggled` are the two non-trivial transitions as
  functions. The lemmas about them are stated in terms of those functions.

Modelling choices:

- The three data modules (`./api/users`, `./api/categories`,
  `./api/products`) are parameters of `Catalog.Join`.
- Dangling foreign keys are a hard failure at startup. `Catalog.Join` returns
  `Err` with the dangling key of the first product whose keys do not resolve:
  the product id and its unknown `categoryId`, or the category id and its
  unknown `ownerId`.
- `sortingColumn` is `Option<Column>`. The initial `''` and the `null` set by
  the third header click are both `None`, because no reachable comparison
  tells them apart. `sortingOrder` is `Unsorted | Asc | Desc` for
  `'' | 'asc' | 'desc'`.
- `selectedUser` is `Option<string>`. `if (selectedUser)` is false for
  `null` and for the empty string, and the model keeps that
  (`Table.UserFilterOn`).

Points where the code's behaviour is easy to misread:

- `selectedCategories` is a list, and `push` appends to it. So toggling a
  selected id off and on moves it to the end; only membership is restored,
  and exact order only when the id was absent at first.
- Besides the three transitions of the header cycle, `handleSorting` has a
  fourth, silent case: the same column with order `''` leaves the state
  unchanged. `View.NextSort` models it. `View.NextSortConsistent` shows that
  it cannot arise from a consistent state.
- `Array.prototype.sort` is stable only from ECMAScript 2019 on. The model's
  sort is proved stable (`Sorting.SortSpecStable`).

## Model

| member | source | states |
|---|---|---|
| `Seqs.Filter` | src/App.jsx:37-39 | `Array.prototype.filter`: the result is no longer than the input, and every element of it is in the input and passes the predicate |
| `Seqs.FilterMembers` | src/App.jsx:100 | an element is kept exactly when it is in the input and passes the predicate |
| `Seqs.FindIndex` | src/App.jsx:17-19 | the index found is the first one whose element passes the predicate; there is none exactly when no element passes |
| `Seqs.Find` | src/App.jsx:17-20 | `Array.prototype.find` returns the first element that passes, and `undefined` exactly when none does |
| `Seqs.Reverse` | src/App.jsx:60 | the reversed sequence has the same length, and element k is element n-1-k of the input |
| `Seqs.ReverseInPlace` | src/App.jsx:59-61 | the array afterwards holds the reverse of its old contents |
| `Seqs.FilterReverse` | src/App.jsx:59-72 | a filter after a reversal is the reversal of the filter: filters keep relative order |
| `Text.SkipLeading` | src/App.jsx:34 | the scan for the start of the trimmed slice stops at the first character that is not ECMAScript whitespace, and every character it passes is whitespace |
| `Text.SkipTrailing` | src/App.jsx:34 | the scan for the end of the trimmed slice stops after the last character that is not whitespace, and every character it passes is whitespace |
| `Text.Trim` | src/App.jsx:34 | `String.prototype.trim` as a function: the result is no longer than the input, and a non-empty result starts and ends with a character that is not ECMAScript whitespace |
| `Text.TrimIsCore` | src/App.jsx:34 | `trim` returns the slice between the leading and the trailing whitespace, and that slice has no whitespace at either end |
| `Text.TrimIdempotent` | src/App.jsx:34 | trimming a trimmed string changes nothing |
| `Text.Lower` | src/App.jsx:71 | `toLowerCase` keeps the length and lower-cases each character (ASCII letters) |
| `Text.Contains` | src/App.jsx:71 | `String.prototype.includes` as a predicate: the empty needle is always found, and a needle is found only if it is no longer than the haystack |
| `Text.ContainsFromIff` | src/App.jsx:71 | the search from position i succeeds exactly when the needle occurs at i or later |
| `Text.ContainsIff` | src/App.jsx:71 | `includes` holds exactly when the needle occurs at some position of the haystack |
| `Text.StrLessAsymmetric` | src/App.jsx:46-50 | the order standing for `localeCompare` is asymmetric |
| `Text.StrLessTransitive` | src/App.jsx:46-50 | that order is transitive |
| `Text.StrLessTotal` | src/App.jsx:46-50 | any two different strings are ordered one way or the other |
| `Text.StrNotLessTransitive` | src/App.jsx:46-50 | "not less" is transitive, so the comparator is a strict weak order as a sort needs |
| `Catalog.CategoryById` | src/App.jsx:17-19 | the category `find` with `cat.id === product.categoryId`: a result is a category of the list carrying that id, and there is none exactly when no category carries it |
| `Catalog.UserById` | src/App.jsx:20 | the user `find` with `u.id === category.ownerId`: a result is a user of the list carrying that id, and there is none exactly when no user carries it |
| `Catalog.Enrich` | src/App.jsx:17-22 | the record is built exactly when both keys resolve; it carries the product's fields, the category `find` returns (the first with its `categoryId`) and the user `find` returns (the first with that category's `ownerId`); otherwise the error names the dangling key |
| `Catalog.JoinFrom` | src/App.jsx:16-23 | the join of the products from position i on succeeds exactly when each of them resolves, and then yields one enriched record per product, in order |
| `Catalog.Join` | src/App.jsx:16-23 | the join succeeds exactly when every product's keys resolve; it then yields one enriched record per product, in product order |
| `Catalog.FirstFaultFrom` | src/App.jsx:16-20 | in a failed join from position i, the reported error is the fault of the first product at or after i whose keys do not resolve |
| `Catalog.JoinReportsFirstFault` | src/App.jsx:16-20 | a failed join reports the dangling key of the first product whose keys do not resolve |
| `Sorting.StrCompare` | src/App.jsx:46-50 | the `localeCompare` stand-in: it returns -1, 0 or 1, negative exactly when the first string sorts before the second, zero exactly when they are equal, positive exactly when the second sorts first |
| `Sorting.Compare` | src/App.jsx:44-55 | the comparator of the `switch`, one case per column: id by subtraction (negative exactly when the first id is smaller, zero exactly when the ids are equal), and product name, category title and user name by the string order (negative exactly when the first sorts before, zero exactly when equal) |
| `Sorting.SortSpec` | src/App.jsx:43 | `sort` with that comparator, as a function (insertion from the left): the result has as many rows as the input; ordering, permutation and stability are the lemmas below |
| `Sorting.LessAsymmetric` | src/App.jsx:44-55 | no two rows each sort strictly before the other, for any of the four comparators |
| `Sorting.NotLessTransitive` | src/App.jsx:44-55 | each comparator's "not before" relation is transitive |
| `Sorting.InsertSorted` | src/App.jsx:43 | inserting into a sequence ordered by the comparator keeps it ordered |
| `Sorting.SortSpecSorted` | src/App.jsx:42-57 | the sort result is ordered by the column's comparator |
| `Sorting.SortSpecPermutation` | src/App.jsx:43 | the sort result is a permutation of its input |
| `Sorting.SortSpecStable` | src/App.jsx:43 | the sort is stable: rows tied on the key keep their relative order |
| `Sorting.SortedFilter` | src/App.jsx:63-72 | filtering a sorted sequence leaves it sorted |
| `Sorting.InsertLast` | src/App.jsx:43 | one pass of the insertion sort moves `a[i]` into place in `a[..i]` and leaves the rest of the array alone |
| `Sorting.SortInPlace` | src/App.jsx:42-57 | the array is sorted in place: it becomes the functional sort of its old contents, ordered by the comparator and a permutation of what it held |
| `Table.SortRows` | src/App.jsx:42-61 | copying the rows into an array, sorting it in place when a column is set and reversing it in place under `'desc'` yields the sort stage followed by the order stage |
| `Table.FilterTable` | src/App.jsx:25-75 | copying, filtering, sorting in place and reversing in place yields exactly the five-stage pipeline |
| `Table.Normalize` | src/App.jsx:34 | `query.trim().toLowerCase()`: the result is no longer than the query and holds no upper-case ASCII letter |
| `Table.Pipeline` | src/App.jsx:25-75 | the five stages of `filterTable` in source order, as a function: the result never has more rows than the input, and with no user, no categories and a query that trims to empty it has exactly as many |
| `Table.UserStageIsFilter` | src/App.jsx:36-40 | the user stage keeps the rows whose user's name equals the selected name, or all rows when no (non-empty) name is selected |
| `Table.CategoryStageIsFilter` | src/App.jsx:63-67 | the category stage keeps the rows whose category id is selected, or all rows when none is |
| `Table.SearchStageIsFilter` | src/App.jsx:69-72 | the search stage keeps the rows whose lower-cased product name contains the normalized query, or all rows when that is empty |
| `Table.DescMirrorsAsc` | src/App.jsx:59-72 | the `'desc'` result is exactly the reverse of the result for `'asc'` (or `''`) with the same other arguments, with or without a column |
| `Table.UnsortedIsFiltered` | src/App.jsx:33-74 | with no column, the result is the input filtered by all active filters in input order, reversed when the order is `'desc'` |
| `Table.NoFiltersPassThrough` | src/App.jsx:33-74 | no user, no categories, a query that trims to empty, no column and an order other than `'desc'`: the output equals the input |
| `Table.PipelinePermutation` | src/App.jsx:33-74 | the visible rows are a permutation of the input rows that pass every active filter |
| `Table.PipelineSound` | src/App.jsx:33-72 | the visible rows are a sub-multiset of the input, and each passes the user, category and search filters when they are on |
| `Table.PipelineSorted` | src/App.jsx:42-72 | with a column, the rows are ordered by its comparator, or in the opposite order under `'desc'` |
| `Table.SortByIdAscending` | src/App.jsx:51-52 | sorting by id ascending gives non-decreasing ids and a permutation of the filtered rows |
| `Table.ClearedFiltersShowAll` | src/App.jsx:212-216 | once the filters are cleared, every product is visible, in some order |
| `View.NextSort` | src/App.jsx:84-94 | the `handleSorting` transition as a function: a column set afterwards is the clicked one; the order becomes `asc` exactly when another column is clicked, `desc` exactly when the clicked column was `asc`, and the column is cleared exactly when the clicked column was `desc`; the clicked column with order `''` is left as it is |
| `View.NextSortConsistent` | src/App.jsx:84-94 | a header click keeps "order is `''` exactly when no column is set" and always changes a consistent state |
| `View.SortCycle` | src/App.jsx:84-94 | from unsorted, one column's header goes to `asc`, then `desc`, then back to unsorted |
| `View.SecondClickReverses` | src/App.jsx:88-89 | clicking the header of the column sorted `asc` reverses the visible rows |
| `View.ThreeClicksRestoreRows` | src/App.jsx:84-94 | three clicks on one header from an unsorted state show the same rows as before |
| `View.Toggled` | src/App.jsx:96-106 | the `handleCategoriesFilter` transition as a function: the new list holds only old ids and the clicked one; the clicked id is in it exactly when it was not in the old list |
| `View.ToggleFlips` | src/App.jsx:96-106 | toggling an id flips whether it is selected and leaves every other id's membership unchanged |
| `View.ToggleTwiceSameIds` | src/App.jsx:96-106 | toggling the same id twice selects the same ids as before |
| `View.ToggleTwiceAbsent` | src/App.jsx:99-105 | toggling an unselected id twice (push, then filter it out) restores the list exactly |
| `View.ToggleNoDuplicates` | src/App.jsx:99-103 | toggling keeps the list free of duplicates; removing takes out the one copy of the id |
| `View.ViewState.constructor` | src/App.jsx:78-82 | the initial state: no categories, no user, no column, order `''`, empty query; it is consistent |
| `View.ViewState.HandleSorting` | src/App.jsx:84-94 | the column and order become the `NextSort` of the old ones, which always differs from the old pair; the other fields are untouched, and consistency is kept |
| `View.ViewState.HandleCategoriesFilter` | src/App.jsx:96-106 | the selected list becomes the toggle of the old list, removal takes out the one copy of the id, the other fields are untouched, and the list stays duplicate-free |
| `View.ViewState.ResetFilters` | src/App.jsx:212-216 | categories become `[]`, the user `null` and the query `''`; column and order are not touched |
| `View.ViewState.SelectUser` | src/App.jsx:142 | the selected user is replaced and nothing else changes |
| `View.ViewState.SetQuery` | src/App.jsx:160 | the query is replaced verbatim, untrimmed, and nothing else changes |
| `View.ViewState.VisibleProducts` | src/App.jsx:108-115 | the rendered rows are `filterTable` of the joined products and the current state |

## Left out

- Rendering: the JSX table, the filter panel, the sort icons (`classNames`), the colours by user sex, the "No products matching" message and the CSS. They are presentation, not logic (src/App.jsx:117-366).
- React mechanics: `useState` batching and re-rendering. The setters are modelled as direct field updates applied in order.
- The data modules `./api/users`, `./api/categories` and `./api/products` are not part of this model. Their contents are parameters.
- The "All" categories button (src/App.jsx:182-190) has no click handler, so it has no transition.
- Catalog.Join: a category whose owner is missing is rejected at startup. The source instead leaves `user` undefined; it fails later only when the user filter or the user sort reads `user.name`, and the table then renders a blank user. A missing category makes the source throw at line 20, which the model reports as an error value.
- Text.StrLessTotal: `localeCompare` is modelled as lexicographic order on code points. Locale collation, which can tie distinct strings or order accents differently, is not modelled.
- Text.Lower: `toLowerCase` is modelled on ASCII letters only. Unicode case mapping, including mappings that change the length, is not modelled.
- Sorting.SortInPlace: the engine's own sort algorithm is not modelled. Any stable sort with these comparators gives the same result, and stability is guaranteed from ECMAScript 2019 on.
- Ids are unbounded integers. `p1.id - p2.id` on JavaScript numbers has the same sign only while the ids are safe integers.
- The comparator's `default: return 0` (src/App.jsx:53-54) cannot be reached, because `Column` has exactly the four sort constants.
