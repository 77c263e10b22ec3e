# FilterSorterDecorator, modelled in Dafny

This project models the list view state behind the research and how-to
listings: the generic `FilterSorterDecorator` class. The class holds the items
a page shows (`allItems`) and the active sort option (`activeSorter`). On those
it offers the following:

- a category filter;
- five single-key descending sorts (latest modified, latest created, most
  useful, most comments, most updates);
- a moderation pass that moves the active user's own draft, awaiting and
  rejected items to the front;
- the pipeline `getSortedItems`, which copies `allItems` and runs the option's
  sort, then the moderation pass;
- `sort(query)`, which selects an option by name;
- `search`, whose empty-query branch returns the list unchanged.

Layout:

- `wrappers.dfy`: `Option`.
- `keys.dfy`: sort keys (a count or a text) and their order. Texts compare
  lexicographically, as JavaScript's `<` compares strings.
- `items.dfy`: the item record, the comment total and the predicates the
  filter and the moderation pass test.
- `stable_sort.dfy`: the stable descending sort `SortBy` as a function, with
  these facts about it:
  - its result is a permutation of the input;
  - the result is sorted;
  - ties keep their input order;
  - it is the only sequence that is both sorted and stable.

  The file also holds `Filter`, and the in-place `InsertionSort` on an array,
  proved to compute `SortBy`.
- `comparators.dfy`: the three comparator callbacks, written out as the source
  computes them. It proves that each one orders by its key.
- `filter_sorter.dfy`: the sort options, `filterByCategory`, `search`, the
  sort pipeline as a function, and the `FilterSorterDecorator` class. The
  class's `sortBy*` methods sort an `array` in place. `GetSortedItems` and
  `Sort` are proved to equal the pipeline function.

`Array.prototype.sort` is stable since ECMAScript 2019. The source relies on
that, and on each callback being a consistent comparator. `CompareConsistent`
proves the second. `SortByCharacterized` proves that a stable sort under such
a comparator has exactly one possible result. So the insertion sort used here
gives the same array as any stable sort the engine uses.

## Model

| member | source | states |
|---|---|---|
| Items.TotalComments | src/stores/common/FilterSorterDecorator/FilterSorterDecorator.ts:39-52 | With no `updates` the total is 0. Otherwise it is the sum of `comments.length` over the updates, where an update without comments counts 0. The total is 0 exactly when no update has comments, and it is at least any one update's count. |
| Items.ReduceCommentsIsSum | src/stores/common/FilterSorterDecorator/FilterSorterDecorator.ts:41-46 | The `reduce` fold from a running total equals that total plus the recursive sum of the comment counts. |
| Items.TotalCommentsAddUpdate | src/stores/common/FilterSorterDecorator/FilterSorterDecorator.ts:40-48 | When an item already has `updates`, appending one more update raises its total by exactly that update's comment count. |
| FilterSorter.FilterByCategoryKeeps | src/stores/common/FilterSorterDecorator/FilterSorterDecorator.ts:66-75 | An empty category returns the list unchanged. The result is always an order-preserving subsequence of the input. For a non-empty category it holds every occurrence of each item whose effective label equals the category, and nothing else. The effective label is `category.label`, or `researchCategory.label` when `category` is absent. |
| FilterSorter.FilterByCategoryIdempotent | src/stores/common/FilterSorterDecorator/FilterSorterDecorator.ts:66-75 | Filtering twice by the same category gives the same list as filtering once. |
| FilterSorter.Search | src/stores/common/FilterSorterDecorator/FilterSorterDecorator.ts:196-208 | An empty search string returns the list unchanged. |
| StableSort.SortByPermutation | src/stores/common/FilterSorterDecorator/FilterSorterDecorator.ts:80-92 | The sorted list has the same length and the same multiset of items as the input. |
| StableSort.SortBySorted | src/stores/common/FilterSorterDecorator/FilterSorterDecorator.ts:80-92 | The sorted list is non-increasing by key. |
| StableSort.SortByStable | src/stores/common/FilterSorterDecorator/FilterSorterDecorator.ts:114-123 | For every key, the items with that key appear in the same relative order as in the input, so ties keep their order. |
| StableSort.SortedStableUnique | src/stores/common/FilterSorterDecorator/FilterSorterDecorator.ts:80-92 | Take two lists, each sorted and each a stable rearrangement of the other. They are equal. |
| StableSort.SortByCharacterized | src/stores/common/FilterSorterDecorator/FilterSorterDecorator.ts:80-92 | A list is the stable sort of an input if and only if it is sorted and a stable rearrangement of that input. |
| StableSort.SortByIdempotent | src/stores/common/FilterSorterDecorator/FilterSorterDecorator.ts:80-92 | Sorting an already sorted list by the same key returns it unchanged. |
| StableSort.FilterIsSubsequence | src/stores/common/FilterSorterDecorator/FilterSorterDecorator.ts:68-73 | `filter` returns an order-preserving subsequence of its input. |
| StableSort.FilterCount | src/stores/common/FilterSorterDecorator/FilterSorterDecorator.ts:68-73 | `filter` keeps every occurrence of each item its callback accepts, and no rejected item. |
| StableSort.InsertionSort | src/stores/common/FilterSorterDecorator/FilterSorterDecorator.ts:80-92 | The in-place sort, given a callback that is positive exactly when its first argument's key is smaller, leaves the array as the stable descending sort of its old contents. |
| Comparators.CompareConsistent | src/stores/common/FilterSorterDecorator/FilterSorterDecorator.ts:80-92 | Each of the three callbacks returns -1, 0 or 1 and is antisymmetric. It returns 0 exactly when the keys are equal, and a positive value exactly when the first key is smaller (larger keys first). Keys are: an array's length, a string value, or 0 when missing; the comment total; 1 for the user's own pending items and 0 otherwise. |
| Comparators.PropertyKeysOfOneKind | src/stores/common/FilterSorterDecorator/FilterSorterDecorator.ts:84-85 | For a given property, every item's key is a count or every item's key is a text, never a mix. |
| Comparators.ModerationPartition | src/stores/common/FilterSorterDecorator/FilterSorterDecorator.ts:126-149 | The moderation pass returns first the items created by the user whose status is draft, awaiting-moderation or rejected, in input order, and then all other items, in input order. No other item comes before one of the user's pending items. |
| Comparators.ModerationWithoutUser | src/stores/common/FilterSorterDecorator/FilterSorterDecorator.ts:128-129 | With no active user the moderation pass leaves the list unchanged. |
| Comparators.GroupsStaySorted | src/stores/common/FilterSorterDecorator/FilterSorterDecorator.ts:135-148 | Splitting a sorted list into the user's pending items and the rest leaves each part sorted. |
| Comparators.CompareFnOrdersByKey | src/stores/common/FilterSorterDecorator/FilterSorterDecorator.ts:80-92 | Every comparator callback is positive exactly when its first argument's key is smaller than its second's. |
| FilterSorter.ParseSortingOption | src/stores/common/FilterSorterDecorator/FilterSorterDecorator.ts:189-190 | The enum lookup returns an option exactly when the query is that option's name. It returns nothing exactly when the query names no option. |
| FilterSorter.SortedItemsPermutation | src/stores/common/FilterSorterDecorator/FilterSorterDecorator.ts:152-185 | The pipeline's result is a permutation of the items. |
| FilterSorter.SortedItemsLayout | src/stores/common/FilterSorterDecorator/FilterSorterDecorator.ts:152-185 | The pipeline's result is the user's pending items followed by the other items. Each group is in the order the option's sort gives: sorted by its key and stable. With no option, or "None", each group keeps the input order. |
| FilterSorter.SortedItemsWithoutUser | src/stores/common/FilterSorterDecorator/FilterSorterDecorator.ts:182-184 | With no active user the pipeline's result is just the option's sort, and with no option it is the items unchanged. |
| FilterSorter.SortWithoutOption | src/stores/common/FilterSorterDecorator/FilterSorterDecorator.ts:188-194 | `sort` with an unknown name, or with "None", returns the items in their stored order. |
| FilterSorter.FilterSorterDecorator.constructor | src/stores/common/FilterSorterDecorator/FilterSorterDecorator.ts:54-56 | A new instance keeps the caller's array itself and starts with the option "None". |
| FilterSorter.FilterSorterDecorator.SortByProperty | src/stores/common/FilterSorterDecorator/FilterSorterDecorator.ts:77-93 | The array becomes the stable descending sort of its old contents by the property's key. |
| FilterSorter.FilterSorterDecorator.SortByLatestModified | src/stores/common/FilterSorterDecorator/FilterSorterDecorator.ts:95-97 | The array becomes the stable descending sort by `_contentModifiedTimestamp`. |
| FilterSorter.FilterSorterDecorator.SortByLatestCreated | src/stores/common/FilterSorterDecorator/FilterSorterDecorator.ts:99-101 | The array becomes the stable descending sort by `_created`. |
| FilterSorter.FilterSorterDecorator.SortByMostUseful | src/stores/common/FilterSorterDecorator/FilterSorterDecorator.ts:103-105 | The array becomes the stable descending sort by the length of `votedUsefulBy`, where a missing list counts 0. |
| FilterSorter.FilterSorterDecorator.SortByUpdates | src/stores/common/FilterSorterDecorator/FilterSorterDecorator.ts:107-109 | The array becomes the stable descending sort by the number of updates, where missing updates count 0. |
| FilterSorter.FilterSorterDecorator.SortByComments | src/stores/common/FilterSorterDecorator/FilterSorterDecorator.ts:111-124 | The array becomes the stable descending sort by total comment count. |
| FilterSorter.FilterSorterDecorator.SortByModerationStatus | src/stores/common/FilterSorterDecorator/FilterSorterDecorator.ts:126-149 | The array becomes the stable sort that puts the user's pending items first. By `ModerationPartition` that is those items, then the others, each group in its old order. |
| FilterSorter.FilterSorterDecorator.GetSortedItems | src/stores/common/FilterSorterDecorator/FilterSorterDecorator.ts:151-185 | The method works on a fresh copy and leaves `allItems` as it was. It returns the stored items sorted by the active option and then by the moderation pass, for the given user. |
| FilterSorter.FilterSorterDecorator.Sort | src/stores/common/FilterSorterDecorator/FilterSorterDecorator.ts:187-194 | The method sets the active option to the one the query names, or to none. It leaves `allItems` unchanged and returns what `getSortedItems` gives with no user. |

## Left out

- The MobX `@observable` and `@action` decorators are reactivity plumbing. The two fields are plain mutable fields here.
- `SEARCH_WEIGHTS` and the Fuse.js fuzzy search (lines 57-63 and 199-204) are a third-party library with floating-point scoring. `Search` takes the matcher as a parameter.
- FilterSorter.Search: the contract states only the empty-query branch. The non-empty branch is whatever the fuzzy matcher returns.
- Items.CalculateTotalComments: returns the natural number 0 where the code returns the string '0' (line 48). JavaScript's `===` and `<` treat that string as the number 0 against the other totals, so sorting gives the same order.
- The `listItems || this.allItems` fallback (lines 78, 112, 127) is not modelled. `getSortedItems`, the only caller, always passes an array. The `listItems = []` default of `filterByCategory` is not modelled either: the list is always given.
- The `sortBy*` methods return the array they sorted; the model's methods sort the array and return nothing.
- FilterSorter.ParseSortingOption: properties that every JavaScript object has, such as "toString", make the lookup return a function, not `undefined`. The model returns no option for every name that is not an option's. The outcome is the same: no case of the `switch` matches, so nothing is reordered.
- Keys.TextLess: compares strings by character, where JavaScript compares UTF-16 code units. The two agree on characters of the Basic Multilingual Plane.
- A missing numeric property compared against a string key is not modelled. The string properties `_contentModifiedTimestamp` and `_created` are required fields of the item, so `?? 0` applies only to the array-valued ones (`PropertyKeysOfOneKind`).
- `title`, `_modified` and the comment fields other than their number are carried in the record but play no part in the modelled logic.
- The browser end-to-end tests and the statistics component in the repository have no logic of this class and are not part of this model.
