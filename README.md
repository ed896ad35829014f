# Product collection store, modelled in Dafny

The repository's core is a client-side store of product records. It holds the record list, four
query parameters (search text, category filter, sort field, sort direction) and two status cells
(`loading`, `error`). It derives two views on demand: the searched, filtered and sorted list
(`filteredProducts`) and the distinct categories (`categories`). Its actions fetch, add, update
and delete records through a remote service and reconcile the local list with what the service
answered. The store exists twice: as one older file (`src/stores/products.ts`) and as a split
version (`src/stores/products/index.ts`, `getters.ts`, `actions.ts`). Both are modelled.

Layout, one module per component:

- `types.dfy`, module `ProductTypes`: the `Product` record (`src/types/products.ts`), the sort
  direction, the shape of the seven state cells with their initial values, the `Reply` of a
  remote call (`Ok(payload)` or `Failed`), and the fixed error messages.
- `text.dfy`, module `Text`: lower-casing, `includes`, the `<` order on strings and the decimal
  rendering of numbers, with the order's laws (irreflexive, asymmetric, transitive, total).
- `lists.dfy`, module `Lists`: `filter` and the iteration order of `new Set(...)`.
- `getters.dfy`, module `ProductGetters`: both getters as pure functions, with the properties
  of the search, the category filter and the sort proved as lemmas.
- `edits.dfy`, module `ProductEdits`: `findIndex` by `Id`, replacing the first match, and
  removing every match.
- `store.dfy`, module `ProductsStore`: the split store's state cells as a class, its constructor
  with the initial values, and the getters read from the same cells the actions write.
- `actions.dfy`, module `ProductActions`: the split store's actions, as methods on that class.
- `legacy.dfy`, module `LegacyProductsStore`: the older single-file store as one class.

How the model reads the source:

- A remote call becomes an input of the action: the `Reply` it settled to. Each action's
  postcondition states the whole new state (`Snapshot()`) in terms of the old one and that
  reply. `StartLoading` states the in-flight state: `loading` true, `error` cleared, nothing
  else touched.
- The getters are functions with `reads this`. They are recomputed on every read, so they
  always see the cells as the last action left them; they cannot write state.
- The sort is specified as a permutation of its input whose keys are non-decreasing (`Asc`) or
  non-increasing (`Desc`). The source's comparator never answers 0, and it answers -1 even for
  a key compared with itself. So it is not a consistent comparator in the sense of section
  23.1.3.30 of ECMA-262 (`Array.prototype.sort`), and the standard leaves the whole resulting
  order implementation-defined. The model assumes instead what engines' comparison sorts deliver
  for this comparator: a permutation with ordered keys, with the order of equal keys left open.
  `SortByKey` is an insertion sort driven by the source's own comparator; it is one such
  engine. `SortedPermutationUnique` shows that once keys are pairwise distinct every admissible
  result is the same list.
- `ProductActions.SharedCellsScenario` is a client of the split store: it builds a store, runs
  actions on it and reads the views, which see what the actions wrote.
- Behaviour the code has that a reader might not expect, and which the model keeps:
  - the comparator never answers 0, so records with equal keys have no fixed relative order;
  - `categories` lists each category once, in order of first occurrence in the list;
  - `addProduct` posts the object it is given as it is: TypeScript types are erased at run time,
    so the `Omit<...>` in its parameter type removes nothing, and the older store pushes a copy
    of that whole object;
  - the split version's delete guard `!id` rejects an undefined id and also id 0; the older
    store has no guard and sends every id.

## Model

| member | source | states |
|---|---|---|
| ProductTypes.Toggle | src/stores/products/actions.ts:110-112 | the new direction is always the other one of asc and desc |
| ProductTypes.ToggleInvolution | src/stores/products.ts:154-156 | toggling twice gives back the original direction |
| Text.IncludesIff | src/stores/products/getters.ts:21 | `includes` holds exactly when the needle occurs at some position of the haystack |
| Text.LtTransitive | src/stores/products/getters.ts:35-39 | the string `<` used by the comparator is transitive |
| Text.LtTotal | src/stores/products/getters.ts:35-39 | any two different strings are ordered one way or the other |
| Text.LeAntisymmetric | src/stores/products/getters.ts:35-39 | two keys that are each not greater than the other are equal |
| Text.LeTransitive | src/stores/products/getters.ts:35-39 | "not greater than" between keys is transitive |
| Text.Lower | src/stores/products/getters.ts:21 | lower-casing keeps the length and leaves no capital letter A-Z in the result |
| Text.NatToString | src/stores/products/getters.ts:32-33 | a non-negative integer renders as decimal digits only, one digit exactly below 10, never with a leading zero |
| Text.NatToStringInjective | src/stores/products/getters.ts:32-33 | two non-negative integers with the same rendering are equal |
| Text.IntToString | src/stores/products/getters.ts:32-33 | `toString()` of an integer starts with a minus sign exactly when it is negative, and is decimal digits after that |
| Text.IntToStringInjective | src/stores/products/getters.ts:32-33 | two integers with the same rendering are equal, so sorting by `Id` or `Price` text never merges distinct numbers |
| Lists.Filter | src/stores/products/getters.ts:20-27 | `filter` keeps every element passing the test, with its multiplicity, drops every other, and keeps the original order |
| Lists.FirstIndexUnique | src/stores/products/getters.ts:45 | the first occurrence of a value is the only index holding it with no earlier copy |
| Lists.Distinct | src/stores/products/getters.ts:45 | `[...new Set(s)]` has no duplicates, holds exactly the values of `s`, and lists them in order of first occurrence |
| ProductGetters.SortKey | src/stores/products/getters.ts:32-33 | a field that is not a key of the record, or a null `Price`, gives the key ""; a `Title` key is the lower-cased title |
| ProductGetters.FieldText | src/stores/products/getters.ts:32 | `a[sortBy]?.toString()` is absent exactly when `sortBy` is not a field of the record or is `Price` with a null price |
| ProductGetters.Compare | src/stores/products/getters.ts:35-39 | the comparator answers only 1 or -1, and -1 for two equal keys |
| ProductGetters.CompareAgreesWithOrder | src/stores/products/getters.ts:35-39 | comparator -1 means the first key may stand before the second, 1 that the second may stand before the first, in the chosen direction |
| ProductGetters.InOrderTransitive | src/stores/products/getters.ts:35-39 | the order the comparator induces on keys is transitive in both directions |
| ProductGetters.Insert | src/stores/products/getters.ts:31-40 | inserting into a sorted list by the comparator gives a sorted list with exactly one more copy of the record |
| ProductGetters.SortByKey | src/stores/products/getters.ts:31-40 | sorting a copy gives a permutation of the input whose keys are in the chosen direction's order |
| ProductGetters.SortedPermutationUnique | src/stores/products/getters.ts:31-40 | two sorted permutations of one another with pairwise distinct keys are the same list |
| ProductGetters.Selected | src/stores/products/getters.ts:16-28 | search then category filter keep each record passing both tests with its multiplicity, and no other |
| ProductGetters.FilteredProducts | src/stores/products/getters.ts:15-43 | the view is a permutation of the records passing search and category filter, exactly those, sorted by the chosen key and direction |
| ProductGetters.SearchIsSound | src/stores/products/getters.ts:19-23 | with a non-empty query every listed record's lower-cased title contains the lower-cased query |
| ProductGetters.SearchIsComplete | src/stores/products/getters.ts:19-23 | with a non-empty query every record whose lower-cased title contains it and whose category passes is listed |
| ProductGetters.CategoryFilterIsExact | src/stores/products/getters.ts:26-28 | with a non-empty category every listed record's `Category` equals it exactly, case included |
| ProductGetters.NoFilterKeepsEverything | src/stores/products/getters.ts:16-31 | with empty query and category the view is a permutation of the whole list |
| ProductGetters.FilteredProductsUnique | src/stores/products/getters.ts:31-40 | with pairwise distinct keys any sorted list holding exactly the passing records is the view |
| ProductGetters.CategoryColumn | src/stores/products/getters.ts:45 | `map((p) => p.Category)` has one entry per record, and a value occurs in it exactly when some record has that category |
| ProductGetters.Categories | src/stores/products/getters.ts:45 | the categories have no duplicates, include every record's category and nothing else, in first-occurrence order |
| ProductGetters.EmptyListHasEmptyViews | src/stores/products/index.ts:9-24 | with no records both views are empty, whatever the query |
| ProductGetters.TitleSortExample | src/stores/products/getters.ts:31-40 | titles "Banana", "apple", "Cherry" sorted by `Title` ascending come out apple, Banana, Cherry |
| ProductGetters.CategoriesExample | src/stores/products/getters.ts:45 | categories "A", "B", "A" give the categories "A", "B" |
| ProductEdits.FindIndexById | src/stores/products/actions.ts:64 | `findIndex` returns the first index carrying the `Id`, or -1 exactly when no record carries it |
| ProductEdits.ReplaceFirstById | src/stores/products/actions.ts:64-67 | the length is kept, the first record with the `Id` becomes the update, every other index is unchanged; with no match the list is unchanged |
| ProductEdits.RemoveById | src/stores/products/actions.ts:89 | no record with the `Id` remains, every other record keeps its multiplicity, and the survivors keep their order |
| ProductEdits.RemoveAbsentIsIdentity | src/stores/products/actions.ts:89 | deleting an `Id` no record carries leaves the list as it was |
| ProductEdits.SubsequenceWithSameElements | src/stores/products/actions.ts:89 | an order-preserving selection with all the elements is the whole list |
| ProductsStore.Store.constructor | src/stores/products/index.ts:9-15 | the cells start as [], "", "", "Title", asc, false and null, and both views start empty |
| ProductsStore.Store.FilteredProducts | src/stores/products/index.ts:18-24 | the getter, reading the shared cells, lists exactly the passing records of the current list, sorted by the current key and direction |
| ProductsStore.Store.Categories | src/stores/products/index.ts:18-24 | the getter, reading the shared cells, lists the current list's categories once each, in first-occurrence order |
| ProductActions.StartLoading | src/stores/products/actions.ts:21-22 | while a call is in flight `loading` is true and `error` is null; nothing else changes |
| ProductActions.ListOrEmpty | src/stores/products/actions.ts:32 | `response?.data ?? []` is the payload when there is one, and is empty exactly when the payload is missing or empty |
| ProductActions.FetchProducts | src/stores/products/actions.ts:20-39 | success replaces the list by the payload or [], with `error` null; failure keeps the list and stores "Failed to fetch products"; `loading` ends false; the query cells are untouched |
| ProductActions.AddProduct | src/stores/products/actions.ts:41-55 | the list is never changed directly: a failed post keeps it and stores "Failed to add product"; a successful post hands list and error to the refetch's outcome; `loading` ends false |
| ProductActions.UpdateProduct | src/stores/products/actions.ts:57-74 | a successful put replaces the first record with the same `Id`, keeping length and every other index; a failed put keeps the list and stores "Failed to update product"; `loading` ends false |
| ProductActions.Falsy | src/stores/products/actions.ts:77 | `!id` is false exactly for a present, non-zero id |
| ProductActions.DeleteProduct | src/stores/products/actions.ts:76-96 | an undefined or zero `id` changes no cell at all; otherwise success drops every record with that `Id` in order, failure keeps the list and stores "Failed to delete product"; `loading` ends false |
| ProductActions.SetSearchQuery | src/stores/products/actions.ts:98-100 | only `searchQuery` changes, to the argument |
| ProductActions.SetFilterCategory | src/stores/products/actions.ts:102-104 | only `filterCategory` changes, to the argument |
| ProductActions.SetSortBy | src/stores/products/actions.ts:106-108 | only `sortBy` changes, to the argument |
| ProductActions.ToggleSortOrder | src/stores/products/actions.ts:110-112 | only `sortOrder` changes, to the other direction |
| ProductActions.SharedCellsScenario | src/stores/products/index.ts:18-36 | on a store wired like the source, after fetching one record of category "A" and setting the category filter to "A", the view lists exactly that record and the categories are ["A"]; deleting its non-zero `Id` leaves the list empty |
| LegacyProductsStore.LegacyStore.constructor | src/stores/products.ts:18-24 | the cells start as [], "", "", "Title", asc, false and null, and both views start empty |
| LegacyProductsStore.LegacyStore.FilteredProducts | src/stores/products.ts:27-56 | the same search, category and sort guarantees as the split getter, on this store's cells |
| LegacyProductsStore.LegacyStore.Categories | src/stores/products.ts:58 | the distinct categories of the current list in first-occurrence order |
| LegacyProductsStore.LegacyStore.StartLoading | src/stores/products.ts:62-63 | while a call is in flight `loading` is true and `error` is null; nothing else changes |
| LegacyProductsStore.LegacyStore.FetchProducts | src/stores/products.ts:61-84 | success replaces the list by `response.data` as it is; failure keeps it and stores "Failed to fetch products"; `loading` ends false |
| LegacyProductsStore.LegacyStore.AddProduct | src/stores/products.ts:86-104 | success appends the record, so the length grows by one and the last record is the new one; failure keeps the list and stores "Failed to add product"; `loading` ends false |
| LegacyProductsStore.LegacyStore.UpdateProduct | src/stores/products.ts:106-125 | success replaces only the first record with the same `Id`, keeping length; no match or failure keeps the list; failure stores "Failed to update product" |
| LegacyProductsStore.LegacyStore.DeleteProduct | src/stores/products.ts:127-140 | every `id`, zero included, is sent; success drops every record with that `Id` in order; failure keeps the list and stores "Failed to delete product" |
| LegacyProductsStore.LegacyStore.SetSearchQuery | src/stores/products.ts:142-144 | only `searchQuery` changes, to the argument |
| LegacyProductsStore.LegacyStore.SetFilterCategory | src/stores/products.ts:146-148 | only `filterCategory` changes, to the argument |
| LegacyProductsStore.LegacyStore.SetSortBy | src/stores/products.ts:150-152 | only `sortBy` changes, to the argument |
| LegacyProductsStore.LegacyStore.ToggleSortOrder | src/stores/products.ts:154-156 | only `sortOrder` changes, to the other direction |

## Left out

- The HTTP client: endpoint URLs, request parameters and response objects are not modelled; each call is the `Reply` it settled to.
- Logging with `console.log` and `console.error`: no effect on the state.
- Pinia's `defineStore`, Vue's `ref` and the memoisation of `computed`: the getters are recomputed on every read, which yields the same values.
- Concurrency: the split `addProduct` does not await its `fetchProducts`, and concurrent actions share `loading` and `error`. The model runs each action to completion, the refetch before the `finally`; after both have settled the cells are the same as in the source.
- Number formatting: `Id` and `Price` are integers; fractional prices are not modelled, and NaN, which `!id` also rejects, is not representable.
- Text.IntToString: renders every integer in full decimal. JavaScript's `toString()` gives the same text only below 2^53 in magnitude. From there to 1e21 it prints the shortest digits that round-trip to the same double, padded with zeros (`2 ** 64` prints `18446744073709552000`). From 1e21 on it uses exponent form (`1e+21`). So for such `Id` and `Price` values the model's sort keys are not the source's.
- ProductEdits.FindIndexById: ids are unbounded integers; JavaScript numbers are doubles, exact only below 2^53 in magnitude, so above that `p.Id === id` (`src/stores/products/actions.ts:64`, `:89`; `src/stores/products.ts:115`, `:133`) can equate ids that the model keeps apart. The same holds for ProductEdits.RemoveById.
- ProductActions.UpdateProduct: the list and the records are values. The source writes `products.value[index] = updatedProduct` into the array in place and stores the caller's own object, so anyone holding the old array or that object sees later changes; the model captures only the new contents of the list.
- LegacyProductsStore.LegacyStore.UpdateProduct: as for the split version, the in-place write of the caller's object into the shared array and the resulting aliasing are not modelled, only the new contents.
- LegacyProductsStore.LegacyStore.AddProduct: `push({ ...product })` adds a shallow copy into the existing array in place; the model appends a value, so the difference between copy and shared reference, and aliasing of the old array, are not captured.
- Unicode case mapping: lower-casing maps only ASCII letters; string comparison orders Dafny characters, which differs from UTF-16 code-unit order only for characters outside the Basic Multilingual Plane.
- Inherited properties: a `sortBy` naming a property every object inherits (such as `constructor`) gives all records one common non-empty key; the model gives them the common key "", which admits the same orders.
- The order of records with equal keys: it is implementation-defined and left open; `SortByKey` fixes one admissible order.
- ProductGetters.SortByKey: its ordered keys, and with them the key order promised by ProductGetters.FilteredProducts, ProductGetters.FilteredProductsUnique and ProductGetters.TitleSortExample, are an assumption about engines' comparison sorts. ECMA-262 promises no order at all for an inconsistent comparator such as this one, only that the result is a permutation.
- LegacyProductsStore.LegacyStore.FetchProducts: its payload is always a list; a missing `response.data`, which the older store would assign as it is and so leave `products` undefined, cannot be represented because the cell holds a list.
- `src/types/products.ts` has no behaviour; it is carried only as the `Product` datatype.
