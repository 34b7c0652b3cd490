# Product list: filter-and-sort pipeline

A Dafny model of the logic in the product-list view of a product catalog front end
(`src/pages/productList.js`). The view holds a product collection fetched from the API. On every
interaction it recomputes the list it shows with `applyFiltersAndSorting`:

- it keeps the products in one of the selected categories (only when some are selected);
- it keeps the products whose lower-cased name contains the lower-cased search term (only when the
  term is non-empty);
- it keeps the products whose normalised price lies in the inclusive min/max range;
- it sorts the survivors in place by normalised price, ascending or descending.

Besides the pipeline, the model covers:

- the category toggle;
- the merge of an edited product into the collection;
- the list of distinct categories offered in the filter menu;
- the normalisation `price.$numberDecimal || price`, under which a decimal-wrapped price and a plain
  price stand for the same number.

Modules:

- `Seqs`: the JavaScript builtins used, `filter` (`Filter`) and `[...new Set(xs)]` (`Dedup`). It
  also holds `FirstIndex`, the position of the first occurrence of a value, or the length when it is
  absent. The view never computes it: it serves only to state the first-occurrence order of
  `[...new Set(xs)]`.
- `Catalog`: the `Product` record and its `Price`, which is decimal-wrapped or plain. It also holds
  `Normalize`, ASCII `toLowerCase` (`Lower`) and `includes` (`Contains`).
- `PriceSort`: the comparator of the sort. `StableSort` specifies `Array.prototype.sort`, which is
  stable, as an insertion sort on values. `SortByPrice` is the in-place array algorithm proved
  equal to it.
- `ProductList`:
  - the three filter stages;
  - `Compute`, the specification of the pipeline;
  - the method `ApplyFiltersAndSorting`, which reassigns a local `filtered` stage by stage and then
    sorts a fresh array in place;
  - `ToggleCategory`, `SaveEdit`, `UniqueCategories` and `ResetFilters`.
- `Scenarios`: the two-product catalog (a red shoe at 50, a blue hat at 20) worked through the
  category, search, price and descending-sort cases.

React state is replaced by explicit inputs. The product collection is an `array` that
`ApplyFiltersAndSorting` may not modify, so that the copy on line 46 leaves the original untouched.
The price bounds arrive already parsed: `None` stands for an empty input box.

An empty minimum box means 0 (line 61), not an unbounded minimum. So under an unset minimum no
product with a negative price is shown (`UnsetMinExcludesNegative`). Likewise the list computed from
the cleared criteria of a reset holds only the products with a non-negative price
(`ResetFiltersShowsAll`). That is the list `applyFiltersAndSorting` computes once the cleared
criteria are in place. It is not what the view shows right after the click: line 86 runs the
pipeline on the state from before the reset.

## Model

| member | source | states |
|---|---|---|
| Seqs.Filter | src/pages/productList.js:49-51 | `filter` keeps exactly the elements the predicate accepts and never lengthens the list |
| Seqs.FilterCount | src/pages/productList.js:49-51 | `filter` keeps each accepted element as many times as it occurs and drops every other element |
| Seqs.FilterAppend | src/pages/productList.js:76 | filtering a concatenation is concatenating the filtered parts, so order is preserved |
| Seqs.FilterFilter | src/pages/productList.js:48-65 | two filters in a row equal one filter by the conjunction of their predicates |
| Seqs.FilterNoDuplicates | src/pages/productList.js:76 | filtering a list without duplicates leaves one without duplicates |
| Seqs.FirstIndex | src/pages/productList.js:30 | the position of the first occurrence of a value, or the length when it is absent |
| Seqs.Dedup | src/pages/productList.js:30 | `[...new Set(xs)]` has no duplicates and holds exactly the values of `xs` |
| Seqs.DedupFirstOccurrence | src/pages/productList.js:30 | `[...new Set(xs)]` lists values in the order of their first occurrence in `xs` |
| Catalog.ContainsHasChars | src/pages/productList.js:55 | every character of a contained search term occurs in the name |
| Catalog.ContainsIff | src/pages/productList.js:55 | `includes` holds exactly when the term occurs as a contiguous run at some position |
| PriceSort.StableSortMultiset | src/pages/productList.js:67-69 | the sort is a permutation: it neither invents nor drops a product |
| PriceSort.InsertSorted | src/pages/productList.js:67-69 | inserting into a sorted list keeps it sorted by the comparator |
| PriceSort.StableSortSorted | src/pages/productList.js:67-69 | the sorted list is ordered by the comparator on normalised prices |
| PriceSort.InsertPricedAt | src/pages/productList.js:67-69 | inserting into a list sorted by the comparator places the new product after every product of the same price |
| PriceSort.StableSortPricedAt | src/pages/productList.js:67-69 | stability: for each price, the products with that price keep their input order |
| PriceSort.StableSortOfSorted | src/pages/productList.js:67-69 | sorting a list already in order leaves it unchanged |
| PriceSort.StableSortUnique | src/pages/productList.js:67-69 | any list ordered by the comparator that keeps, for every price, the input's products at that price in their input order is `StableSort` of the input |
| PriceSort.SortedPricedAtUnique | src/pages/productList.js:67-69 | two lists ordered by the comparator that agree price by price are equal |
| PriceSort.InsertAt | src/pages/productList.js:67-69 | an element placed after all it does not precede and before all it precedes is the insertion |
| PriceSort.StableSortCanonicals | src/pages/productList.js:68 | the sort reads prices only through `Normalize`: it commutes with writing prices in plain form |
| PriceSort.InsertIntoPrefix | src/pages/productList.js:67-69 | one insertion pass shifts `a[i]` left past the preceding products it belongs before, and touches nothing beyond `i` |
| PriceSort.SortByPrice | src/pages/productList.js:67-69 | `filtered.sort(cmp)` in place: the new array contents are `StableSort` of the old ones |
| ProductList.KeptIsFilter | src/pages/productList.js:48-65 | the three stages in sequence are one filter by category, name and price together |
| ProductList.ComputeSound | src/pages/productList.js:48-65 | every shown product passes the category, search and price filters, with an unset minimum as 0 and an unset maximum unbounded |
| ProductList.ComputeCount | src/pages/productList.js:46-69 | the shown list is a permutation of the matching products: each appears exactly as often as in the input, the rest never |
| ProductList.ComputeComplete | src/pages/productList.js:48-65 | every product of the collection that passes all three filters is shown |
| ProductList.ComputeSorted | src/pages/productList.js:67-69 | ascending order gives non-decreasing normalised prices, descending order non-increasing |
| ProductList.ComputeResortUnchanged | src/pages/productList.js:67-69 | sorting the shown list again gives it back unchanged |
| ProductList.ComputeStable | src/pages/productList.js:67-69 | the shown products of any one price appear in their order in the collection |
| ProductList.ApplyFiltersAndSorting | src/pages/productList.js:45-72 | the result is the pipeline's list; it is sound, a permutation of the matching products, ordered by price and stable; the collection is not modified |
| ProductList.ResetFilters | src/pages/productList.js:82-87 | after a reset the category and search filters accept every product and the price filter exactly the non-negative prices; the sort order is kept |
| ProductList.ResetFiltersShowsAll | src/pages/productList.js:82-87 | the list computed from the cleared criteria is every product with a non-negative price, stably sorted; when no price is negative, it is a permutation of the whole collection |
| ProductList.UnsetMinExcludesNegative | src/pages/productList.js:61 | with an empty minimum box, a product with a negative price is never shown |
| ProductList.SinglePriceRange | src/pages/productList.js:59-65 | with equal bounds, exactly the matching products at that one price are shown |
| ProductList.SearchIgnoresCase | src/pages/productList.js:53-57 | two search terms with the same lower-case form give the same list |
| ProductList.FilterCanonicals | src/pages/productList.js:60 | a filter that reads prices only through `Normalize` commutes with writing prices in plain form |
| ProductList.ComputeUsesNormalizedPrice | src/pages/productList.js:59-69 | filtering and sorting see a price only through `Normalize`: writing every price in plain form changes the shown list only by writing its prices in plain form |
| ProductList.ToggleCategory | src/pages/productList.js:74-80 | the toggled category is selected afterwards exactly when it was not before; every other category keeps its membership |
| ProductList.ToggleKeepsOthers | src/pages/productList.js:74-80 | the other selected categories keep their order |
| ProductList.ToggleTwice | src/pages/productList.js:74-80 | toggling twice restores membership, and restores the list itself when the category was not selected |
| ProductList.ToggleKeepsNoDuplicates | src/pages/productList.js:74-80 | a selection without duplicates stays without duplicates |
| ProductList.SaveEdit | src/pages/productList.js:94-99 | the update keeps the length and every id; products with the saved id become the saved record, and the others are unchanged |
| ProductList.SaveEditIdempotent | src/pages/productList.js:94-99 | saving the same record twice equals saving it once; saving a record whose id no product has changes nothing |
| ProductList.UniqueCategories | src/pages/productList.js:30 | the category menu has no duplicates, holds exactly the categories of `data`, and follows the order of first occurrence |
| Scenarios.CategoryScenario | src/pages/productList.js:48-65 | selecting "Shoes" with prices 0 to 100 shows only the red shoe |
| Scenarios.SearchPair | src/pages/productList.js:53-65 | a non-empty search matching only the second of two products, that one priced at 0 or more, shows just that product |
| Scenarios.SearchScenario | src/pages/productList.js:53-57 | searching "hat" shows the blue hat and not the red shoe |
| Scenarios.PriceScenario | src/pages/productList.js:59-65 | a minimum of 30 leaves out the hat at 20 |
| Scenarios.DescendingPair | src/pages/productList.js:59-69 | with cleared criteria, descending order keeps two products that are both priced at 0 or more and already in descending price order |
| Scenarios.DescendingScenario | src/pages/productList.js:67-69 | without filters, descending order shows the shoe at 50 before the hat at 20 |

## Left out

- Rendering, JSX, hooks, modal visibility and the loading flag (`productList.js`, lines 103-244): these are user interface, not logic.
- React state and its timing. `applyFiltersAndSorting` runs right after the state setters, so in practice it reads the previous state. The model takes the collection and the criteria as explicit inputs.
- The initial fetch and its error handling (`productList.js`, lines 24-43): this is network I/O. `src/productService.js` is not part of this model.
- `src/components/EditForm.js` is not part of this model. This covers its PUT request, its form fields and their setters. It also covers its use of `_id`, whereas `handleSaveEdit` matches on `id`: the model has a single id field.
- `parseInt` on the text of the price boxes: bounds are already-parsed integers, and `NaN` bounds are not modelled.
- `Infinity` as the unset maximum: it is modelled as `None`, meaning no upper bound.
- Prices are whole numbers. Floating-point prices are not modelled. Neither is decimal strings compared by JavaScript coercion, nor the fallback to the price object when `$numberDecimal` is falsy (the empty string).
- `Lower`: does not model Unicode case mapping; only ASCII `A`-`Z` are lower-cased, as the source's `toLowerCase` would for ASCII names.
- `Array.prototype.sort`'s own algorithm is not modelled. The model uses an insertion sort. By `StableSortUnique`, any stable sort by this comparator returns the same list.
