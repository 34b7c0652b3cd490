/** The logic of the product-list view (`src/pages/productList.js`): the filter-and-sort pipeline
    run on every interaction, the category toggle, the merge of an edited product and the list
    of categories offered in the filter menu. React state is replaced by explicit inputs. */
module ProductList {
  import opened Catalog
  import opened Seqs
  import opened PriceSort

  /** The min/max price inputs after `parseInt`; `None` stands for an empty input box. */
  datatype PriceRange = PriceRange(min: Option<int>, max: Option<int>)

  /** The view's filter and sort state. */
  datatype Criteria = Criteria(
    selectedCategories: seq<string>,
    searchTerm: string,
    priceRange: PriceRange,
    sortOrder: SortOrder)

  /** An empty min box means 0, so an unset minimum still rules out negative prices. */
  function MinPrice(range: PriceRange): (r: int) {
    if range.min.Some? then range.min.value else 0
  }

  /** `itemPrice >= minPrice && itemPrice <= maxPrice`, an empty max box meaning no upper bound. */
  predicate WithinRange(range: PriceRange, price: int) {
    MinPrice(range) <= price && (range.max.None? || price <= range.max.value)
  }

  /** What each filter stage demands of a product it keeps. */
  ghost predicate CategoryOk(c: Criteria, p: Product) {
    |c.selectedCategories| == 0 || p.category in c.selectedCategories
  }

  ghost predicate NameOk(c: Criteria, p: Product) {
    c.searchTerm == [] || Contains(Lower(p.name), Lower(c.searchTerm))
  }

  ghost predicate PriceOk(c: Criteria, p: Product) {
    WithinRange(c.priceRange, Key(p))
  }

  /** A product the pipeline shows: it passes all three filters. */
  ghost predicate Matches(c: Criteria, p: Product) {
    CategoryOk(c, p) && NameOk(c, p) && PriceOk(c, p)
  }

  /** Stage 1: only when some category is selected, keep the products in a selected category. */
  function CategoryStage(s: seq<Product>, selected: seq<string>): (r: seq<Product>) {
    if |selected| > 0 then Filter(s, (p: Product) => p.category in selected) else s
  }

  /** Stage 2: only when the search box is non-empty, keep the products whose lower-cased name
      contains the lower-cased search term. */
  function SearchStage(s: seq<Product>, term: string): (r: seq<Product>) {
    if term != [] then Filter(s, (p: Product) => Contains(Lower(p.name), Lower(term))) else s
  }

  /** Stage 3, always applied: keep the products whose normalised price lies in the range. */
  function PriceStage(s: seq<Product>, range: PriceRange): (r: seq<Product>) {
    Filter(s, (p: Product) => WithinRange(range, Key(p)))
  }

  /** The products that survive the three stages, still in input order. */
  ghost function Kept(products: seq<Product>, c: Criteria): (r: seq<Product>) {
    PriceStage(SearchStage(CategoryStage(products, c.selectedCategories), c.searchTerm), c.priceRange)
  }

  /** The list `applyFiltersAndSorting` hands to `setFilteredProductList`. */
  ghost function Compute(products: seq<Product>, c: Criteria): (r: seq<Product>) {
    StableSort(Kept(products, c), c.sortOrder)
  }

  ghost function MatchesFilter(c: Criteria): Product -> bool {
    p => Matches(c, p)
  }

  /** The products with normalised price `v` that the pipeline shows. */
  ghost function MatchesAtPrice(c: Criteria, v: int): Product -> bool {
    p => Matches(c, p) && Key(p) == v
  }

  /** Running the stages one after the other is one filter by `Matches`. */
  lemma KeptIsFilter(products: seq<Product>, c: Criteria)
    ensures Kept(products, c) == Filter(products, MatchesFilter(c))
  {
    var byCategory := (p: Product) => CategoryOk(c, p);
    var byName := (p: Product) => NameOk(c, p);
    var byPrice := (p: Product) => WithinRange(c.priceRange, Key(p));
    var byBoth := (p: Product) => CategoryOk(c, p) && NameOk(c, p);
    var s1 := CategoryStage(products, c.selectedCategories);
    if |c.selectedCategories| > 0 {
      FilterExt(products, (p: Product) => p.category in c.selectedCategories, byCategory);
    } else {
      FilterAll(products, byCategory);
    }
    assert s1 == Filter(products, byCategory);
    var s2 := SearchStage(s1, c.searchTerm);
    if c.searchTerm != [] {
      FilterExt(s1, (p: Product) => Contains(Lower(p.name), Lower(c.searchTerm)), byName);
    } else {
      FilterAll(s1, byName);
    }
    assert s2 == Filter(s1, byName);
    FilterFilter(products, byCategory, byName, byBoth);
    FilterExt(s2, (p: Product) => WithinRange(c.priceRange, Key(p)), byPrice);
    FilterFilter(products, byBoth, byPrice, MatchesFilter(c));
  }

  /** Soundness: every product shown passes the category, name and price filters. */
  lemma ComputeSound(products: seq<Product>, c: Criteria)
    ensures forall p :: p in Compute(products, c) ==> Matches(c, p)
  {
    var kept, shown := Kept(products, c), Compute(products, c);
    KeptIsFilter(products, c);
    StableSortMultiset(kept, c.sortOrder);
    forall p | p in shown ensures Matches(c, p) {
      assert p in multiset(shown);
      assert p in kept;
      assert MatchesFilter(c)(p);
    }
  }

  /** Completeness and no duplication: the result is a permutation of exactly the matching products,
      each as often as it occurs in the input. */
  lemma ComputeCount(products: seq<Product>, c: Criteria)
    ensures forall p :: multiset(Compute(products, c))[p] == if Matches(c, p) then multiset(products)[p] else 0
  {
    KeptIsFilter(products, c);
    StableSortMultiset(Kept(products, c), c.sortOrder);
    FilterCount(products, MatchesFilter(c));
  }

  /** Completeness: every product that passes the three filters is shown. */
  lemma ComputeComplete(products: seq<Product>, c: Criteria, p: Product)
    requires p in products && Matches(c, p)
    ensures p in Compute(products, c)
  {
    ComputeCount(products, c);
    assert multiset(products)[p] > 0;
  }

  lemma ComputeSorted(products: seq<Product>, c: Criteria)
    ensures c.sortOrder == Ascending ==>
      forall i, j :: 0 <= i < j < |Compute(products, c)| ==> Key(Compute(products, c)[i]) <= Key(Compute(products, c)[j])
    ensures c.sortOrder == Descending ==>
      forall i, j :: 0 <= i < j < |Compute(products, c)| ==> Key(Compute(products, c)[i]) >= Key(Compute(products, c)[j])
  {
    StableSortSorted(Kept(products, c), c.sortOrder);
  }

  /** Sorting the shown list again by the same order gives it back unchanged. */
  lemma ComputeResortUnchanged(products: seq<Product>, c: Criteria)
    ensures StableSort(Compute(products, c), c.sortOrder) == Compute(products, c)
  {
    StableSortSorted(Kept(products, c), c.sortOrder);
    StableSortOfSorted(Compute(products, c), c.sortOrder);
  }

  /** Stability: the shown products of any one price appear in their order in `products`. */
  lemma ComputeStable(products: seq<Product>, c: Criteria, v: int)
    ensures PricedAt(Compute(products, c), v) == Filter(products, MatchesAtPrice(c, v))
  {
    KeptIsFilter(products, c);
    StableSortPricedAt(Kept(products, c), c.sortOrder, v);
    FilterFilter(products, MatchesFilter(c), PriceIs(v), MatchesAtPrice(c, v));
  }

  /** `applyFiltersAndSorting`: filters a copy of `products` stage by stage, then sorts the
      survivors in place by normalised price. `products` itself is left as it was. */
  method ApplyFiltersAndSorting(products: array<Product>, criteria: Criteria) returns (shown: seq<Product>)
    ensures shown == Compute(products[..], criteria)
    ensures forall p :: p in shown ==> Matches(criteria, p)
    ensures forall p :: multiset(shown)[p] == if Matches(criteria, p) then multiset(products[..])[p] else 0
    ensures criteria.sortOrder == Ascending ==>
      forall i, j :: 0 <= i < j < |shown| ==> Key(shown[i]) <= Key(shown[j])
    ensures criteria.sortOrder == Descending ==>
      forall i, j :: 0 <= i < j < |shown| ==> Key(shown[i]) >= Key(shown[j])
    ensures forall v :: PricedAt(shown, v) == Filter(products[..], MatchesAtPrice(criteria, v))
  {
    ghost var input := products[..];
    var filtered := products[..];
    filtered := CategoryStage(filtered, criteria.selectedCategories);
    filtered := SearchStage(filtered, criteria.searchTerm);
    filtered := PriceStage(filtered, criteria.priceRange);
    assert filtered == Kept(input, criteria);
    // `filter` returns a fresh array, which `sort` then reorders in place
    var survivors := new Product[|filtered|](k requires 0 <= k < |filtered| => filtered[k]);
    assert survivors[..] == filtered;
    SortByPrice(survivors, criteria.sortOrder);
    shown := survivors[..];
    assert shown == Compute(input, criteria);
    ComputeSound(input, criteria);
    ComputeCount(input, criteria);
    ComputeSorted(input, criteria);
    forall v ensures PricedAt(shown, v) == Filter(input, MatchesAtPrice(criteria, v)) {
      ComputeStable(input, criteria, v);
    }
  }

  /** `resetFilters`: clears the category, search and price inputs; the sort order stays. */
  function ResetFilters(c: Criteria): (r: Criteria)
    ensures r.sortOrder == c.sortOrder
    ensures forall p :: CategoryOk(r, p) && NameOk(r, p)
    ensures forall p :: Matches(r, p) <==> Key(p) >= 0
  {
    Criteria([], "", PriceRange(None, None), c.sortOrder)
  }

  ghost function NonNegative(): Product -> bool {
    p => Key(p) >= 0
  }

  /** The pipeline run on cleared criteria keeps every product with a non-negative price, sorted;
      so, when no price is negative, a permutation of the whole collection. */
  lemma ResetFiltersShowsAll(products: seq<Product>, c: Criteria)
    ensures Compute(products, ResetFilters(c)) == StableSort(Filter(products, NonNegative()), c.sortOrder)
    ensures (forall i :: 0 <= i < |products| ==> Key(products[i]) >= 0) ==>
      Compute(products, ResetFilters(c)) == StableSort(products, c.sortOrder) &&
      multiset(Compute(products, ResetFilters(c))) == multiset(products)
  {
    var r := ResetFilters(c);
    KeptIsFilter(products, r);
    FilterExt(products, MatchesFilter(r), NonNegative());
    if forall i :: 0 <= i < |products| ==> Key(products[i]) >= 0 {
      FilterAll(products, NonNegative());
      StableSortMultiset(products, c.sortOrder);
    }
  }

  /** An unset minimum is 0, so a product with a negative price is never shown then. */
  lemma UnsetMinExcludesNegative(products: seq<Product>, c: Criteria, p: Product)
    requires c.priceRange.min.None? && Key(p) < 0
    ensures p !in Compute(products, c)
  {
    ComputeSound(products, c);
  }

  /** With equal bounds the view shows exactly the matching products at that one price. */
  lemma SinglePriceRange(products: seq<Product>, c: Criteria, v: int)
    requires c.priceRange == PriceRange(Some(v), Some(v))
    ensures forall p :: p in Compute(products, c) ==> Key(p) == v
    ensures forall p :: p in products && CategoryOk(c, p) && NameOk(c, p) && Key(p) == v ==> p in Compute(products, c)
  {
    ComputeSound(products, c);
    forall p | p in products && CategoryOk(c, p) && NameOk(c, p) && Key(p) == v
      ensures p in Compute(products, c)
    {
      ComputeComplete(products, c, p);
    }
  }

  /** The search is case-insensitive: any term with the same lower-case form gives the same list. */
  lemma SearchIgnoresCase(products: seq<Product>, c: Criteria, term: string)
    requires Lower(term) == Lower(c.searchTerm)
    ensures Compute(products, c.(searchTerm := term)) == Compute(products, c)
  {
    var c' := c.(searchTerm := term);
    assert |term| == |Lower(term)| == |c.searchTerm|;
    KeptIsFilter(products, c);
    KeptIsFilter(products, c');
    FilterExt(products, MatchesFilter(c'), MatchesFilter(c));
  }

  lemma {:induction false} FilterCanonicals(s: seq<Product>, keep: Product -> bool)
    requires forall p :: keep(Canonical(p)) == keep(p)
    ensures Filter(Canonicals(s), keep) == Canonicals(Filter(s, keep))
  {
    if s != [] {
      var t := Canonicals(s);
      var head := if keep(s[0]) then [s[0]] else [];
      assert Filter(t, keep) == Canonicals(head) + Filter(Canonicals(s[1..]), keep) by {
        assert t[0] == Canonical(s[0]) && keep(t[0]) == keep(s[0]);
        assert t[1..] == Canonicals(s[1..]);
      }
      FilterCanonicals(s[1..], keep);
      CanonicalsAppend(head, Filter(s[1..], keep));
    }
  }

  /** Filtering and sorting look at a price only through `Normalize`: writing every price in
      plain form changes the shown list only by writing its prices in plain form. */
  lemma ComputeUsesNormalizedPrice(products: seq<Product>, c: Criteria)
    ensures Compute(Canonicals(products), c) == Canonicals(Compute(products, c))
  {
    KeptIsFilter(products, c);
    KeptIsFilter(Canonicals(products), c);
    FilterCanonicals(products, MatchesFilter(c));
    StableSortCanonicals(Kept(products, c), c.sortOrder);
  }

  /** The updater of `toggleCategory`: drops `category` when it is selected, appends it otherwise. */
  function ToggleCategory(selected: seq<string>, category: string): (r: seq<string>)
    ensures category in r <==> category !in selected
    ensures forall other :: other != category ==> (other in r <==> other in selected)
  {
    if category in selected then Filter(selected, Except(category)) else selected + [category]
  }

  function Except(category: string): string -> bool {
    other => other != category
  }

  /** The other selected categories keep their order. */
  lemma ToggleKeepsOthers(selected: seq<string>, category: string)
    ensures Filter(ToggleCategory(selected, category), Except(category)) == Filter(selected, Except(category))
  {
    if category in selected {
      FilterFilter(selected, Except(category), Except(category), Except(category));
    } else {
      FilterAppend(selected, [category], Except(category));
      assert Filter([category], Except(category)) == [];
    }
  }

  /** Toggling twice restores membership, and restores the list itself when `category` was not selected. */
  lemma ToggleTwice(selected: seq<string>, category: string)
    ensures forall c :: c in ToggleCategory(ToggleCategory(selected, category), category) <==> c in selected
    ensures category !in selected ==> ToggleCategory(ToggleCategory(selected, category), category) == selected
  {
    if category !in selected {
      FilterAppend(selected, [category], Except(category));
      assert Filter([category], Except(category)) == [];
      FilterAll(selected, Except(category));
    }
  }

  lemma ToggleKeepsNoDuplicates(selected: seq<string>, category: string)
    requires NoDuplicates(selected)
    ensures NoDuplicates(ToggleCategory(selected, category))
  {
    if category in selected {
      FilterNoDuplicates(selected, Except(category));
    }
  }

  /** The updater of `handleSaveEdit`: every product whose id is the saved record's is replaced
      by the saved record; the others stay as they were, in place. */
  function SaveEdit(products: seq<Product>, updated: Product): (r: seq<Product>)
    ensures |r| == |products|
    ensures forall i :: 0 <= i < |r| ==> r[i].id == products[i].id
    ensures forall i :: 0 <= i < |r| && products[i].id != updated.id ==> r[i] == products[i]
    ensures forall i :: 0 <= i < |r| && products[i].id == updated.id ==> r[i] == updated
  {
    if products == [] then []
    else [if products[0].id == updated.id then updated else products[0]] + SaveEdit(products[1..], updated)
  }

  /** Saving the same record twice is saving it once; saving a record no product has changes nothing. */
  lemma SaveEditIdempotent(products: seq<Product>, updated: Product)
    ensures SaveEdit(SaveEdit(products, updated), updated) == SaveEdit(products, updated)
    ensures (forall i :: 0 <= i < |products| ==> products[i].id != updated.id) ==> SaveEdit(products, updated) == products
  {
  }

  /** `data.map((item) => item.category)`. */
  function CategoriesOf(data: seq<Product>): (r: seq<string>)
    ensures |r| == |data|
    ensures forall i :: 0 <= i < |data| ==> r[i] == data[i].category
  {
    seq(|data|, i requires 0 <= i < |data| => data[i].category)
  }

  /** `[...new Set(data.map((item) => item.category))]`: each category of `data` exactly once,
      in the order of first occurrence. */
  function UniqueCategories(data: seq<Product>): (r: seq<string>)
    ensures NoDuplicates(r)
    ensures forall c :: c in r <==> exists i :: 0 <= i < |data| && data[i].category == c
    ensures forall i, j :: 0 <= i < j < |r| ==>
      FirstIndex(CategoriesOf(data), r[i]) < FirstIndex(CategoriesOf(data), r[j])
  {
    DedupFirstOccurrence(CategoriesOf(data));
    Dedup(CategoriesOf(data))
  }
}
