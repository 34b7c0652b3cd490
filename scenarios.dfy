/** Worked examples of the filter-and-sort pipeline on a two-product catalog. */
module Scenarios {
  import opened Catalog
  import opened Seqs
  import opened PriceSort
  import opened ProductList

  function RedShoe(): Product {
    Product("1", "Red Shoe", "Acme", "Shoes", "", Plain(50), "")
  }

  function BlueHat(): Product {
    Product("2", "Blue Hat", "Acme", "Hats", "", Decimal(20), "")
  }

  function Shop(): seq<Product> {
    [RedShoe(), BlueHat()]
  }

  function NoFilters(order: SortOrder): Criteria {
    Criteria([], "", PriceRange(None, None), order)
  }

  /** Selecting "Shoes" with prices 0 to 100 shows only the shoe. */
  lemma CategoryScenario()
    ensures Compute(Shop(), Criteria(["Shoes"], "", PriceRange(Some(0), Some(100)), Ascending)) == [RedShoe()]
  {
    var c := Criteria(["Shoes"], "", PriceRange(Some(0), Some(100)), Ascending);
    assert CategoryStage(Shop(), c.selectedCategories) == [RedShoe()];
  }

  lemma HatNotInRedShoe()
    ensures !Contains(Lower(RedShoe().name), Lower("hat"))
  {
    assert Lower("hat") == "hat";
    assert Lower("Red Shoe") == "red shoe";
    ContainsHasChars("red shoe", "hat");
    assert "hat"[1] !in "red shoe";
  }

  lemma HatInBlueHat()
    ensures Contains(Lower(BlueHat().name), Lower("hat"))
  {
    assert Lower("hat") == "hat";
    assert Lower("Blue Hat") == "blue hat";
    ContainsIff("blue hat", "hat");
    assert OccursAt("blue hat", "hat", 5);
  }

  /** A search that matches only the second of two products shows just that one. */
  lemma SearchPair(a: Product, b: Product, term: string)
    requires term != [] && Key(b) >= 0
    requires !Contains(Lower(a.name), Lower(term)) && Contains(Lower(b.name), Lower(term))
    ensures Compute([a, b], NoFilters(Ascending).(searchTerm := term)) == [b]
  {
    var c := NoFilters(Ascending).(searchTerm := term);
    assert Kept([a, b], c) == [b] by {
      KeptIsFilter([a, b], c);
      assert [a, b][1..] == [b] && [b][1..] == [];
    }
    assert StableSort([b], Ascending) == [b] by {
      assert [b][..0] == [];
    }
  }

  /** Searching "hat" finds "Blue Hat" and not "Red Shoe". */
  lemma SearchScenario()
    ensures Compute(Shop(), NoFilters(Ascending).(searchTerm := "hat")) == [BlueHat()]
  {
    HatNotInRedShoe();
    HatInBlueHat();
    SearchPair(RedShoe(), BlueHat(), "hat");
  }

  /** A minimum of 30 leaves out the hat at 20. */
  lemma PriceScenario()
    ensures Compute(Shop(), NoFilters(Ascending).(priceRange := PriceRange(Some(30), Some(100)))) == [RedShoe()]
  {
  }

  /** Without filters, descending order keeps two products already in descending order. */
  lemma DescendingPair(a: Product, b: Product)
    requires Key(a) >= Key(b) >= 0
    ensures Compute([a, b], NoFilters(Descending)) == [a, b]
  {
    var c := NoFilters(Descending);
    assert Kept([a, b], c) == [a, b] by {
      KeptIsFilter([a, b], c);
      FilterAll([a, b], MatchesFilter(c));
    }
    assert StableSort([a], Descending) == [a] by {
      assert [a][..0] == [];
    }
    assert StableSort([a, b], Descending) == Insert([a], b, Descending) by {
      assert [a, b][..1] == [a];
    }
    assert Insert([a], b, Descending) == [a, b] by {
      assert [a][1..] == [];
    }
  }

  /** Without filters, descending order puts the shoe at 50 before the hat at 20. */
  lemma DescendingScenario()
    ensures Compute(Shop(), NoFilters(Descending)) == [RedShoe(), BlueHat()]
  {
    DescendingPair(RedShoe(), BlueHat());
  }
}
