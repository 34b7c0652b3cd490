/** The sort at the end of `applyFiltersAndSorting`: `filtered.sort(cmp)` with the comparator on
    normalised prices. `Array.prototype.sort` is stable, so the model is a stable insertion sort:
    `StableSort` is its specification on values and `SortByPrice` the in-place algorithm. */
module PriceSort {
  import opened Catalog
  import opened Seqs

  datatype SortOrder = Ascending | Descending

  /** The comparator passed to `filtered.sort`: negative when `a` belongs before `b`,
      zero when the two have the same normalised price. */
  function Compare(order: SortOrder, a: Product, b: Product): (r: int) {
    if order == Ascending then Key(a) - Key(b) else Key(b) - Key(a)
  }

  /** No element belongs strictly before one that precedes it. */
  ghost predicate Sorted(s: seq<Product>, order: SortOrder) {
    forall i, j :: 0 <= i < j < |s| ==> Compare(order, s[i], s[j]) <= 0
  }

  /** The products of `s` whose normalised price is `v`, in their order in `s`. */
  ghost function PricedAt(s: seq<Product>, v: int): (r: seq<Product>) {
    Filter(s, PriceIs(v))
  }

  ghost function PriceIs(v: int): Product -> bool {
    p => Key(p) == v
  }

  /** Into a sorted `s`, places `x` after every element it does not belong strictly before: it goes
      in front of the first element of `s` it belongs strictly before. */
  ghost function Insert(s: seq<Product>, x: Product, order: SortOrder): (r: seq<Product>)
  {
    if s == [] then [x]
    else if Compare(order, x, s[0]) < 0 then [x] + s
    else
      assert s == [s[0]] + s[1..];
      [s[0]] + Insert(s[1..], x, order)
  }

  /** Insertion sort: each element in turn is inserted into the sorted prefix before it. */
  ghost function StableSort(s: seq<Product>, order: SortOrder): (r: seq<Product>) {
    if s == [] then []
    else Insert(StableSort(s[..|s| - 1], order), s[|s| - 1], order)
  }

  lemma {:induction false} InsertMultiset(s: seq<Product>, x: Product, order: SortOrder)
    ensures multiset(Insert(s, x, order)) == multiset(s) + multiset{x}
  {
    if s != [] && Compare(order, x, s[0]) >= 0 {
      InsertMultiset(s[1..], x, order);
      assert s == [s[0]] + s[1..];
    }
  }

  /** Sorting neither invents nor drops a product: the result is a permutation of the input. */
  lemma {:induction false} StableSortMultiset(s: seq<Product>, order: SortOrder)
    ensures multiset(StableSort(s, order)) == multiset(s)
  {
    if s != [] {
      StableSortMultiset(s[..|s| - 1], order);
      InsertMultiset(StableSort(s[..|s| - 1], order), s[|s| - 1], order);
      assert s == s[..|s| - 1] + [s[|s| - 1]];
    }
  }

  /** No element of `s` belongs strictly before `b`. */
  ghost predicate Precedes(order: SortOrder, b: Product, s: seq<Product>) {
    forall k :: 0 <= k < |s| ==> Compare(order, b, s[k]) <= 0
  }

  lemma {:induction false} InsertPrecedes(s: seq<Product>, x: Product, order: SortOrder, b: Product)
    requires Precedes(order, b, s) && Compare(order, b, x) <= 0
    ensures Precedes(order, b, Insert(s, x, order))
  {
    if s != [] && Compare(order, x, s[0]) >= 0 {
      InsertPrecedes(s[1..], x, order, b);
      var t := Insert(s[1..], x, order);
      assert forall k :: 1 <= k < |t| + 1 ==> ([s[0]] + t)[k] == t[k - 1];
    }
  }

  /** A head that precedes a sorted tail gives a sorted list. */
  lemma SortedCons(b: Product, t: seq<Product>, order: SortOrder)
    requires Precedes(order, b, t) && Sorted(t, order)
    ensures Sorted([b] + t, order)
  {
    var r := [b] + t;
    forall i, j | 0 <= i < j < |r| ensures Compare(order, r[i], r[j]) <= 0 {
      assert r[j] == t[j - 1];
      if i > 0 {
        assert r[i] == t[i - 1];
      }
    }
  }

  lemma {:induction false} InsertSorted(s: seq<Product>, x: Product, order: SortOrder)
    requires Sorted(s, order)
    ensures Sorted(Insert(s, x, order), order)
  {
    if s == [] {
    } else if Compare(order, x, s[0]) < 0 {
      assert Precedes(order, x, s) by {
        forall k | 0 <= k < |s| ensures Compare(order, x, s[k]) <= 0 {
          assert k == 0 || Compare(order, s[0], s[k]) <= 0;
        }
      }
      SortedCons(x, s, order);
    } else {
      SortedTail(s, order);
      InsertSorted(s[1..], x, order);
      assert Precedes(order, s[0], s[1..]) by {
        forall k | 0 <= k < |s| - 1 ensures Compare(order, s[0], s[1..][k]) <= 0 {
          assert s[1..][k] == s[k + 1];
        }
      }
      InsertPrecedes(s[1..], x, order, s[0]);
      SortedCons(s[0], Insert(s[1..], x, order), order);
    }
  }

  /** The result is ordered by the comparator: non-decreasing prices for `Ascending`,
      non-increasing for `Descending`. */
  lemma {:induction false} StableSortSorted(s: seq<Product>, order: SortOrder)
    ensures Sorted(StableSort(s, order), order)
  {
    if s != [] {
      StableSortSorted(s[..|s| - 1], order);
      InsertSorted(StableSort(s[..|s| - 1], order), s[|s| - 1], order);
    }
  }

  lemma SortedTail(s: seq<Product>, order: SortOrder)
    requires s != [] && Sorted(s, order)
    ensures Sorted(s[1..], order)
  {
    var t := s[1..];
    forall a, b | 0 <= a < b < |t| ensures Compare(order, t[a], t[b]) <= 0 {
      assert t[a] == s[a + 1] && t[b] == s[b + 1];
    }
  }

  lemma {:induction false} InsertPricedAt(s: seq<Product>, x: Product, order: SortOrder, v: int)
    requires Sorted(s, order)
    ensures PricedAt(Insert(s, x, order), v) == PricedAt(s, v) + (if Key(x) == v then [x] else [])
  {
    var head := if Key(x) == v then [x] else [];
    if s == [] {
      assert [x][1..] == [];
      assert PricedAt([x], v) == head + PricedAt([], v);
    } else if Compare(order, x, s[0]) < 0 {
      // every element of `s` compares after `x`, so none has its price
      if Key(x) == v {
        forall k | 0 <= k < |s| ensures !PriceIs(v)(s[k]) {
          assert Compare(order, s[0], s[k]) <= 0 || k == 0;
        }
        FilterNone(s, PriceIs(v));
      }
      assert ([x] + s)[1..] == s;
      assert PricedAt([x] + s, v) == head + PricedAt(s, v);
    } else {
      var t := Insert(s[1..], x, order);
      SortedTail(s, order);
      InsertPricedAt(s[1..], x, order, v);
      assert ([s[0]] + t)[1..] == t;
      var first := if Key(s[0]) == v then [s[0]] else [];
      calc {
        PricedAt(Insert(s, x, order), v);
        PricedAt([s[0]] + t, v);
        first + PricedAt(t, v);
        first + (PricedAt(s[1..], v) + head);
        (first + PricedAt(s[1..], v)) + head;
        PricedAt(s, v) + head;
      }
    }
  }

  /** Stability: among products with the same normalised price, sorting keeps their relative order. */
  lemma {:induction false} StableSortPricedAt(s: seq<Product>, order: SortOrder, v: int)
    ensures PricedAt(StableSort(s, order), v) == PricedAt(s, v)
  {
    if s != [] {
      var p, x := s[..|s| - 1], s[|s| - 1];
      assert s == p + [x];
      var tail := if Key(x) == v then [x] else [];
      calc {
        PricedAt(StableSort(s, order), v);
        PricedAt(Insert(StableSort(p, order), x, order), v);
        { StableSortSorted(p, order); InsertPricedAt(StableSort(p, order), x, order, v); }
        PricedAt(StableSort(p, order), v) + tail;
        { StableSortPricedAt(p, order, v); }
        PricedAt(p, v) + tail;
        { FilterAppend(p, [x], PriceIs(v)); }
        PricedAt(s, v);
      }
    }
  }

  /** The head of a non-empty list is kept at its own price and dropped at every other. */
  lemma PricedAtCons(u: seq<Product>, v: int)
    requires u != []
    ensures PricedAt(u, v) == (if Key(u[0]) == v then [u[0]] else []) + PricedAt(u[1..], v)
  {
  }

  lemma PricedAtAgreeEmpty(r: seq<Product>, t: seq<Product>)
    requires forall v :: PricedAt(r, v) == PricedAt(t, v)
    ensures r == [] <==> t == []
  {
    if r != [] {
      PricedAtCons(r, Key(r[0]));
      assert PricedAt(t, Key(r[0])) != [];
    }
    if t != [] {
      PricedAtCons(t, Key(t[0]));
      assert PricedAt(r, Key(t[0])) != [];
    }
  }

  /** Of two sorted lists that agree price by price, neither head belongs strictly before the
      other, so the two heads are the first product at the same price, hence equal. */
  lemma PricedAtAgreeHead(r: seq<Product>, t: seq<Product>, order: SortOrder)
    requires r != [] && t != [] && Sorted(r, order) && Sorted(t, order)
    requires forall v :: PricedAt(r, v) == PricedAt(t, v)
    ensures r[0] == t[0]
  {
    var a, b := r[0], t[0];
    PricedAtCons(r, Key(a));
    PricedAtCons(t, Key(b));
    assert a in PricedAt(t, Key(a)) && b in PricedAt(r, Key(b));
    var k :| 0 <= k < |t| && t[k] == a;
    assert k == 0 || Compare(order, b, t[k]) <= 0;
    var m :| 0 <= m < |r| && r[m] == b;
    assert m == 0 || Compare(order, a, r[m]) <= 0;
    assert Key(a) == Key(b);
    assert a == PricedAt(r, Key(a))[0] == PricedAt(t, Key(b))[0] == b;
  }

  lemma PricedAtAgreeTail(r: seq<Product>, t: seq<Product>)
    requires r != [] && t != [] && r[0] == t[0]
    requires forall v :: PricedAt(r, v) == PricedAt(t, v)
    ensures forall v :: PricedAt(r[1..], v) == PricedAt(t[1..], v)
  {
    forall v ensures PricedAt(r[1..], v) == PricedAt(t[1..], v) {
      PricedAtCons(r, v);
      PricedAtCons(t, v);
      var head := if Key(r[0]) == v then [r[0]] else [];
      assert PricedAt(r[1..], v) == (head + PricedAt(r[1..], v))[|head|..];
      assert PricedAt(t[1..], v) == (head + PricedAt(t[1..], v))[|head|..];
    }
  }

  /** Two sorted lists that agree, price by price, on which products they hold and in what order
      are the same list. */
  lemma {:induction false} SortedPricedAtUnique(r: seq<Product>, t: seq<Product>, order: SortOrder)
    requires Sorted(r, order) && Sorted(t, order)
    requires forall v :: PricedAt(r, v) == PricedAt(t, v)
    ensures r == t
    decreases |r|
  {
    PricedAtAgreeEmpty(r, t);
    if r != [] {
      PricedAtAgreeHead(r, t, order);
      PricedAtAgreeTail(r, t);
      SortedTail(r, order);
      SortedTail(t, order);
      SortedPricedAtUnique(r[1..], t[1..], order);
      assert r == [r[0]] + r[1..] && t == [t[0]] + t[1..];
    }
  }

  /** `StableSort` is the only stable sort: any list ordered by the comparator that keeps, for
      every price, the products of `s` at that price in their order in `s` is `StableSort(s)`. */
  lemma StableSortUnique(s: seq<Product>, r: seq<Product>, order: SortOrder)
    requires Sorted(r, order)
    requires forall v :: PricedAt(r, v) == PricedAt(s, v)
    ensures r == StableSort(s, order)
  {
    StableSortSorted(s, order);
    forall v ensures PricedAt(r, v) == PricedAt(StableSort(s, order), v) {
      StableSortPricedAt(s, order, v);
    }
    SortedPricedAtUnique(r, StableSort(s, order), order);
  }

  /** Inserting `x` at a position `j` with nothing after it that `x` does not belong strictly
      before, and nothing before it that `x` belongs strictly before, is `Insert`. */
  lemma {:induction false} InsertAt(s: seq<Product>, x: Product, order: SortOrder, j: int)
    requires 0 <= j <= |s|
    requires forall k :: 0 <= k < j ==> Compare(order, x, s[k]) >= 0
    requires forall k :: j <= k < |s| ==> Compare(order, x, s[k]) < 0
    ensures Insert(s, x, order) == s[..j] + [x] + s[j..]
  {
    if j > 0 {
      var t := s[1..];
      assert Compare(order, x, s[0]) >= 0;
      InsertAt(t, x, order, j - 1);
      assert s[..j] == [s[0]] + t[..j - 1];
      assert s[j..] == t[j - 1..];
      calc {
        Insert(s, x, order);
        [s[0]] + Insert(t, x, order);
        [s[0]] + (t[..j - 1] + [x] + t[j - 1..]);
        s[..j] + [x] + s[j..];
      }
    }
  }

  /** Sorting a list that is already in order leaves it as it is, so re-sorting a sorted result
      changes nothing. */
  lemma {:induction false} StableSortOfSorted(s: seq<Product>, order: SortOrder)
    requires Sorted(s, order)
    ensures StableSort(s, order) == s
  {
    if s != [] {
      var p, x := s[..|s| - 1], s[|s| - 1];
      assert Sorted(p, order);
      StableSortOfSorted(p, order);
      forall k | 0 <= k < |p| ensures Compare(order, x, p[k]) >= 0 {
        assert p[k] == s[k];
      }
      InsertAt(p, x, order, |p|);
      assert s == p[..|p|] + [x] + p[|p|..];
    }
  }

  lemma {:induction false} InsertCanonicals(s: seq<Product>, x: Product, order: SortOrder)
    ensures Insert(Canonicals(s), Canonical(x), order) == Canonicals(Insert(s, x, order))
  {
    if s != [] {
      var t := Canonicals(s);
      assert t[0] == Canonical(s[0]) && Compare(order, Canonical(x), t[0]) == Compare(order, x, s[0]);
      if Compare(order, x, s[0]) < 0 {
        CanonicalsAppend([x], s);
      } else {
        assert t[1..] == Canonicals(s[1..]);
        InsertCanonicals(s[1..], x, order);
        CanonicalsAppend([s[0]], Insert(s[1..], x, order));
      }
    }
  }

  /** The sort compares normalised prices only: it commutes with rewriting prices in plain form. */
  lemma {:induction false} StableSortCanonicals(s: seq<Product>, order: SortOrder)
    ensures StableSort(Canonicals(s), order) == Canonicals(StableSort(s, order))
  {
    if s != [] {
      StableSortCanonicals(s[..|s| - 1], order);
      assert Canonicals(s)[..|s| - 1] == Canonicals(s[..|s| - 1]);
      InsertCanonicals(StableSort(s[..|s| - 1], order), s[|s| - 1], order);
    }
  }

  lemma StableSortStep(s: seq<Product>, i: int, order: SortOrder)
    requires 0 <= i < |s|
    ensures StableSort(s[..i + 1], order) == Insert(StableSort(s[..i], order), s[i], order)
  {
    assert s[..i + 1][..i] == s[..i];
  }

  /** The prefix the inner loop leaves behind: `sorted` with `x` put back at position `j`. */
  lemma Spliced(done: seq<Product>, sorted: seq<Product>, x: Product, j: int)
    requires 0 <= j <= |sorted| && |done| == |sorted| + 1
    requires forall k :: 0 <= k < j ==> done[k] == sorted[k]
    requires done[j] == x
    requires forall k :: j < k < |done| ==> done[k] == sorted[k - 1]
    ensures done == sorted[..j] + [x] + sorted[j..]
  {
  }

  /** One pass of the outer loop of `SortByPrice`: shifts `a[i]` left past the elements just
      before it that it belongs strictly before, and returns the position `j` where it lands. */
  method InsertIntoPrefix(a: array<Product>, i: int, order: SortOrder) returns (j: int)
    requires 0 <= i < a.Length
    modifies a
    ensures 0 <= j <= i
    ensures j == 0 || Compare(order, old(a[i]), old(a[j - 1])) >= 0
    ensures forall k :: j <= k < i ==> Compare(order, old(a[i]), old(a[k])) < 0
    ensures a[..i + 1] == old(a[..i])[..j] + [old(a[i])] + old(a[..i])[j..]
    ensures forall k :: i < k < a.Length ==> a[k] == old(a[k])
  {
    ghost var sorted := a[..i];
    var x := a[i];
    j := i;
    while j > 0 && Compare(order, x, a[j - 1]) < 0
      invariant 0 <= j <= i
      invariant forall k :: 0 <= k < j ==> a[k] == sorted[k]
      invariant forall k :: j < k <= i ==> a[k] == sorted[k - 1]
      invariant forall k :: j <= k < i ==> Compare(order, x, sorted[k]) < 0
      invariant forall k :: i < k < a.Length ==> a[k] == old(a[k])
    {
      a[j] := a[j - 1];
      j := j - 1;
    }
    a[j] := x;
    Spliced(a[..i + 1], sorted, x, j);
  }

  /** `filtered.sort(cmp)`: sorts `a` in place, stably, by normalised price. */
  method SortByPrice(a: array<Product>, order: SortOrder)
    modifies a
    ensures a[..] == StableSort(old(a[..]), order)
  {
    ghost var input := a[..];
    var i := 0;
    while i < a.Length
      invariant 0 <= i <= a.Length
      invariant a[..i] == StableSort(input[..i], order)
      invariant forall k :: i <= k < a.Length ==> a[k] == input[k]
    {
      ghost var sorted := a[..i];
      var x := a[i];
      var j := InsertIntoPrefix(a, i, order);
      assert a[..i + 1] == Insert(sorted, x, order) by {
        StableSortSorted(input[..i], order);
        forall k | 0 <= k < j ensures Compare(order, x, sorted[k]) >= 0 {
          assert k == j - 1 || Compare(order, sorted[k], sorted[j - 1]) <= 0;
        }
        InsertAt(sorted, x, order, j);
      }
      StableSortStep(input, i, order);
      i := i + 1;
    }
    assert a[..] == a[..a.Length] && input == input[..a.Length];
  }
}
