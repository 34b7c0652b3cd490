/** The product record the catalog API returns, the normalisation of its price, and the
    string operations the name search uses (`toLowerCase` and `includes`). */
module Catalog {

  datatype Option<T> = None | Some(value: T)

  /** A price as it arrives from the API: wrapped as a decimal, `{ "$numberDecimal": … }`,
      or a plain number. Amounts are whole numbers in this model. */
  datatype Price = Decimal(numberDecimal: int) | Plain(amount: int)

  datatype Product = Product(
    id: string,
    name: string,
    brand: string,
    category: string,
    description: string,
    price: Price,
    photos: string)

  /** `price.$numberDecimal || price`: the number a price stands for, whichever form it came in. */
  function Normalize(price: Price): (r: int) {
    match price
    case Decimal(d) => d
    case Plain(a) => a
  }

  /** The normalised price of a product: the only thing the price filter and the sort look at. */
  function Key(p: Product): (r: int) {
    Normalize(p.price)
  }

  /** The same product with its price rewritten in plain form. */
  function Canonical(p: Product): (q: Product)
    ensures q.price.Plain? && Key(q) == Key(p)
    ensures q.(price := p.price) == p
  {
    p.(price := Plain(Key(p)))
  }

  function Canonicals(s: seq<Product>): (r: seq<Product>)
    ensures |r| == |s|
  {
    seq(|s|, i requires 0 <= i < |s| => Canonical(s[i]))
  }

  lemma CanonicalsAppend(s: seq<Product>, t: seq<Product>)
    ensures Canonicals(s + t) == Canonicals(s) + Canonicals(t)
  {
  }

  /** `toLowerCase`, restricted to ASCII letters. */
  function LowerChar(c: char): (r: char) {
    if 'A' <= c <= 'Z' then (c as int + 32) as char else c
  }

  function Lower(s: string): (r: string) {
    seq(|s|, i requires 0 <= i < |s| => LowerChar(s[i]))
  }

  /** `hay.includes(needle)`. */
  function Contains(hay: string, needle: string): (r: bool)
    decreases |hay|
  {
    needle <= hay || (hay != [] && Contains(hay[1..], needle))
  }

  ghost predicate OccursAt(hay: string, needle: string, i: int) {
    0 <= i <= |hay| - |needle| && hay[i..i + |needle|] == needle
  }

  /** Every character of a contained `needle` occurs in `hay`. */
  lemma {:induction false} ContainsHasChars(hay: string, needle: string)
    ensures Contains(hay, needle) ==> forall k :: 0 <= k < |needle| ==> needle[k] in hay
  {
    if Contains(hay, needle) && !(needle <= hay) {
      ContainsHasChars(hay[1..], needle);
      forall k | 0 <= k < |needle| ensures needle[k] in hay {
        assert needle[k] in hay[1..];
      }
    }
  }

  /** `Contains` holds exactly when `needle` is a contiguous run of `hay` at some position. */
  lemma {:induction false} ContainsIff(hay: string, needle: string)
    ensures Contains(hay, needle) <==> exists i :: OccursAt(hay, needle, i)
  {
    if needle <= hay {
      assert OccursAt(hay, needle, 0);
    } else if hay != [] {
      ContainsIff(hay[1..], needle);
      if Contains(hay[1..], needle) {
        var i :| OccursAt(hay[1..], needle, i);
        assert hay[i + 1..i + 1 + |needle|] == hay[1..][i..i + |needle|];
        assert OccursAt(hay, needle, i + 1);
      }
      if i :| OccursAt(hay, needle, i) {
        // a match at 0 would make `needle` a prefix, so it lies in the tail
        assert hay[1..][i - 1..i - 1 + |needle|] == hay[i..i + |needle|];
        assert OccursAt(hay[1..], needle, i - 1);
      }
    }
  }
}
