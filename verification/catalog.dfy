/** The product records the store API returns, and the sort-order choices of
    the product list: the select-box value, the comparator it selects in
    `applyFiltersAndSorting`, and the "may precede" relation that comparator
    induces on products. */
module Catalog {
  import opened StableSort

  /** `rating.rate` in tenths of a point and `rating.count`. */
  datatype Rating = Rating(rate: int, count: int)

  /** One product record. The price is in cents; the comparators only look at
      the sign of a difference, so whole numbers lose nothing. */
  datatype Product = Product(
    id: int,
    title: string,
    price: int,
    category: string,
    image: string,
    rating: Rating)

  /** The orders the sort select box offers; every other value of the box
      leaves the products in fetch order. */
  datatype SortKey = PriceAscending | PriceDescending | Popularity | TitleOrder | Unsorted

  /** The select-box value each ordered key is chosen by. */
  function SortKeyValue(k: SortKey): string {
    match k
    case PriceAscending => "ascendingOrder"
    case PriceDescending => "descendingOrder"
    case Popularity => "popularity"
    case TitleOrder => "title"
    case Unsorted => ""
  }

  /** The `switch (sortType)` dispatch: the four known values pick their
      order, anything else falls to the `default` branch. */
  function ParseSortKey(value: string): (k: SortKey)
    ensures k != Unsorted ==> SortKeyValue(k) == value
  {
    if value == "ascendingOrder" then PriceAscending
    else if value == "descendingOrder" then PriceDescending
    else if value == "popularity" then Popularity
    else if value == "title" then TitleOrder
    else Unsorted
  }

  /** Each ordered key is chosen by exactly its own value, and no other
      value chooses it. */
  lemma ParseSortKeyValue(k: SortKey, value: string)
    ensures k != Unsorted ==> ParseSortKey(SortKeyValue(k)) == k
    ensures k != Unsorted && ParseSortKey(value) == k ==> value == SortKeyValue(k)
  {
  }

  /** `localeCompare` reduced to its sign, given an abstract collation order
      `titleOrder` on titles. */
  function LocaleCompare(titleOrder: (string, string) -> bool, a: string, b: string): (c: int)
    ensures c <= 0 <==> titleOrder(a, b)
    ensures c >= 0 <==> titleOrder(b, a) || !titleOrder(a, b)
  {
    if titleOrder(a, b) && titleOrder(b, a) then 0
    else if titleOrder(a, b) then -1
    else 1
  }

  /** The comparator handed to `Array.prototype.sort`: negative when `a`
      goes first, positive when `b` goes first, zero to keep their order. */
  function Compare(key: SortKey, titleOrder: (string, string) -> bool, a: Product, b: Product): (c: int)
    ensures key == PriceAscending ==> (c < 0 <==> a.price < b.price) && (c == 0 <==> a.price == b.price)
    ensures key == PriceDescending ==> (c < 0 <==> a.price > b.price) && (c == 0 <==> a.price == b.price)
    ensures key == Popularity ==> (c < 0 <==> a.rating.rate > b.rating.rate) && (c == 0 <==> a.rating.rate == b.rating.rate)
    ensures key == TitleOrder ==> (c <= 0 <==> titleOrder(a.title, b.title))
    ensures key == Unsorted ==> c == 0
  {
    match key
    case PriceAscending => a.price - b.price
    case PriceDescending => b.price - a.price
    case Popularity => b.rating.rate - a.rating.rate
    case TitleOrder => LocaleCompare(titleOrder, a.title, b.title)
    case Unsorted => 0
  }

  /** Swapping the arguments flips the comparator's sign, as a consistent
      comparator for `Array.prototype.sort` must (section 23.1.3.30 of
      ECMA-262, 2023 edition); for titles this needs the collation order to
      be total. */
  lemma CompareAntisymmetric(key: SortKey, titleOrder: (string, string) -> bool, a: Product, b: Product)
    requires key == TitleOrder ==> titleOrder(a.title, b.title) || titleOrder(b.title, a.title)
    ensures Compare(key, titleOrder, a, b) < 0 <==> Compare(key, titleOrder, b, a) > 0
    ensures Compare(key, titleOrder, a, b) == 0 <==> Compare(key, titleOrder, b, a) == 0
  {
  }

  /** `a` may stay ahead of `b` in the sorted list: the comparator does not
      ask for `b` to go first. */
  function Precedes(key: SortKey, titleOrder: (string, string) -> bool): (leq: (Product, Product) -> bool)
    ensures forall a, b :: leq(a, b) <==> Compare(key, titleOrder, a, b) <= 0
  {
    (a: Product, b: Product) => Compare(key, titleOrder, a, b) <= 0
  }

  /** What "may precede" means for each key, in terms of the product fields. */
  lemma PrecedesMeaning(key: SortKey, titleOrder: (string, string) -> bool, a: Product, b: Product)
    ensures key == PriceAscending ==> (Precedes(key, titleOrder)(a, b) <==> a.price <= b.price)
    ensures key == PriceDescending ==> (Precedes(key, titleOrder)(a, b) <==> a.price >= b.price)
    ensures key == Popularity ==> (Precedes(key, titleOrder)(a, b) <==> a.rating.rate >= b.rating.rate)
    ensures key == TitleOrder ==> (Precedes(key, titleOrder)(a, b) <==> titleOrder(a.title, b.title))
    ensures key == Unsorted ==> Precedes(key, titleOrder)(a, b)
  {
  }

  /** Every comparator of the select box is consistent (a total preorder);
      the title comparator is as long as the collation order of titles is. */
  lemma PrecedesTotalPreorder(key: SortKey, titleOrder: (string, string) -> bool)
    requires key == TitleOrder ==> TotalPreorder(titleOrder)
    ensures TotalPreorder(Precedes(key, titleOrder))
  {
    var leq := Precedes(key, titleOrder);
    forall a, b
      ensures leq(a, b) || leq(b, a)
    {
      PrecedesMeaning(key, titleOrder, a, b);
      PrecedesMeaning(key, titleOrder, b, a);
    }
    forall a, b, c | leq(a, b) && leq(b, c)
      ensures leq(a, c)
    {
      PrecedesMeaning(key, titleOrder, a, b);
      PrecedesMeaning(key, titleOrder, b, c);
      PrecedesMeaning(key, titleOrder, a, c);
    }
  }
}
