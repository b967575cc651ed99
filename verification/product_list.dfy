/** The product-list page: the state the `ProductList` class keeps (the
    accumulated products, the applied category filters, the search box and
    sort box values, the page counter, the load-more button and the result
    label), the filter-and-sort pipeline of `applyFiltersAndSorting`, and the
    event handlers that change the state. The DOM is reduced to the fields it
    holds; fetching a page is an outcome handed in from outside. */
module ProductList {
  import opened Text
  import opened Sequences
  import opened StableSort
  import opened Catalog

  // ---------------------------------------------------------------------
  // The filter predicate

  /** No category is applied, or the product's category is one of them
      (membership as `Array.prototype.includes` tests it). */
  predicate MatchesCategory(p: Product, filters: seq<string>): (r: bool)
    ensures |filters| == 0 ==> r
    ensures |filters| > 0 ==> (r <==> exists i | 0 <= i < |filters| :: filters[i] == p.category)
  {
    |filters| == 0 || p.category in filters
  }

  /** The lower-cased title includes the lower-cased search text. The text is
      used as typed, without trimming. */
  predicate MatchesSearch(p: Product, search: string): (r: bool)
    ensures r <==> exists i :: OccursAt(ToLower(p.title), ToLower(search), i)
    ensures search == "" ==> r
  {
    ContainsIffOccurs(ToLower(p.title), ToLower(search));
    Contains(ToLower(p.title), ToLower(search))
  }

  /** A product is kept when both the category and the search test pass. */
  predicate Matches(p: Product, filters: seq<string>, search: string): (r: bool)
    ensures r <==> && (|filters| == 0 || exists i | 0 <= i < |filters| :: filters[i] == p.category)
                   && exists j :: OccursAt(ToLower(p.title), ToLower(search), j)
  {
    MatchesCategory(p, filters) && MatchesSearch(p, search)
  }

  /** The `filter` step: the matching products, in fetch order, each as many
      times as it was fetched. */
  function FilterProducts(all: seq<Product>, filters: seq<string>, search: string): (r: seq<Product>)
    ensures forall i | 0 <= i < |r| :: Matches(r[i], filters, search)
    ensures forall p :: multiset(r)[p] == if Matches(p, filters, search) then multiset(all)[p] else 0
    ensures IsSubsequence(r, all)
  {
    if |all| == 0 then []
    else
      assert all == [all[0]] + all[1..];
      var rest := FilterProducts(all[1..], filters, search);
      if Matches(all[0], filters, search) then [all[0]] + rest else rest
  }

  /** The display list `applyFiltersAndSorting` computes: the matching
      products, stably sorted by the comparator the sort box selects. */
  function View(all: seq<Product>, filters: seq<string>, search: string, sortValue: string,
                titleOrder: (string, string) -> bool): (r: seq<Product>)
    ensures forall i | 0 <= i < |r| :: Matches(r[i], filters, search)
    ensures forall p :: multiset(r)[p] == if Matches(p, filters, search) then multiset(all)[p] else 0
  {
    Sort(FilterProducts(all, filters, search), Precedes(ParseSortKey(sortValue), titleOrder))
  }

  /** The sort box never changes which products are shown, nor how often. */
  lemma ViewSortIndependent(all: seq<Product>, filters: seq<string>, search: string,
                            v1: string, v2: string, titleOrder: (string, string) -> bool)
    ensures multiset(View(all, filters, search, v1, titleOrder))
         == multiset(View(all, filters, search, v2, titleOrder))
    ensures |View(all, filters, search, v1, titleOrder)| == |View(all, filters, search, v2, titleOrder)|
  {
    var a := View(all, filters, search, v1, titleOrder);
    var b := View(all, filters, search, v2, titleOrder);
    assert multiset(a) == multiset(b);
    assert |a| == |multiset(a)| == |multiset(b)| == |b|;
  }

  /** The display list is the stable sort of the filtered products: sorted by
      the selected comparator, and products whose keys tie keep fetch order. */
  lemma ViewSortedStable(all: seq<Product>, filters: seq<string>, search: string, sortValue: string,
                         titleOrder: (string, string) -> bool)
    requires ParseSortKey(sortValue) == TitleOrder ==> TotalPreorder(titleOrder)
    ensures Sorted(View(all, filters, search, sortValue, titleOrder), Precedes(ParseSortKey(sortValue), titleOrder))
    ensures Stable(FilterProducts(all, filters, search), View(all, filters, search, sortValue, titleOrder),
                   Precedes(ParseSortKey(sortValue), titleOrder))
  {
    var leq := Precedes(ParseSortKey(sortValue), titleOrder);
    PrecedesTotalPreorder(ParseSortKey(sortValue), titleOrder);
    SortSorted(FilterProducts(all, filters, search), leq);
    SortStable(FilterProducts(all, filters, search), leq);
  }

  /** Nothing else could be shown: every sorted, stable arrangement of the
      filtered products is the display list. */
  lemma ViewIsTheStableSort(all: seq<Product>, filters: seq<string>, search: string, sortValue: string,
                            titleOrder: (string, string) -> bool, r: seq<Product>)
    requires ParseSortKey(sortValue) == TitleOrder ==> TotalPreorder(titleOrder)
    requires multiset(r) == multiset(FilterProducts(all, filters, search))
    requires Sorted(r, Precedes(ParseSortKey(sortValue), titleOrder))
    requires Stable(FilterProducts(all, filters, search), r, Precedes(ParseSortKey(sortValue), titleOrder))
    ensures r == View(all, filters, search, sortValue, titleOrder)
  {
    PrecedesTotalPreorder(ParseSortKey(sortValue), titleOrder);
    SortIsTheStableSort(FilterProducts(all, filters, search), r, Precedes(ParseSortKey(sortValue), titleOrder));
  }

  /** What each sort box value promises about neighbours in the display list. */
  lemma ViewOrder(all: seq<Product>, filters: seq<string>, search: string, sortValue: string,
                  titleOrder: (string, string) -> bool)
    requires ParseSortKey(sortValue) == TitleOrder ==> TotalPreorder(titleOrder)
    ensures var r := View(all, filters, search, sortValue, titleOrder);
      && (sortValue == "ascendingOrder" ==> forall i, j | 0 <= i < j < |r| :: r[i].price <= r[j].price)
      && (sortValue == "descendingOrder" ==> forall i, j | 0 <= i < j < |r| :: r[i].price >= r[j].price)
      && (sortValue == "popularity" ==> forall i, j | 0 <= i < j < |r| :: r[i].rating.rate >= r[j].rating.rate)
      && (sortValue == "title" ==> forall i, j | 0 <= i < j < |r| :: titleOrder(r[i].title, r[j].title))
  {
    var r := View(all, filters, search, sortValue, titleOrder);
    var key := ParseSortKey(sortValue);
    ViewSortedStable(all, filters, search, sortValue, titleOrder);
    forall i, j | 0 <= i < j < |r|
      ensures key == PriceAscending ==> r[i].price <= r[j].price
      ensures key == PriceDescending ==> r[i].price >= r[j].price
      ensures key == Popularity ==> r[i].rating.rate >= r[j].rating.rate
      ensures key == TitleOrder ==> titleOrder(r[i].title, r[j].title)
    {
      PrecedesMeaning(key, titleOrder, r[i], r[j]);
    }
  }

  /** An unknown sort box value keeps the filtered products in fetch order. */
  lemma ViewUnsortedKeepsFetchOrder(all: seq<Product>, filters: seq<string>, search: string, sortValue: string,
                                    titleOrder: (string, string) -> bool)
    requires ParseSortKey(sortValue) == Unsorted
    ensures View(all, filters, search, sortValue, titleOrder) == FilterProducts(all, filters, search)
  {
    var leq := Precedes(Unsorted, titleOrder);
    PrecedesTotalPreorder(Unsorted, titleOrder);
    forall i, j | 0 <= i < j < |FilterProducts(all, filters, search)|
      ensures leq(FilterProducts(all, filters, search)[i], FilterProducts(all, filters, search)[j])
    {
    }
    SortOfSorted(FilterProducts(all, filters, search), leq);
  }

  /** With no category applied and an empty search every product passes. */
  lemma {:induction false} FilterNothing(all: seq<Product>)
    ensures FilterProducts(all, [], "") == all
  {
    if |all| > 0 {
      ContainsEmpty(ToLower(all[0].title));
      FilterNothing(all[1..]);
    }
  }

  /** With no category applied and an empty search every fetched product is
      shown; an unknown sort value shows them in fetch order. */
  lemma ViewUnfiltered(all: seq<Product>, sortValue: string, titleOrder: (string, string) -> bool)
    ensures multiset(View(all, [], "", sortValue, titleOrder)) == multiset(all)
    ensures ParseSortKey(sortValue) == Unsorted ==> View(all, [], "", sortValue, titleOrder) == all
  {
    FilterNothing(all);
    if ParseSortKey(sortValue) == Unsorted {
      ViewUnsortedKeepsFetchOrder(all, [], "", sortValue, titleOrder);
    }
  }

  /** The filter only asks whether a category is in the applied list, so
      duplicates in the list, or its order, do not change the display. */
  lemma {:induction false} FilterMembershipOnly(all: seq<Product>, f1: seq<string>, f2: seq<string>, search: string)
    requires forall c :: c in f1 <==> c in f2
    ensures FilterProducts(all, f1, search) == FilterProducts(all, f2, search)
  {
    if |all| > 0 {
      if |f1| > 0 {
        assert f1[0] in f2;
      }
      if |f2| > 0 {
        assert f2[0] in f1;
      }
      assert MatchesCategory(all[0], f1) == MatchesCategory(all[0], f2);
      FilterMembershipOnly(all[1..], f1, f2, search);
    }
  }

  /** The search ignores the case of ASCII letters. */
  lemma {:induction false} FilterCaseInsensitive(all: seq<Product>, filters: seq<string>, s1: string, s2: string)
    requires ToLower(s1) == ToLower(s2)
    ensures FilterProducts(all, filters, s1) == FilterProducts(all, filters, s2)
  {
    if |all| > 0 {
      FilterCaseInsensitive(all[1..], filters, s1, s2);
    }
  }

  // ---------------------------------------------------------------------
  // The category list and the applied-filter list

  /** The categories of the products, in product order (the `map` step). */
  function CategoryColumn(all: seq<Product>): (r: seq<string>)
    ensures |r| == |all|
    ensures forall i | 0 <= i < |all| :: r[i] == all[i].category
  {
    seq(|all|, i requires 0 <= i < |all| => all[i].category)
  }

  /** The categories of the filter panel: each category of a fetched product
      once, in the order the categories are first met. */
  function Categories(all: seq<Product>): (r: seq<string>)
    ensures NoDuplicates(r)
    ensures forall c :: c in r <==> exists p :: p in all && p.category == c
    ensures forall i, j | 0 <= i < j < |r| :: FirstIndex(CategoryColumn(all), r[i]) < FirstIndex(CategoryColumn(all), r[j])
  {
    var column := CategoryColumn(all);
    assert forall c :: c in column <==> exists p :: p in all && p.category == c by {
      forall c
        ensures c in column <==> exists p :: p in all && p.category == c
      {
        if c in column {
          var i :| 0 <= i < |column| && column[i] == c;
          assert all[i] in all;
        }
        if exists p :: p in all && p.category == c {
          var p :| p in all && p.category == c;
          var i :| 0 <= i < |all| && all[i] == p;
          assert column[i] == c;
        }
      }
    }
    Distinct(column)
  }

  /** A fetched page never moves the categories already in the panel: the old
      list is a prefix of the new one, so existing checkboxes keep their place. */
  lemma CategoriesGrowByAppend(all: seq<Product>, page: seq<Product>)
    ensures Categories(all) <= Categories(all + page)
  {
    assert CategoryColumn(all + page) == CategoryColumn(all) + CategoryColumn(page);
    DistinctAppend(CategoryColumn(all), CategoryColumn(page));
  }

  /** A checkbox change: checking appends the value, unchecking removes every
      occurrence of it and keeps the other entries in order. */
  function ToggleFilter(filters: seq<string>, value: string, checked: bool): (r: seq<string>)
    ensures checked ==> r == filters + [value]
    ensures !checked ==> value !in r && IsSubsequence(r, filters)
    ensures forall c | c != value :: multiset(r)[c] == multiset(filters)[c]
    ensures forall c :: c in r <==> (c in filters && c != value) || (checked && c == value)
  {
    if checked then filters + [value] else RemoveAll(filters, value)
  }

  /** Checking then unchecking a box that was unchecked restores the list. */
  lemma ToggleRoundTrip(filters: seq<string>, value: string)
    requires value !in filters
    ensures ToggleFilter(ToggleFilter(filters, value, true), value, false) == filters
  {
    RemoveAllAppended(filters, value);
    RemoveAllAbsent(filters, value);
  }

  /** Checking a box whose value is already applied (possible once the panel is
      redrawn) adds a duplicate, which the display does not notice. */
  lemma ToggleDuplicateHarmless(all: seq<Product>, filters: seq<string>, value: string, search: string)
    requires value in filters
    ensures FilterProducts(all, ToggleFilter(filters, value, true), search) == FilterProducts(all, filters, search)
  {
    FilterMembershipOnly(all, ToggleFilter(filters, value, true), filters, search);
  }

  // ---------------------------------------------------------------------
  // The load-more button

  /** The button is hidden when a category is applied or the trimmed search
      text is not empty, and shown otherwise. */
  predicate LoadMoreVisible(filters: seq<string>, search: string): (r: bool)
    ensures r <==> |filters| == 0 && forall i | 0 <= i < |search| :: IsJsSpace(search[i])
  {
    !(|filters| > 0 || |Trim(search)| > 0)
  }

  // ---------------------------------------------------------------------
  // The page state and its events

  datatype ListState = ListState(
    pageNumber: int,
    allProducts: seq<Product>,
    display: seq<Product>,
    categories: seq<string>,
    appliedFilters: seq<string>,
    searchText: string,
    sortValue: string,
    loadMoreVisible: bool,
    resultCount: int)

  /** The answer to one page request: the page's products, or a failure
      (network error, bad status, unreadable body), which is only logged. */
  datatype FetchOutcome = Fetched(page: seq<Product>) | FetchFailed

  /** The state the constructor sets up before its first fetch returns; the
      sort box starts at whatever value the page's markup gives it. */
  function Initial(sortValue: string): (st: ListState)
    ensures st.pageNumber == 1 && st.allProducts == [] && st.display == []
    ensures st.appliedFilters == [] && st.searchText == "" && st.loadMoreVisible
  {
    ListState(1, [], [], [], [], "", sortValue, true, 0)
  }

  /** `renderProducts`, as far as state goes: the result label shows the
      length of the list being rendered. */
  function RenderProducts(st: ListState, products: seq<Product>): (r: ListState)
    ensures r.resultCount == |products|
    ensures r.(resultCount := st.resultCount) == st
  {
    st.(resultCount := |products|)
  }

  /** `fetchProducts` once the request for the current page has settled: a
      page is appended to the accumulated products, the display is reset to
      all of them and the filter panel is redrawn; a failure changes nothing. */
  function FetchProducts(st: ListState, outcome: FetchOutcome): (r: ListState)
    ensures outcome.FetchFailed? ==> r == st
    ensures outcome.Fetched? ==> r.allProducts == st.allProducts + outcome.page
    ensures outcome.Fetched? ==> r.display == r.allProducts && r.resultCount == |r.allProducts|
    ensures outcome.Fetched? ==> r.categories == Categories(r.allProducts)
    ensures r.pageNumber == st.pageNumber && r.appliedFilters == st.appliedFilters
    ensures r.searchText == st.searchText && r.sortValue == st.sortValue
    ensures r.loadMoreVisible == st.loadMoreVisible
  {
    match outcome
    case FetchFailed => st
    case Fetched(page) =>
      var all := st.allProducts + page;
      RenderProducts(st.(allProducts := all, display := all, categories := Categories(all)), all)
  }

  /** `handleLoadMoreClick`: the page counter goes up by one before the
      request is made, whatever its outcome. */
  function LoadMoreClick(st: ListState, outcome: FetchOutcome): (r: ListState)
    ensures r.pageNumber == st.pageNumber + 1
    ensures r == FetchProducts(st.(pageNumber := st.pageNumber + 1), outcome)
  {
    FetchProducts(st.(pageNumber := st.pageNumber + 1), outcome)
  }

  /** `applyFiltersAndSorting`: the display list is recomputed from the
      current state, the load-more button shown or hidden, the label updated. */
  function ApplyFiltersAndSorting(st: ListState, titleOrder: (string, string) -> bool): (r: ListState)
    ensures r.display == View(st.allProducts, st.appliedFilters, st.searchText, st.sortValue, titleOrder)
    ensures r.loadMoreVisible == LoadMoreVisible(st.appliedFilters, st.searchText)
    ensures r.resultCount == |r.display|
    ensures r.allProducts == st.allProducts && r.pageNumber == st.pageNumber && r.categories == st.categories
    ensures r.appliedFilters == st.appliedFilters && r.searchText == st.searchText && r.sortValue == st.sortValue
  {
    var d := View(st.allProducts, st.appliedFilters, st.searchText, st.sortValue, titleOrder);
    RenderProducts(st.(display := d, loadMoreVisible := LoadMoreVisible(st.appliedFilters, st.searchText)), d)
  }

  /** The user events of the page, each standing for a completed handler run.
      A search event is the input the 300 ms debounce lets through. */
  datatype Event =
    | LoadMore(outcome: FetchOutcome)
    | CategoryChanged(value: string, checked: bool)
    | SearchInput(text: string)
    | SortChanged(value: string)

  /** One event. A hidden load-more button cannot be clicked. */
  function Step(st: ListState, e: Event, titleOrder: (string, string) -> bool): (r: ListState)
    ensures st.allProducts <= r.allProducts
    ensures e.LoadMore? && !st.loadMoreVisible ==> r == st
    ensures e.LoadMore? && st.loadMoreVisible ==> r.pageNumber == st.pageNumber + 1
    ensures !e.LoadMore? ==> && r.pageNumber == st.pageNumber && r.allProducts == st.allProducts
                             && r.display == View(r.allProducts, r.appliedFilters, r.searchText, r.sortValue, titleOrder)
                             && r.loadMoreVisible == LoadMoreVisible(r.appliedFilters, r.searchText)
    ensures r.appliedFilters
         == if e.CategoryChanged? then ToggleFilter(st.appliedFilters, e.value, e.checked) else st.appliedFilters
    ensures r.searchText == if e.SearchInput? then e.text else st.searchText
    ensures r.sortValue == if e.SortChanged? then e.value else st.sortValue
  {
    match e
    case LoadMore(outcome) =>
      if st.loadMoreVisible then LoadMoreClick(st, outcome) else st
    case CategoryChanged(value, checked) =>
      ApplyFiltersAndSorting(st.(appliedFilters := ToggleFilter(st.appliedFilters, value, checked)), titleOrder)
    case SearchInput(text) =>
      ApplyFiltersAndSorting(st.(searchText := text), titleOrder)
    case SortChanged(value) =>
      ApplyFiltersAndSorting(st.(sortValue := value), titleOrder)
  }

  function Run(st: ListState, events: seq<Event>, titleOrder: (string, string) -> bool): ListState
    decreases |events|
  {
    if |events| == 0 then st else Run(Step(st, events[0], titleOrder), events[1..], titleOrder)
  }

  /** The constructor: the initial state followed by the first page request. */
  function Start(sortValue: string, first: FetchOutcome): (st: ListState)
    ensures st.pageNumber == 1 && st.allProducts == (if first.Fetched? then first.page else [])
    ensures st.display == st.allProducts && st.resultCount == |st.display|
    ensures st.categories == Categories(st.allProducts)
    ensures st.appliedFilters == [] && st.searchText == "" && st.sortValue == sortValue && st.loadMoreVisible
  {
    FetchProducts(Initial(sortValue), first)
  }

  /** The number of load-more clicks that reach a visible button. */
  function ClicksTaken(st: ListState, events: seq<Event>, titleOrder: (string, string) -> bool): nat
    decreases |events|
  {
    if |events| == 0 then 0
    else
      (if events[0].LoadMore? && st.loadMoreVisible then 1 else 0)
      + ClicksTaken(Step(st, events[0], titleOrder), events[1..], titleOrder)
  }

  /** What holds of every state the page can reach. */
  ghost predicate Invariant(st: ListState) {
    && st.pageNumber >= 1
    && st.resultCount == |st.display|
    && st.categories == Categories(st.allProducts)
    && multiset(st.display) <= multiset(st.allProducts)
    && (st.loadMoreVisible ==> |st.appliedFilters| == 0)
  }

  lemma StartInvariant(sortValue: string, first: FetchOutcome)
    ensures Invariant(Start(sortValue, first))
  {
  }

  lemma StepInvariant(st: ListState, e: Event, titleOrder: (string, string) -> bool)
    requires Invariant(st)
    ensures Invariant(Step(st, e, titleOrder))
    ensures st.allProducts <= Step(st, e, titleOrder).allProducts
  {
    var r := Step(st, e, titleOrder);
    if !e.LoadMore? {
      var d := r.display;
      assert multiset(d) <= multiset(st.allProducts) by {
        forall p
          ensures multiset(d)[p] <= multiset(st.allProducts)[p]
        {
        }
      }
    }
  }

  /** Over any sequence of events: the invariant is kept, the accumulated
      products only grow at the end (never shrink or reorder), and the page
      counter has gone up by exactly the number of load-more clicks. */
  lemma {:induction false} RunInvariant(st: ListState, events: seq<Event>, titleOrder: (string, string) -> bool)
    requires Invariant(st)
    ensures Invariant(Run(st, events, titleOrder))
    ensures st.allProducts <= Run(st, events, titleOrder).allProducts
    ensures Run(st, events, titleOrder).pageNumber == st.pageNumber + ClicksTaken(st, events, titleOrder)
    decreases |events|
  {
    if |events| > 0 {
      var next := Step(st, events[0], titleOrder);
      StepInvariant(st, events[0], titleOrder);
      RunInvariant(next, events[1..], titleOrder);
    }
  }

  // ---------------------------------------------------------------------
  // The display after a fetch

  /** The display list is what the filters, search and sort box call for. */
  ghost predicate Consistent(st: ListState, titleOrder: (string, string) -> bool) {
    && st.display == View(st.allProducts, st.appliedFilters, st.searchText, st.sortValue, titleOrder)
    && st.loadMoreVisible == LoadMoreVisible(st.appliedFilters, st.searchText)
    && st.resultCount == |st.display|
  }

  /** The products of the sort-box example below. */
  const Shirt := Product(1, "Shirt", 2000, "men", "", Rating(41, 10))
  const Bag := Product(2, "Bag", 1000, "women", "", Rating(39, 7))

  /** The views of the example: with no filter and no search both products
      pass, and "ascendingOrder" puts the cheaper one first. */
  lemma ExampleViews(titleOrder: (string, string) -> bool)
    ensures View([Shirt], [], "", "ascendingOrder", titleOrder) == [Shirt]
    ensures View([Shirt, Bag], [], "", "ascendingOrder", titleOrder) == [Bag, Shirt]
  {
    var leq := Precedes(PriceAscending, titleOrder);
    FilterNothing([Shirt]);
    FilterNothing([Shirt, Bag]);
    assert Sort([Bag], leq) == [Bag];
    assert Insert(Shirt, [Bag], leq) == [Bag, Shirt];
  }

  lemma NoMatchWithout(title: string, search: string)
    requires |search| > 0 && search[0] !in title
    ensures !Contains(title, search)
  {
    if Contains(title, search) {
      ContainsFirstChar(title, search);
    }
  }

  /** A category filter and a search narrow the example: "men" with "sh"
      leaves the shirt. */
  lemma ExampleFilters(sortValue: string, titleOrder: (string, string) -> bool)
    ensures View([Shirt, Bag], ["men"], "sh", sortValue, titleOrder) == [Shirt]
  {
    var leq := Precedes(ParseSortKey(sortValue), titleOrder);
    assert ToLower("Shirt") == "shirt" && ToLower("sh") == "sh";
    assert MatchesSearch(Shirt, "sh");
    assert !MatchesCategory(Bag, ["men"]);
    assert FilterProducts([Shirt, Bag], ["men"], "sh") == [Shirt] by {
      assert [Shirt, Bag][1..] == [Bag];
    }
    assert Sort([Shirt], leq) == [Shirt];
  }

  /** A search whose first character occurs in neither lower-cased title
      leaves nothing of the example to display. */
  lemma SearchMissesExample(search: string, sortValue: string, titleOrder: (string, string) -> bool)
    requires |search| > 0 && LowerChar(search[0]) !in "shirt" && LowerChar(search[0]) !in "bag"
    ensures View([Shirt, Bag], [], search, sortValue, titleOrder) == []
  {
    assert ToLower("Shirt") == "shirt" && ToLower("Bag") == "bag";
    NoMatchWithout("shirt", ToLower(search));
    NoMatchWithout("bag", ToLower(search));
    assert FilterProducts([Shirt, Bag], [], search) == [] by {
      assert [Shirt, Bag][1..] == [Bag];
    }
  }

  /** A search that no title contains leaves nothing to display. */
  lemma ExampleNoMatch(sortValue: string, titleOrder: (string, string) -> bool)
    ensures View([Shirt, Bag], [], "zzz", sortValue, titleOrder) == []
  {
    SearchMissesExample("zzz", sortValue, titleOrder);
  }

  /** The button looks at the trimmed search text but the filter at the raw
      one: a lone space keeps the button shown while no title matches. */
  lemma UntrimmedSearch(sortValue: string, titleOrder: (string, string) -> bool)
    ensures LoadMoreVisible([], " ")
    ensures View([Shirt, Bag], [], " ", sortValue, titleOrder) == []
  {
    SearchMissesExample(" ", sortValue, titleOrder);
  }

  /** The example's state once the first page holds `Shirt` and the sort box
      is set to "ascendingOrder". */
  lemma ExampleSortChosen(titleOrder: (string, string) -> bool)
    ensures var st := Step(Start("", Fetched([Shirt])), SortChanged("ascendingOrder"), titleOrder);
      && st.allProducts == [Shirt] && st.display == [Shirt] && st.loadMoreVisible
      && st.appliedFilters == [] && st.searchText == "" && st.sortValue == "ascendingOrder"
      && Consistent(st, titleOrder)
  {
    var s0 := Start("", Fetched([Shirt]));
    assert s0.allProducts == [Shirt] && s0.appliedFilters == [] && s0.searchText == "";
    var s1 := Step(s0, SortChanged("ascendingOrder"), titleOrder);
    assert s1 == ApplyFiltersAndSorting(s0.(sortValue := "ascendingOrder"), titleOrder);
    ExampleViews(titleOrder);
    assert s1.display == [Shirt];
    assert LoadMoreVisible([], "");
  }

  /** The example's state after the cheaper `Bag` is loaded on top of the
      sorted first page. */
  lemma ExampleBagLoaded(titleOrder: (string, string) -> bool)
    ensures var s1 := Step(Start("", Fetched([Shirt])), SortChanged("ascendingOrder"), titleOrder);
      var s2 := Step(s1, LoadMore(Fetched([Bag])), titleOrder);
      && s2.display == [Shirt, Bag] && s2.allProducts == [Shirt, Bag]
      && s2.appliedFilters == [] && s2.searchText == "" && s2.sortValue == "ascendingOrder"
  {
    ExampleSortChosen(titleOrder);
    var s1 := Step(Start("", Fetched([Shirt])), SortChanged("ascendingOrder"), titleOrder);
    assert s1.loadMoreVisible && s1.allProducts == [Shirt];
    var s2 := LoadMoreClick(s1, Fetched([Bag]));
    assert Step(s1, LoadMore(Fetched([Bag])), titleOrder) == s2;
    assert s2.allProducts == [Shirt] + [Bag] == [Shirt, Bag];
    assert s2.display == s2.allProducts;
  }

  /** As written, a fetch shows the accumulated products in fetch order even
      when the sort box asks for another order: after choosing "ascendingOrder"
      and loading a cheaper product, the display lists it after a dearer one. */
  lemma FetchIgnoresSortBox(titleOrder: (string, string) -> bool)
    ensures var sorted := Run(Start("", Fetched([Shirt])), [SortChanged("ascendingOrder")], titleOrder);
      var st := Run(Start("", Fetched([Shirt])), [SortChanged("ascendingOrder"), LoadMore(Fetched([Bag]))], titleOrder);
      && Consistent(sorted, titleOrder)
      && st.display == [Shirt, Bag]
      && View(st.allProducts, st.appliedFilters, st.searchText, st.sortValue, titleOrder) == [Bag, Shirt]
      && !Consistent(st, titleOrder)
  {
    var e1, e2 := SortChanged("ascendingOrder"), LoadMore(Fetched([Bag]));
    var s0 := Start("", Fetched([Shirt]));
    RunTwo(s0, e1, e2, titleOrder);
    ExampleSortChosen(titleOrder);
    ExampleBagLoaded(titleOrder);
    ExampleViews(titleOrder);
  }

  /** Running one or two events is stepping through them in order. */
  lemma RunTwo(st: ListState, e1: Event, e2: Event, titleOrder: (string, string) -> bool)
    ensures Run(st, [e1], titleOrder) == Step(st, e1, titleOrder)
    ensures Run(st, [e1, e2], titleOrder) == Step(Step(st, e1, titleOrder), e2, titleOrder)
  {
    var s1 := Step(st, e1, titleOrder);
    assert [e1, e2][1..] == [e2];
    assert Run(st, [e1], titleOrder) == Run(s1, [], titleOrder);
    assert Run(s1, [e2], titleOrder) == Run(Step(s1, e2, titleOrder), [], titleOrder);
  }

  /** The corrected fetch: after appending the page, the display is
      recomputed as `applyFiltersAndSorting` would, so it honours the sort box. */
  function FetchProductsResorting(st: ListState, outcome: FetchOutcome, titleOrder: (string, string) -> bool): (r: ListState)
    ensures outcome.FetchFailed? ==> r == st
    ensures outcome.Fetched? ==> r.allProducts == st.allProducts + outcome.page
    ensures outcome.Fetched? ==> Consistent(r, titleOrder)
  {
    match outcome
    case FetchFailed => st
    case Fetched(_) => ApplyFiltersAndSorting(FetchProducts(st, outcome), titleOrder)
  }

  /** With no filter, no search text and no order chosen the two fetches agree. */
  lemma FetchResortingAgrees(st: ListState, outcome: FetchOutcome, titleOrder: (string, string) -> bool)
    requires Consistent(st, titleOrder)
    requires st.appliedFilters == [] && st.searchText == "" && ParseSortKey(st.sortValue) == Unsorted
    ensures FetchProductsResorting(st, outcome, titleOrder) == FetchProducts(st, outcome)
  {
    if outcome.Fetched? {
      ViewUnfiltered(st.allProducts + outcome.page, st.sortValue, titleOrder);
    }
  }

  /** One event with the corrected fetch. */
  function StepResorting(st: ListState, e: Event, titleOrder: (string, string) -> bool): ListState {
    match e
    case LoadMore(outcome) =>
      if st.loadMoreVisible
      then FetchProductsResorting(st.(pageNumber := st.pageNumber + 1), outcome, titleOrder)
      else st
    case _ => Step(st, e, titleOrder)
  }

  function RunResorting(st: ListState, events: seq<Event>, titleOrder: (string, string) -> bool): ListState
    decreases |events|
  {
    if |events| == 0 then st else RunResorting(StepResorting(st, events[0], titleOrder), events[1..], titleOrder)
  }

  lemma StepResortingConsistent(st: ListState, e: Event, titleOrder: (string, string) -> bool)
    requires Consistent(st, titleOrder)
    ensures Consistent(StepResorting(st, e, titleOrder), titleOrder)
  {
  }

  /** With the corrected fetch the display list always is the view of the
      state, from the first page on. */
  lemma {:induction false} RunResortingConsistent(st: ListState, events: seq<Event>, titleOrder: (string, string) -> bool)
    requires Consistent(st, titleOrder)
    ensures Consistent(RunResorting(st, events, titleOrder), titleOrder)
    decreases |events|
  {
    if |events| > 0 {
      StepResortingConsistent(st, events[0], titleOrder);
      RunResortingConsistent(StepResorting(st, events[0], titleOrder), events[1..], titleOrder);
    }
  }

  lemma InitialConsistent(sortValue: string, titleOrder: (string, string) -> bool)
    ensures Consistent(Initial(sortValue), titleOrder)
  {
    assert Trim("") == "";
  }
}
