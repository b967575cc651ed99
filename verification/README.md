# Storefront product list and product detail page, modelled in Dafny

This project models the client-side logic of a small storefront written in
JavaScript. The logic is split across two classes.

- `ProductList` (`js/products.js`) keeps the products fetched so far. It filters
  them by the checked categories and by the search box, sorts them by the
  choice in the sort box, shows or hides the "load more" button, and shows a
  result count.
- `ProductDetails` (`js/product_details.js`) runs the widgets of the detail
  page: a quantity counter, a save (heart) button, a description cut off at
  122 characters with a read-more link, the document title, and the numbered
  thumbnails and slider images.

The DOM is reduced to the values the handlers read and write. A page request
is passed in as its outcome: a page of products, or a failure.

Modules, one per concern:

- `Text` (`text.dfy`): the JavaScript string operations the pages use, with
  their JavaScript meaning. These are `toLowerCase` (ASCII letters only),
  `includes`, `trim` and `split("|")[0]`.
- `Sequences` (`sequences.dfy`): the distinct values of a sequence in
  first-occurrence order, which is what `[...new Set(array)]` gives. Also the
  removal of every occurrence of a value.
- `StableSort` (`stable_sort.dfy`): a stable insertion sort over any "may
  precede" relation. For a total preorder it is proved to return a sorted
  permutation in which ties keep their input order. Section 23.1.3.30 of
  ECMA-262 (2023 edition) requires `Array.prototype.sort` to be stable in this
  way. It is also proved to be the only sequence with these properties.
- `Catalog` (`catalog.dfy`): the product record, the sort-box values, and the
  comparator each value selects.
- `ProductList` (`product_list.dfy`): the filter predicate, the display list,
  the category panel, the applied-filter list and the load-more rule. Also the
  page state and its events (load more, checkbox change, search input, sort
  change), with invariants over any sequence of events.
- `ProductDetails` (`product_details.dfy`): the detail-page widgets as small
  state records with their click transitions.

Modelling choices:

- Prices are whole cents and ratings are whole tenths of a point. The
  comparators only use the sign of a difference, so no precision is lost.
- The "title" order calls `localeCompare`. The model replaces it with a
  parameter `titleOrder`, an abstract collation relation on titles. Every
  ordering fact about titles assumes that this relation is a total preorder.
- A search event stands for the keystroke that the 300 ms debounce lets
  through. The keystrokes it swallows are not modelled.
- A click on a hidden load-more button or on a disabled decrement button does
  nothing, because the browser delivers no click to them.

Three behaviours of the code a reader might not expect, modelled as written:

- The applied categories are an array, not a set. Checking a box appends its
  value, and duplicates are possible. `ToggleDuplicateHarmless` shows that
  duplicates do not change the display.
- The page counter goes up before the request is made, even if the request
  then fails. `LoadMoreClick` models exactly this.
- A successful fetch resets the display to every accumulated product. It does
  not recompute the display from the filters and the sort box (see Findings).

## Model

| member | source | states |
|---|---|---|
| Text.ToLower | js/products.js:131-133 | Lower-casing keeps the length and maps each ASCII capital letter to its small letter. All other characters are kept. |
| Text.ToLowerIdempotent | js/products.js:131-133 | Lower-casing an already lower-cased text changes nothing. |
| Text.ContainsIffOccurs | js/products.js:131-133 | `includes` holds exactly when the search text occurs at some position of the title. |
| Text.ContainsEmpty | js/products.js:131-133 | Every title includes the empty search text. |
| Text.Contains | js/products.js:131-133 | `includes` never holds for a search text longer than the title. It always holds for the empty text and for a prefix, and a non-empty text needs its first character in the title. |
| Text.Trim | js/products.js:151 | `trim` returns the slice of the input that has only spaces before and after it, and no space at either end. It is empty exactly when the input is all spaces. |
| Text.TrimUnique | js/products.js:151 | Any slice with only spaces around it and no space at either end is the trimmed text, so the contract above determines `trim`. |
| Text.BeforeFirst | js/product_details.js:176 | `split("|")[0]` is a prefix of the title without any "|". It stops at the first "|" or at the end. |
| Text.BeforeFirstUnique | js/product_details.js:176 | Any prefix with those three properties is `split("|")[0]`. |
| Sequences.Distinct | js/products.js:83-85 | The category values have no duplicates and are exactly the values of the input. They appear in the order in which each value first occurs. |
| Sequences.DistinctAppend | js/products.js:47 | Appending values never moves the distinct values already present: the old list is a prefix of the new one. |
| Sequences.RemoveAll | js/products.js:117-119 | Removing a value leaves none of it and keeps the count of every other value. The order is kept, so the result is a subsequence of the input. |
| StableSort.Sort | js/products.js:136-149 | The sorted list is a permutation of its input. |
| StableSort.SortSorted | js/products.js:136-149 | For a total preorder, every element may precede every later one in the sorted list. |
| StableSort.SortStable | js/products.js:136-149 | For a total preorder, the elements of each class of equal keys keep their input order. |
| StableSort.SortIsTheStableSort | js/products.js:136-149 | Any sorted, stable permutation of the input equals the sorted list. |
| StableSort.SortOfSorted | js/products.js:136-149 | A list that is already sorted is returned unchanged. |
| Catalog.ParseSortKey | js/products.js:137-147 | Each of the four known sort-box values selects its own order. Any other value falls to the default branch. |
| Catalog.ParseSortKeyValue | js/products.js:137-147 | Each order is selected by its own value and by no other value. |
| Catalog.Compare | js/products.js:136-149 | Per sort-box value the comparator's sign says: cheaper first, dearer first, higher rating first, collation order of titles. The default branch returns 0. |
| Catalog.CompareAntisymmetric | js/products.js:136-149 | Swapping the two products flips the comparator's sign and keeps a zero, as a consistent comparator must. |
| Catalog.LocaleCompare | js/products.js:144-145 | The title comparator is non-positive exactly when the collation order puts the first title no later than the second. |
| Catalog.PrecedesMeaning | js/products.js:138-147 | "May precede" means: price ascending, price descending, rating descending, collation order of titles, or always (default branch). |
| Catalog.PrecedesTotalPreorder | js/products.js:136-149 | Every comparator is a total preorder. For the title comparator this holds when the collation order is one. |
| ProductList.MatchesCategory | js/products.js:128-130 | With no category applied every product passes. Otherwise a product passes exactly when some applied entry equals its category. |
| ProductList.MatchesSearch | js/products.js:131-133 | A product passes exactly when the lower-cased search text occurs at some position of the lower-cased title. The empty text always passes. |
| ProductList.Matches | js/products.js:127-134 | A product is kept exactly when both the category test and the search test pass. |
| ProductList.FilterProducts | js/products.js:126-135 | Every kept product matches the category filter and the case-insensitive search. Each matching product is kept as often as it was fetched, and fetch order is kept. |
| ProductList.View | js/products.js:124-149 | Every displayed product matches. The display is a permutation of the matching products. |
| ProductList.ViewSortIndependent | js/products.js:136-149 | The sort box changes neither which products are shown nor how many. |
| ProductList.ViewSortedStable | js/products.js:136-149 | The display is sorted by the selected comparator, and equal keys keep fetch order. |
| ProductList.ViewIsTheStableSort | js/products.js:136-149 | No other arrangement of the matching products is sorted and stable. |
| ProductList.ViewOrder | js/products.js:138-145 | Per sort-box value: prices never decrease, prices never increase, ratings never increase, or titles follow the collation order. |
| ProductList.ViewUnsortedKeepsFetchOrder | js/products.js:146-147 | An unknown sort-box value leaves the matching products in fetch order. |
| ProductList.FilterNothing | js/products.js:127-135 | With no category and an empty search, every product passes, in order. |
| ProductList.ViewUnfiltered | js/products.js:127-147 | With no category and an empty search, every fetched product is shown. With an unknown sort value they are shown exactly in fetch order. |
| ProductList.FilterMembershipOnly | js/products.js:128-130 | Two applied-filter lists with the same members give the same display, whatever their duplicates or order. |
| ProductList.FilterCaseInsensitive | js/products.js:131-133 | Search texts that differ only in ASCII letter case give the same display. |
| ProductList.Categories | js/products.js:82-85 | The filter panel lists each category of a fetched product exactly once, in first-occurrence order, and lists nothing else. |
| ProductList.CategoriesGrowByAppend | js/products.js:47-50 | A newly fetched page never moves the categories already in the panel. |
| ProductList.ToggleFilter | js/products.js:113-119 | Checking a box appends its value. Unchecking removes every occurrence of the value and keeps the other entries with their counts and order. |
| ProductList.ToggleRoundTrip | js/products.js:115-119 | Checking and then unchecking a value that was not applied restores the list. |
| ProductList.ToggleDuplicateHarmless | js/products.js:115-116 | Checking a value that is already applied adds a duplicate that does not change the display. |
| ProductList.LoadMoreVisible | js/products.js:150-153 | The button is shown exactly when no category is applied and the search text is all spaces. |
| ProductList.UntrimmedSearch | js/products.js:133 | The button rule trims the search text but the filter does not. A lone space keeps the button shown while no title matches. |
| ProductList.Initial | js/products.js:6-9 | The page starts at page 1 with no products, no filters, an empty search and the button shown. |
| ProductList.RenderProducts | js/products.js:56-59 | The result label counts the rendered list, and nothing else in the state changes. |
| ProductList.FetchProducts | js/products.js:41-55 | A fetched page is appended to the accumulated products. The display becomes all of them, the label counts them, and the panel lists their categories. A failure changes nothing. |
| ProductList.LoadMoreClick | js/products.js:78-81 | A click raises the page counter by exactly one, whatever the request's outcome. |
| ProductList.ApplyFiltersAndSorting | js/products.js:124-155 | The display, the button and the label are recomputed from the current state. The products, page, filters, search and sort value are untouched. |
| ProductList.Start | js/products.js:12-28 | The constructor leaves page 1, the first page's products (none if the request failed), all of them displayed and counted, their categories in the panel, no filters and an empty search. |
| ProductList.Step | js/products.js:29-40 | A click on a hidden button does nothing, and a visible one raises the page by one. Every other event leaves the products and page alone and recomputes the display and the button. Only the event's own field changes: filters, search text or sort value. Products are never lost. |
| ProductList.StartInvariant | js/products.js:12-28 | The state after the constructor's first request satisfies the page invariant. |
| ProductList.StepInvariant | js/products.js:29-40 | Every event keeps the page invariant and never shrinks the accumulated products. |
| ProductList.RunInvariant | js/products.js:47 | After any sequence of events the invariant holds: the label counts the display, the panel matches the products, the display comes from the fetched products, and a shown button means no category is applied. The old product list is a prefix of the new one, and the page counter has risen by exactly the number of load-more clicks. |
| ProductList.ExampleViews | js/products.js:138-139 | A $20 shirt fetched before a $10 bag is displayed after it under "ascendingOrder". |
| ProductList.ExampleFilters | js/products.js:127-135 | Category "men" with search "sh" leaves only the shirt. |
| ProductList.ExampleNoMatch | js/products.js:131-135 | A search matching no title leaves an empty display. |
| ProductList.FetchIgnoresSortBox | js/products.js:48 | After "ascendingOrder" is chosen and a cheaper product is loaded, the display is out of price order and no longer the view of the state. |
| ProductList.FetchProductsResorting | js/products.js:47-49 | The corrected fetch appends the page and leaves a display that is the view of the new state. |
| ProductList.FetchResortingAgrees | js/products.js:47-49 | With no filter, no search and no order chosen, the corrected fetch and the written fetch agree. |
| ProductList.InitialConsistent | js/products.js:6-9 | The initial state's display is the view of that state. |
| ProductList.StepResortingConsistent | js/products.js:124-155 | With the corrected fetch, every event keeps the display equal to the view of the state. |
| ProductList.RunResortingConsistent | js/products.js:124-155 | With the corrected fetch, the display equals the view of the state after any sequence of events. |
| ProductDetails.UpdateCount | js/product_details.js:125-130 | The count moves by exactly one, and the decrement button ends disabled exactly when the count is 1. |
| ProductDetails.CounterClick | js/product_details.js:106 | A click on the disabled decrement button changes nothing. From a valid selector a click stays valid and moves the count up by one, or down by one but never below 1. |
| ProductDetails.CounterClicksValid | js/product_details.js:125-132 | From a valid selector, any clicks keep the count at least 1, with decrement disabled exactly at 1. |
| ProductDetails.CounterFromMarkup | js/product_details.js:106-107 | The markup's start (count 1, decrement disabled) is valid, so the count never drops below 1. |
| ProductDetails.IncrementDecrement | js/product_details.js:127 | An increment followed by a decrement restores the count, and from a valid state the whole selector. |
| ProductDetails.ToggleHeart | js/product_details.js:168-172 | A click flips the saved flag and shows the icon that matches the new flag. |
| ProductDetails.ToggleHeartInvolution | js/product_details.js:169 | Two clicks restore a button whose icon matches its flag. |
| ProductDetails.SplitDescription | js/product_details.js:180-181 | The two parts concatenate to the text. The first part has min(122, length) characters, and the second is empty for texts of at most 122 characters. |
| ProductDetails.ReadMoreClick | js/product_details.js:188-197 | A click flips whether the dots show and always leaves dots, extra text and link text in agreement. |
| ProductDetails.ReadMoreReachable | js/product_details.js:182-197 | Every reachable state is coherent: dots hidden exactly when the extra text shows, exactly when the link reads "Read less". After n clicks the text is expanded exactly when n is odd. |
| ProductDetails.ReadMoreClicksFrom | js/product_details.js:188-197 | From a coherent state, n clicks keep coherence and flip the expansion n times. |
| ProductDetails.ReadMoreTwice | js/product_details.js:182-197 | Two clicks restore any state a click produced. From the rendered state they restore what is shown but not the literal dots style. |
| ProductDetails.SetPageTitle | js/product_details.js:176 | The new title's text before its first "|" is the old prefix plus one space, followed by "| " and the product title. |
| ProductDetails.SetPageTitleRawTwice | js/product_details.js:176 | Fed back in unchanged, the assigned text gains one character: another space before the "|". The assigned text is therefore not a fixed point of the computation. |
| ProductDetails.Thumbnails | js/product_details.js:84-95 | Five thumbnails numbered 1 to 5 in order, each showing the product's image and title. |
| ProductDetails.Slides | js/product_details.js:96-101 | Five slider images numbered 1 to 5 in order, each showing the product's image and title. |
| ProductDetails.ThumbnailShowsItsSlide | js/product_details.js:153-160 | Every thumbnail shifts the slider to an existing slide that carries the thumbnail's own number and image. |
| ProductDetails.GalleryIds | js/product_details.js:85-99 | The thumbnail ids and the slide ids are both exactly 1, 2, 3, 4, 5. |

## Left out

- Network access is left out: the `fetch` calls, the request URLs, JSON parsing and error logging. A request is passed in as its outcome.
- Overlapping requests are left out. A load-more click is modelled as completing its request before the next event, so a second click while a request is pending is not modelled.
- The 300 ms `debounce` is left out, because its meaning depends on timers and wall-clock time.
- The HTML templates and DOM writes are left out. Only the values they set are kept: the display list, the label count, the button state, the checkbox values and the display styles.
- The filter-drawer handlers (`toggleFilter`, `handleOpenFilterEvent`) are left out. They only wire events and hold no state the model needs.
- Scrolling, slider pixel offsets and the star-rating width are left out, because they are floating-point arithmetic over DOM measurements. Only the slide index that a thumbnail selects is modelled.
- The URL query parsing for the product id and `focusOnHtmlElement` are left out.
- The fixed description text of `renderMoreText` is left out. The split is modelled for any text.
- `parseInt` on the count input is left out. The input only ever holds the integer written to it, so the model keeps that integer.
- The result label is modelled as its count. The initial label text comes from the page markup, which is not part of this model; the model starts the count at 0.
- Text.ToLower: lower-cases ASCII letters only. JavaScript's `toLowerCase` also maps non-ASCII letters.
- Catalog.LocaleCompare: uses an abstract collation order instead of the locale's rules. Title ordering is proved only relative to that order.
- Strings are sequences of Unicode scalar values, while JavaScript strings are sequences of UTF-16 code units. A character outside the Basic Multilingual Plane is one character here and two code units there.
- ProductDetails.SplitDescription: `length` and `substring` at js/product_details.js:180-181 count UTF-16 code units. The model counts scalar values, so a text with characters outside the Basic Multilingual Plane is split at a different place.
- ProductDetails.SetPageTitle: takes as input the value the `document.title` getter returns. The getter strips and collapses ASCII whitespace (HTML standard), and that normalisation is not modelled.
- ProductDetails.SetPageTitleRawTwice: feeds the assigned text straight into a second call. On the page, the getter collapses the doubled space first, so a second call with the same title typically gives back the same title.
- ProductList.Initial: the shown load-more button and the empty search text come from the page markup, which is not part of this model.
- ProductList.Start: the first page request completes before any user event. The constructor at js/products.js:26-27 does not wait for `fetchProducts` before it installs the event listeners, so an event arriving before the first page is not modelled.

## Findings

| source | as written | input that shows it | evidently intended | confidence | as-written member | corrected member |
|---|---|---|---|---|---|---|
| js/products.js:48 | After a successful fetch the display becomes every accumulated product in fetch order. The sort box and the search text are ignored, although the sort box keeps showing its value. | Load a $20 shirt, choose "ascendingOrder", then load more and receive a $10 bag. The display is shirt, bag, but the sort box asks for bag, shirt. | After a fetch, recompute the display as `applyFiltersAndSorting` does, so it always matches the sort box, filters and search. | medium; not executed | ProductList.FetchIgnoresSortBox | ProductList.RunResortingConsistent |
