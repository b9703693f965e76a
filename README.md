# E-store storefront core, modelled in Dafny

This project models the logic at the heart of the e-store React/Redux
storefront and proves properties of it. The logic covered:

- **Catalog page** (`src/pages/ProductsPage.tsx`). A product is shown when
  it passes six checks: search text, categories, price range, rating
  threshold, in-stock flag and brands. The shown products are then sorted
  in one of five modes by the engine's stable `Array.prototype.sort`. The
  page also builds a sorted, duplicate-free brand list and toggles ids in
  the category and brand multi-selects.
- **Filter state** (`src/redux/slices/filtersSlice.ts`). One setter per
  field, and `clearFilters`.
- **Product state** (`src/redux/slices/productsSlice.ts`). The stock guard
  `updateProductStock` and the `loading`/`error` setters.
- **Wishlist** (`src/redux/slices/wishlistSlice.ts`). Add, which ignores
  products already listed; remove by product id; clear.
- **Call sites.**
  - The product page's lookup, quantity stepper, add-to-cart and wishlist toggle.
  - The product card's add-to-cart (quantity 1) and wishlist toggle.
  - The wishlist page's product list.
  - The home page's featured and trending lists.

How the code is modelled:

- Reducers that assign fields of the Redux state become classes whose
  methods assign those fields: `FiltersStore`, `ProductsStore`,
  `WishlistStore`.
- Each such method is specified by a function of the old state:
  `Cleared`, `StockUpdated`, `Added`, `Removed`. The properties are lemmas
  about those functions.
- The sort step copies the filtered products into an array and sorts it
  in place (`Sorting.SortInPlace`, a stable insertion sort). It is proved
  to produce `Sorting.Sort`. Sortedness, permutation and stability are
  proved about `Sort`.
- The cart's reducer is not part of this model. A `CartLog` records the
  `addToCart` commands the pages dispatch, in order, and gives them no
  effect.

Two behaviours of the code are worth knowing. The model states both:

- **Default filters hide expensive products.** The slice's initial price
  range is [0, 1000]. With default filters, any product priced above 1000
  is hidden (`ProductsPage.InitialFiltersKeep`).
- **Toggling twice does not always restore the list.** Toggling an absent
  id twice restores it (`ToggleTwiceAbsent`). Toggling a present id twice
  removes every occurrence of it and then appends one at the end. The
  elements stay the same, but the list comes back unchanged only when the
  id occurred once, as its last element (`ToggleTwicePresent`). Otherwise
  the id moves to the end (`ToggleTwiceReorders`: `[a, b]` becomes
  `[b, a]`), and a repeated id also loses its extra occurrences
  (`ToggleTwiceRepeated`: `[a, b, a]` becomes `[b, a]`).

## Model

| member | source | states |
|---|---|---|
| `ProductsPage.Visible` | src/pages/ProductsPage.tsx:33-66 | A product is kept iff it is in the catalog and passes all six checks. The result is a subsequence of the catalog and no longer than it. |
| `ProductsPage.ChecksMeaning` | src/pages/ProductsPage.tsx:35-63 | Each rejection test in positive form. Price bounds are inclusive at both ends. The rating threshold applies only when positive and then keeps `rating >= threshold`. The stock flag drops only products with stock 0. An empty category list, brand list or query restricts nothing. |
| `ProductsPage.SearchMeaning` | src/pages/ProductsPage.tsx:35-36 | The search check holds iff the query is empty, or the lower-cased query occurs at some position of the lower-cased name, or of the lower-cased description. Either field suffices. |
| `ProductsPage.SearchIgnoresCase` | src/pages/ProductsPage.tsx:35-36 | Two queries with the same lower-cased form select the same products. |
| `ProductsPage.InitialFiltersKeep` | src/pages/ProductsPage.tsx:46-48 | Under the slice's initial filters, a product is shown iff 0 <= price <= 1000. |
| `ProductsPage.RatingThresholdExample` | debug-rating.js:2-35 | On the script's six sample products, thresholds 0 and 4 keep all six and threshold 5 keeps none. |
| `ProductsPage.ModeOf` | src/pages/ProductsPage.tsx:69-86 | The `featured` branch is taken exactly when `sortBy` is none of `price-low`, `price-high`, `rating`, `newest`; so an unknown key sorts like `featured`. |
| `ProductsPage.ComparatorConsistent` | src/pages/ProductsPage.tsx:70-85 | Each of the five comparators is consistent: swapping its arguments flips the sign, and "not after" is transitive. |
| `ProductsPage.SortedMeaning` | src/pages/ProductsPage.tsx:70-85 | Being sorted by a mode's comparator means the following. `price-low`: prices non-decreasing. `price-high`: prices non-increasing. `rating`: ratings non-increasing. `newest`: ids in descending string order. `featured`: no featured product after a non-featured one. |
| `ProductsPage.InsertFeatured` | src/pages/ProductsPage.tsx:84 | Under the featured comparator, inserting into "featured products, then others" puts a featured product at the end of the first group and any other product at the very end. |
| `ProductsPage.SplitAppend` | src/pages/ProductsPage.tsx:84 | Appending a product to the input extends its own group (featured or not) of the split. |
| `ProductsPage.FeaturedFirst` | src/pages/ProductsPage.tsx:82-85 | The stable sort by the featured comparator equals all featured products in input order followed by all others in input order. |
| `ProductsPage.SortedView` | src/pages/ProductsPage.tsx:32-89 | The shown list: the visible products, stably sorted by the selected mode. It is no longer than the catalog. |
| `ProductsPage.SortedViewMembers` | src/pages/ProductsPage.tsx:33-88 | The shown list is a permutation (equal multisets) of the visible products. A product appears in it iff it is in the catalog and passes all six checks. |
| `ProductsPage.SortedViewOrder` | src/pages/ProductsPage.tsx:69-81 | The shown list is sorted by its mode's comparator. This gives ascending or descending price, descending rating, or descending id, as the mode says. |
| `ProductsPage.SortedViewStable` | src/pages/ProductsPage.tsx:69-86 | Products that compare equal in the selected mode appear in the same relative order as in the catalog. |
| `ProductsPage.SortedViewFeatured` | src/pages/ProductsPage.tsx:82-85 | For `featured` or an unknown key, the shown list is the featured visible products in catalog order, then the other visible products in catalog order. |
| `ProductsPage.FilteredAndSortedProducts` | src/pages/ProductsPage.tsx:32-89 | Filtering, copying into an array and sorting the array in place yields exactly `SortedView`. |
| `ProductsPage.StringOrderConsistent` | src/pages/ProductsPage.tsx:92 | The character-code string order used by the default `sort()` is consistent. |
| `ProductsPage.SortDistinctStrings` | src/pages/ProductsPage.tsx:92 | Sorting distinct strings gives the same strings in strictly ascending order. |
| `ProductsPage.UniqueBrands` | src/pages/ProductsPage.tsx:91-93 | A brand is listed iff some catalog product has it. The list is strictly ascending, so no brand appears twice. |
| `ProductsPage.Toggled` | src/pages/ProductsPage.tsx:96-98 | After a toggle the id is present iff it was absent, and every other value keeps its membership. An absent id is appended at the end; a present id loses only its own occurrences, the rest keeping order and repeats (`ToggleRemovesInOrder`). |
| `ProductsPage.ToggleRemovesInOrder` | src/pages/ProductsPage.tsx:96-98 | Toggling a present id drops exactly its occurrences: every other element keeps its repeat count and its relative order. |
| `ProductsPage.ToggleTwiceAbsent` | src/pages/ProductsPage.tsx:96-98 | Toggling an absent id twice restores the list exactly. |
| `ProductsPage.ToggleTwicePresent` | src/pages/ProductsPage.tsx:96-98 | Toggling a present id twice keeps the same set of elements. It restores the list if and only if the id occurs only once, as the last element. |
| `ProductsPage.ToggleTwiceReorders` | src/pages/ProductsPage.tsx:96-98 | Toggling `a` twice in `[a, b]` gives `[b, a]`. |
| `ProductsPage.ToggleTwiceRepeated` | src/pages/ProductsPage.tsx:96-98 | Toggling `a` twice in `[a, b, a]` gives `[b, a]`: the earlier occurrence is dropped. |
| `ProductsPage.HandleCategoryChange` | src/pages/ProductsPage.tsx:95-100 | The filter state's category list becomes its toggle by the id. Every other field is unchanged. |
| `ProductsPage.HandleBrandChange` | src/pages/ProductsPage.tsx:102-107 | The filter state's brand list becomes its toggle by the brand. Every other field is unchanged. |
| `Sorting.Insert` | src/pages/ProductsPage.tsx:69-86 | Inserting one element grows the sequence by exactly one. |
| `Sorting.Sort` | src/pages/ProductsPage.tsx:69-86 | The sorted arrangement has the input's length. |
| `Sorting.SortPermutes` | src/pages/ProductsPage.tsx:69-86 | `Sort` returns a permutation of its input. |
| `Sorting.InsertSorted` | src/pages/ProductsPage.tsx:69-86 | Inserting into a sorted sequence keeps it sorted, for a consistent comparator. |
| `Sorting.SortSorted` | src/pages/ProductsPage.tsx:69-86 | `Sort` orders its result by any consistent comparator. |
| `Sorting.InsertTies` | src/pages/ProductsPage.tsx:69-86 | Inserting `x` keeps each group of mutually tied elements in the order of `t + [x]`. |
| `Sorting.SortStable` | src/pages/ProductsPage.tsx:69-86 | `Sort` is stable, as section 23.1.3.30 of ECMA-262 (2023) requires: the elements tied with any `z` keep their input order. |
| `Sorting.InsertAt` | src/pages/ProductsPage.tsx:69-86 | When every element from position `j` on compares greater than `x`, and the one before does not, `Insert` puts `x` at position `j`. |
| `Sorting.InsertInPlace` | src/pages/ProductsPage.tsx:69-86 | Shifting the larger elements of the sorted prefix right and dropping `a[i]` into the gap turns the prefix into `Insert` of `a[i]`. The rest of the array is untouched. |
| `Sorting.SortInPlace` | src/pages/ProductsPage.tsx:69-86 | The array sorted in place equals `Sort` of its old contents. |
| `Seqs.Filter` | src/pages/ProductsPage.tsx:33-66 | `filter` keeps only elements satisfying the test, and each passing value appears in the result. The result is a subsequence, never longer than the input. |
| `Seqs.FilterCounts` | src/pages/ProductsPage.tsx:33-66 | `filter` keeps every occurrence of a passing value and no occurrence of a failing one. |
| `Seqs.FilterAppend` | src/pages/ProductsPage.tsx:33-66 | Filtering distributes over concatenation. |
| `Seqs.Dedup` | src/pages/ProductsPage.tsx:92 | `Array.from(new Set(...))` keeps exactly the input's values, each once. |
| `Seqs.NoDupPermutation` | src/pages/ProductsPage.tsx:92 | Any permutation of a duplicate-free sequence is duplicate-free. |
| `Seqs.Take` | src/pages/HomePage.tsx:13-14 | `slice(0, n)` is the prefix of length `min(n, length)`. |
| `Strings.Lower` | src/pages/ProductsPage.tsx:35-36 | Lower-casing keeps the length and lowers each character in place. |
| `Strings.IncludesIffOccurs` | src/pages/ProductsPage.tsx:35-36 | `includes` holds iff the part occurs at some position of the text. |
| `Strings.LexCompare` | src/pages/ProductsPage.tsx:80 | The string comparison returns -1, 0 or 1. |
| `Strings.LexCompareZero` | src/pages/ProductsPage.tsx:80 | The comparison is 0 exactly for equal strings. |
| `Strings.LexCompareFlip` | src/pages/ProductsPage.tsx:80 | Swapping the arguments negates the comparison. |
| `Strings.LexCompareTransitive` | src/pages/ProductsPage.tsx:80 | "Not after" is transitive. |
| `Strings.DecimalString` | src/redux/slices/wishlistSlice.ts:22 | The decimal rendering of a clock reading is non-empty and all digits, has no leading zero, and denotes the reading. |
| `FiltersSlice.Cleared` | src/redux/slices/filtersSlice.ts:48-55 | `clearFilters` gives the initial state except that `sortBy` and `viewMode` keep their old values. |
| `FiltersSlice.ClearedIdempotent` | src/redux/slices/filtersSlice.ts:48-55 | Clearing twice equals clearing once. |
| `FiltersSlice.FiltersStore.constructor` | src/redux/slices/filtersSlice.ts:9-18 | The store starts in the initial state. Categories and brands are empty, the price range is [0, 1000], the rating is 0, in-stock is off, the query is empty, the sort key is `featured` and the view is grid. |
| `FiltersSlice.FiltersStore.SetSearchQuery` | src/redux/slices/filtersSlice.ts:24-26 | Overwrites the query with the payload. The other seven fields are unchanged. |
| `FiltersSlice.FiltersStore.SetCategory` | src/redux/slices/filtersSlice.ts:27-29 | Overwrites the category list. The other seven fields are unchanged. |
| `FiltersSlice.FiltersStore.SetPriceRange` | src/redux/slices/filtersSlice.ts:30-32 | Stores the pair as given, a minimum above the maximum included. The other seven fields are unchanged. |
| `FiltersSlice.FiltersStore.SetRating` | src/redux/slices/filtersSlice.ts:33-35 | Stores any number as the threshold. The other seven fields are unchanged. |
| `FiltersSlice.FiltersStore.SetInStock` | src/redux/slices/filtersSlice.ts:36-38 | Overwrites the stock flag. The other seven fields are unchanged. |
| `FiltersSlice.FiltersStore.SetBrands` | src/redux/slices/filtersSlice.ts:39-41 | Overwrites the brand list. The other seven fields are unchanged. |
| `FiltersSlice.FiltersStore.SetSortBy` | src/redux/slices/filtersSlice.ts:42-44 | Overwrites the sort key, unvalidated. The other seven fields are unchanged. |
| `FiltersSlice.FiltersStore.SetViewMode` | src/redux/slices/filtersSlice.ts:45-47 | Overwrites the view mode. The other seven fields are unchanged. |
| `FiltersSlice.FiltersStore.ClearFilters` | src/redux/slices/filtersSlice.ts:48-55 | The new state is `Cleared` of the old one. |
| `ProductsSlice.FindIndex` | src/redux/slices/productsSlice.ts:32 | `find` yields the first position whose product has the id, or nothing iff no product has it. |
| `ProductsSlice.FindProduct` | src/pages/ProductDetailPage.tsx:21-28 | The lookup returns the first catalog product with the route id. It returns nothing (the not-found branch) iff no product has that id. |
| `ProductsSlice.StockUpdated` | src/redux/slices/productsSlice.ts:30-36 | The catalog keeps its length under a stock update. |
| `ProductsSlice.StockDecrements` | src/redux/slices/productsSlice.ts:30-35 | When the first product with the id has `stock >= quantity`, its stock drops by exactly `quantity` to a non-negative value. Every other product is unchanged, including later products with the same id. |
| `ProductsSlice.StockGuardRejects` | src/redux/slices/productsSlice.ts:32-33 | An unknown id, or `stock < quantity`, leaves the catalog unchanged. |
| `ProductsSlice.StockStaysNonNegative` | src/redux/slices/productsSlice.ts:33-34 | If every stock is non-negative before any update, it still is after. |
| `ProductsSlice.NegativeQuantityRaisesStock` | src/redux/slices/productsSlice.ts:33-34 | A negative quantity passes the guard and raises the stock. |
| `ProductsSlice.ProductsStore.constructor` | src/redux/slices/productsSlice.ts:13-18 | The store starts with the given catalog and categories, not loading, and with no error. |
| `ProductsSlice.ProductsStore.SetLoading` | src/redux/slices/productsSlice.ts:24-26 | Overwrites `loading` only. |
| `ProductsSlice.ProductsStore.SetError` | src/redux/slices/productsSlice.ts:27-29 | Overwrites `error` only. |
| `ProductsSlice.ProductsStore.UpdateProductStock` | src/redux/slices/productsSlice.ts:30-36 | The catalog becomes `StockUpdated` of the old one. Categories, `loading` and `error` are unchanged. |
| `WishlistSlice.NewItem` | src/redux/slices/wishlistSlice.ts:21-25 | A pushed entry refers to the product and carries the timestamp. Its id is `wishlist-` followed by digits that denote the clock reading. |
| `WishlistSlice.Added` | src/redux/slices/wishlistSlice.ts:16-27 | After an add the product is listed, and no other product's membership changes. The old entries stay in place as a prefix, and at most one entry is added. |
| `WishlistSlice.Removed` | src/redux/slices/wishlistSlice.ts:28-30 | Remove keeps exactly the entries for other products, in their original order. The product is no longer listed, and no other product's membership changes. |
| `WishlistSlice.Toggled` | src/pages/ProductDetailPage.tsx:49-55 | After the wishlist toggle the product is listed iff it was not. Other products' membership is unchanged. |
| `WishlistSlice.AddPresent` | src/redux/slices/wishlistSlice.ts:18-20 | Adding a listed product leaves the items unchanged. |
| `WishlistSlice.AddAbsent` | src/redux/slices/wishlistSlice.ts:21-26 | Adding an unlisted product appends exactly one entry for it after the unchanged old entries. |
| `WishlistSlice.AddIdempotent` | src/redux/slices/wishlistSlice.ts:16-27 | A second add of the same product, at any later time, changes nothing. |
| `WishlistSlice.AddKeepsUnique` | src/redux/slices/wishlistSlice.ts:16-27 | Add keeps "at most one entry per product id". |
| `WishlistSlice.RemoveKeepsUnique` | src/redux/slices/wishlistSlice.ts:28-30 | Remove keeps "at most one entry per product id". |
| `WishlistSlice.RemoveAbsent` | src/redux/slices/wishlistSlice.ts:28-30 | Removing an unlisted product leaves the items unchanged. |
| `WishlistSlice.AddThenRemove` | src/redux/slices/wishlistSlice.ts:16-30 | Adding an unlisted product and then removing it restores the original items. |
| `WishlistSlice.WishlistStore.constructor` | src/redux/slices/wishlistSlice.ts:8-10 | The wishlist starts empty. |
| `WishlistSlice.WishlistStore.AddToWishlist` | src/redux/slices/wishlistSlice.ts:16-27 | The items become `Added` of the old ones. At most one entry per product is preserved. |
| `WishlistSlice.WishlistStore.RemoveFromWishlist` | src/redux/slices/wishlistSlice.ts:28-30 | The items become `Removed` of the old ones. At most one entry per product is preserved. |
| `WishlistSlice.WishlistStore.ClearWishlist` | src/redux/slices/wishlistSlice.ts:31-33 | The items become empty, which trivially has at most one entry per product. |
| `Cart.CartLog.Dispatch` | src/pages/ProductDetailPage.tsx:44 | A dispatched cart command is appended to the record of issued commands. |
| `ProductDetailPage.StepDown` | src/pages/ProductDetailPage.tsx:211 | `max(1, q - 1)` is at least 1, is `q - 1` when `q > 1`, and never exceeds `q` for `q >= 1`. |
| `ProductDetailPage.StepUp` | src/pages/ProductDetailPage.tsx:221 | `min(stock, q + 1)` never exceeds the stock, is `q + 1` when `q < stock`, and never exceeds `q + 1`. |
| `ProductDetailPage.ClickStaysInRange` | src/pages/ProductDetailPage.tsx:211-223 | One click on an enabled stepper button keeps the quantity at least 1, and at most the stock unless it is 1. |
| `ProductDetailPage.RunStaysInRange` | src/pages/ProductDetailPage.tsx:211-223 | From a quantity in range, any series of clicks stays in range. With stock >= 1, the quantity stays in [1, stock]. |
| `ProductDetailPage.DetailView.constructor` | src/pages/ProductDetailPage.tsx:19 | The quantity starts at 1. |
| `ProductDetailPage.DetailView.DecreaseClicked` | src/pages/ProductDetailPage.tsx:210-214 | Applies `StepDown` when the button is enabled (`q > 1`). Otherwise the quantity is unchanged. |
| `ProductDetailPage.DetailView.IncreaseClicked` | src/pages/ProductDetailPage.tsx:220-224 | Applies `StepUp` with the found product's stock when the button is enabled (`q < stock`). Otherwise the quantity is unchanged. |
| `ProductDetailPage.DetailView.AddToCartClicked` | src/pages/ProductDetailPage.tsx:43-47 | With stock 0 nothing happens. Otherwise `addToCart` is issued with the product and quantity, then the stock is updated by the same quantity, and the quantity resets to 1. When the stepper kept its range, the product's stock drops by exactly that quantity. |
| `ProductDetailPage.DetailView.WishlistToggleClicked` | src/pages/ProductDetailPage.tsx:49-55 | The items become the toggle by the route id, so the product's membership flips. |
| `ProductCard.IsInWishlistMeaning` | src/components/ProductCard.tsx:20 | `isInWishlist` holds iff some entry, at some position, has the card's product id. |
| `ProductCard.AddToCartClicked` | src/components/ProductCard.tsx:22-26 | With stock 0 nothing happens. Otherwise `addToCart` is issued with no quantity, then the stock is updated by exactly 1. |
| `ProductCard.AddOneLowersStockByOne` | src/components/ProductCard.tsx:24-25 | Updating by 1 lowers the first matching product's stock by exactly 1 when it is at least 1, touching nothing else. It leaves the catalog unchanged at stock 0. |
| `ProductCard.WishlistToggleClicked` | src/components/ProductCard.tsx:28-35 | The items become the toggle by the product's id, so its membership flips. |
| `WishlistPage.WishlistProducts` | src/pages/WishlistPage.tsx:15-17 | A product is shown iff it is in the catalog and some entry refers to its id. The list is a subsequence of the catalog, so it follows catalog order. |
| `WishlistPage.DroppedEntryExample` | src/pages/WishlistPage.tsx:15-17 | An entry for a product missing from the catalog shows nothing, so the list is shorter than the entry count. |
| `WishlistPage.CatalogOrderExample` | src/pages/WishlistPage.tsx:15-17 | Products added as `b` then `a` are shown as `a`, `b`, in catalog order. |
| `HomePage.FeaturedProducts` | src/pages/HomePage.tsx:13 | Every element is a featured catalog product. The list is the prefix of length `min(4, #featured)` of the featured products in catalog order. |
| `HomePage.TrendingProducts` | src/pages/HomePage.tsx:14 | Every element is a trending catalog product. The list is the prefix of length `min(8, #trending)` of the trending products in catalog order. |

## Left out

- **Cart reducer.** `src/redux/slices/cartSlice.ts` is not part of this model: how lines merge, how quantities are clamped, and totals. `addToCart` is only recorded, so no property about cart contents is stated.
- **Number semantics.** Prices and ratings are exact reals and quantities and stocks are integers. The model does not cover floating-point rounding, `NaN`, fractional quantities, or money display (tax, discount percentages, `Intl.NumberFormat`).
- **Strings.** `toLowerCase` is modelled as ASCII lower-casing. `localeCompare` and the default `sort()` are modelled as lexicographic order on characters. The model does not cover locale collation, Unicode case mapping, or UTF-16 code-unit order outside the basic plane.
- **Sort algorithm.** The engine may use any stable algorithm; the model uses insertion sort. No lemma proves that the stable sorted arrangement is unique, so the model does not show that every stable sort gives `Sort`'s result.
- **Clock and randomness.** `Date.now()` and `new Date().toISOString()` are the parameters `now` and `addedAt`.
- **Loading.** The catalog and categories loaded from JSON are the constructor's arguments.
- **User interface.** Rendering, routing, `navigate`, `preventDefault`, the selected image, the theme, the navbar search and the checkout flow are not modelled.
- **Rendering timing.** A handler reads the state it was rendered with. The model reads the store at the time of the click, which is the same thing when nothing happens in between.
