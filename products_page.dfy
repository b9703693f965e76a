/** The catalog page (src/pages/ProductsPage.tsx): the visible-product
    pipeline (a product is kept when it passes six checks, then the kept
    products are sorted in one of five modes), the brand list of the
    sidebar and the two multi-select toggles. */
module ProductsPage {
  import opened Types
  import opened Seqs
  import opened Strings
  import opened Sorting
  import FiltersSlice

  // ---------------------------------------------------------------------
  // The six checks. The source rejects a product on a condition; each
  // predicate here is the negation of that rejection.
  // ---------------------------------------------------------------------

  /** An empty query is falsy and rejects nothing; otherwise the lower-cased
      name or the lower-cased description must include the lower-cased query. */
  predicate MatchesSearch(query: string, p: Product) {
    query == [] || Includes(Lower(p.name), Lower(query)) || Includes(Lower(p.description), Lower(query))
  }

  predicate InSelectedCategories(selected: seq<string>, p: Product) {
    !(|selected| > 0 && p.category !in selected)
  }

  predicate InPriceRange(range: (real, real), p: Product) {
    !(p.price < range.0 || p.price > range.1)
  }

  predicate MeetsRating(threshold: real, p: Product) {
    !(threshold > 0.0 && p.rating < threshold)
  }

  predicate MeetsStock(inStock: bool, p: Product) {
    !(inStock && p.stock == 0)
  }

  predicate InSelectedBrands(selected: seq<string>, p: Product) {
    !(|selected| > 0 && p.brand !in selected)
  }

  /** The filter callback: a product is kept when no check rejects it. */
  predicate Passes(f: FilterState, p: Product) {
    && MatchesSearch(f.searchQuery, p)
    && InSelectedCategories(f.category, p)
    && InPriceRange(f.priceRange, p)
    && MeetsRating(f.rating, p)
    && MeetsStock(f.inStock, p)
    && InSelectedBrands(f.brands, p)
  }

  function PassesFilters(f: FilterState): Product -> bool {
    p => Passes(f, p)
  }

  /** `products.filter(...)`: the kept products in catalog order. */
  function Visible(products: seq<Product>, f: FilterState): (r: seq<Product>)
    ensures forall p :: p in r <==> p in products && Passes(f, p)
    ensures |r| <= |products|
    ensures Subsequence(r, products)
  {
    Filter(products, PassesFilters(f))
  }

  /** Each check in positive form: the bounds of the price range are
      inclusive, the rating threshold applies only when positive, the stock
      flag drops only products with zero stock, and empty selections
      restrict nothing. */
  lemma ChecksMeaning(f: FilterState, p: Product)
    ensures InPriceRange(f.priceRange, p) <==> f.priceRange.0 <= p.price <= f.priceRange.1
    ensures MeetsRating(f.rating, p) <==> f.rating <= 0.0 || p.rating >= f.rating
    ensures MeetsStock(f.inStock, p) <==> !f.inStock || p.stock != 0
    ensures InSelectedCategories(f.category, p) <==> f.category == [] || p.category in f.category
    ensures InSelectedBrands(f.brands, p) <==> f.brands == [] || p.brand in f.brands
    ensures f.searchQuery == [] ==> MatchesSearch(f.searchQuery, p)
  {
  }

  /** The search test is a case-insensitive substring test on the name or
      the description: either field containing the query suffices. */
  lemma SearchMeaning(query: string, p: Product)
    ensures MatchesSearch(query, p) <==>
      || query == []
      || (exists i :: OccursAt(Lower(p.name), Lower(query), i))
      || (exists i :: OccursAt(Lower(p.description), Lower(query), i))
  {
    IncludesIffOccurs(Lower(p.name), Lower(query));
    IncludesIffOccurs(Lower(p.description), Lower(query));
  }

  /** Queries that differ only in the case of ASCII letters select the same products. */
  lemma SearchIgnoresCase(q1: string, q2: string, p: Product)
    requires Lower(q1) == Lower(q2)
    ensures MatchesSearch(q1, p) == MatchesSearch(q2, p)
  {
    assert |q1| == |Lower(q1)| == |q2|;
  }

  /** With the slice's initial filters a product is shown exactly when its
      price lies in [0, 1000]: the default price range is itself a filter. */
  lemma InitialFiltersKeep(p: Product)
    ensures Passes(FiltersSlice.Initial, p) <==> 0.0 <= p.price <= 1000.0
  {
  }

  function SampleProduct(id: string, rating: real, price: real): Product {
    Product(id, "", "", price, None, [], "", None, rating, 0, 1, [], false, false, "", None)
  }

  /** The ratings and prices of the six products of debug-rating.js. */
  function RatingSamples(): seq<Product> {
    [SampleProduct("1", 4.8, 299.99), SampleProduct("2", 4.6, 249.99),
     SampleProduct("3", 4.7, 189.99), SampleProduct("4", 4.7, 349.99),
     SampleProduct("5", 4.9, 159.99), SampleProduct("6", 4.7, 799.99)]
  }

  /** The thresholds debug-rating.js tries on its six products: 0 and 4
      keep all six, 5 keeps none. */
  lemma RatingThresholdExample()
    ensures Visible(RatingSamples(), FiltersSlice.Initial) == RatingSamples()
    ensures Visible(RatingSamples(), FiltersSlice.Initial.(rating := 4.0)) == RatingSamples()
    ensures Visible(RatingSamples(), FiltersSlice.Initial.(rating := 5.0)) == []
  {
    var ps := RatingSamples();
    var f0, f4, f5 := FiltersSlice.Initial, FiltersSlice.Initial.(rating := 4.0), FiltersSlice.Initial.(rating := 5.0);
    forall p | p in ps ensures Passes(f0, p) && Passes(f4, p) && !Passes(f5, p) {
      assert p == ps[0] || p == ps[1] || p == ps[2] || p == ps[3] || p == ps[4] || p == ps[5];
    }
    FilterKeepsAll(ps, PassesFilters(f0));
    FilterKeepsAll(ps, PassesFilters(f4));
    FilterDropsAll(ps, PassesFilters(f5));
  }

  // ---------------------------------------------------------------------
  // The sort step.
  // ---------------------------------------------------------------------

  datatype SortMode = Featured | PriceLow | PriceHigh | Rating | Newest

  /** The `switch` on `sortBy`: an unrecognised value takes the `featured` branch. */
  function ModeOf(sortBy: string): (m: SortMode)
    ensures m == Featured <==> sortBy !in {"price-low", "price-high", "rating", "newest"}
  {
    if sortBy == "price-low" then PriceLow
    else if sortBy == "price-high" then PriceHigh
    else if sortBy == "rating" then Rating
    else if sortBy == "newest" then Newest
    else Featured
  }

  /** The comparator passed to `filtered.sort` in each branch. */
  function Compare(mode: SortMode, a: Product, b: Product): real {
    match mode
    case PriceLow => a.price - b.price
    case PriceHigh => b.price - a.price
    case Rating => b.rating - a.rating
    case Newest => LexCompare(b.id, a.id) as real
    case Featured => (if b.featured then 1.0 else 0.0) - (if a.featured then 1.0 else 0.0)
  }

  function Comparator(mode: SortMode): (Product, Product) -> real {
    (a, b) => Compare(mode, a, b)
  }

  /** Every branch's comparator is consistent, so the stable sort is well defined. */
  lemma ComparatorConsistent(mode: SortMode)
    ensures Consistent(Comparator(mode))
  {
    var cmp := Comparator(mode);
    forall a, b ensures FlipsAt(cmp, a, b) {
      if mode == Newest {
        LexCompareFlip(a.id, b.id);
      }
    }
    forall a, b, c ensures ChainsAt(cmp, a, b, c) {
      if mode == Newest && cmp(a, b) <= 0.0 && cmp(b, c) <= 0.0 {
        LexCompareTransitive(c.id, b.id, a.id);
      }
    }
  }

  /** What "sorted" means in each mode. */
  lemma SortedMeaning(mode: SortMode, s: seq<Product>)
    requires Sorted(Comparator(mode), s)
    ensures mode == PriceLow ==> forall i, j :: 0 <= i < j < |s| ==> s[i].price <= s[j].price
    ensures mode == PriceHigh ==> forall i, j :: 0 <= i < j < |s| ==> s[i].price >= s[j].price
    ensures mode == Rating ==> forall i, j :: 0 <= i < j < |s| ==> s[i].rating >= s[j].rating
    ensures mode == Newest ==> forall i, j :: 0 <= i < j < |s| ==> LexCompare(s[j].id, s[i].id) <= 0
    ensures mode == Featured ==> forall i, j :: 0 <= i < j < |s| && s[j].featured ==> s[i].featured
  {
    forall i, j | 0 <= i < j < |s| ensures Compare(mode, s[i], s[j]) <= 0.0 {
      assert Comparator(mode)(s[i], s[j]) <= 0.0;
    }
  }

  /** Inserting into "featured products, then the others" puts a featured
      product at the end of the first group and another one at the very end. */
  lemma {:induction false} InsertFeatured(fs: seq<Product>, ns: seq<Product>, x: Product)
    requires forall p :: p in fs ==> p.featured
    requires forall p :: p in ns ==> !p.featured
    ensures Insert(Comparator(Featured), fs + ns, x) == if x.featured then fs + [x] + ns else fs + ns + [x]
    decreases |ns|
  {
    var cmp := Comparator(Featured);
    if ns == [] {
      assert fs + ns == fs;
      if fs != [] {
        assert fs[|fs| - 1] in fs;
        assert cmp(fs[|fs| - 1], x) <= 0.0;
      }
    } else {
      var t := fs + ns;
      var n := ns[|ns| - 1];
      assert t[|t| - 1] == n;
      assert t[..|t| - 1] == fs + ns[..|ns| - 1];
      assert n in ns;
      if x.featured {
        assert cmp(n, x) > 0.0;
        assert forall p :: p in ns[..|ns| - 1] ==> p in ns;
        InsertFeatured(fs, ns[..|ns| - 1], x);
        assert ns == ns[..|ns| - 1] + [n];
      } else {
        assert cmp(n, x) <= 0.0;
      }
    }
  }

  /** Appending one product extends the group it belongs to. */
  lemma SplitAppend(s: seq<Product>, x: Product)
    ensures Filter(s + [x], IsFeatured) + Filter(s + [x], IsNotFeatured) ==
      if x.featured then Filter(s, IsFeatured) + [x] + Filter(s, IsNotFeatured)
      else Filter(s, IsFeatured) + Filter(s, IsNotFeatured) + [x]
  {
    var fs, ns := Filter(s, IsFeatured), Filter(s, IsNotFeatured);
    FilterAppend(s, [x], IsFeatured);
    FilterAppend(s, [x], IsNotFeatured);
    FilterOne(x, IsFeatured);
    FilterOne(x, IsNotFeatured);
    if x.featured {
      assert Filter(s + [x], IsFeatured) == fs + [x];
      assert Filter(s + [x], IsNotFeatured) == ns;
    } else {
      assert Filter(s + [x], IsFeatured) == fs;
      assert Filter(s + [x], IsNotFeatured) == ns + [x];
    }
  }

  /** In the featured mode the stable sort puts all featured products first
      and all others after them, each group in input order. */
  lemma {:induction false} FeaturedFirst(s: seq<Product>)
    ensures Sort(Comparator(Featured), s) == Filter(s, IsFeatured) + Filter(s, IsNotFeatured)
    decreases |s|
  {
    if s != [] {
      var init, x := s[..|s| - 1], s[|s| - 1];
      var fs, ns := Filter(init, IsFeatured), Filter(init, IsNotFeatured);
      assert s == init + [x];
      assert Sort(Comparator(Featured), s) == Insert(Comparator(Featured), Sort(Comparator(Featured), init), x);
      FeaturedFirst(init);
      assert forall p :: p in ns ==> !p.featured by {
        forall p | p in ns ensures !p.featured {
          assert IsNotFeatured(p);
        }
      }
      InsertFeatured(fs, ns, x);
      SplitAppend(init, x);
    }
  }

  /** The list the page shows: the visible products, stably sorted by the
      comparator of the selected mode. */
  function SortedView(products: seq<Product>, filters: FilterState): (r: seq<Product>)
    ensures |r| <= |products|
  {
    Sort(Comparator(ModeOf(filters.sortBy)), Visible(products, filters))
  }

  /** The shown list is a permutation of the visible products: it holds
      exactly the catalog products that pass every check. */
  lemma SortedViewMembers(products: seq<Product>, filters: FilterState)
    ensures multiset(SortedView(products, filters)) == multiset(Visible(products, filters))
    ensures forall p :: p in SortedView(products, filters) <==> p in products && Passes(filters, p)
  {
    var v := Visible(products, filters);
    SortPermutes(Comparator(ModeOf(filters.sortBy)), v);
    assert forall p :: p in SortedView(products, filters) <==> p in multiset(v);
  }

  /** The shown list is ordered as its mode says: prices ascending or
      descending, ratings descending, ids descending. */
  lemma SortedViewOrder(products: seq<Product>, filters: FilterState)
    ensures var r, mode := SortedView(products, filters), ModeOf(filters.sortBy);
      && Sorted(Comparator(mode), r)
      && (mode == PriceLow ==> forall i, j :: 0 <= i < j < |r| ==> r[i].price <= r[j].price)
      && (mode == PriceHigh ==> forall i, j :: 0 <= i < j < |r| ==> r[i].price >= r[j].price)
      && (mode == Rating ==> forall i, j :: 0 <= i < j < |r| ==> r[i].rating >= r[j].rating)
      && (mode == Newest ==> forall i, j :: 0 <= i < j < |r| ==> LexCompare(r[j].id, r[i].id) <= 0)
  {
    var mode := ModeOf(filters.sortBy);
    ComparatorConsistent(mode);
    SortSorted(Comparator(mode), Visible(products, filters));
    SortedMeaning(mode, SortedView(products, filters));
  }

  /** Products that compare equal in the selected mode keep their catalog order. */
  lemma SortedViewStable(products: seq<Product>, filters: FilterState, z: Product)
    ensures var cmp := Comparator(ModeOf(filters.sortBy));
      Ties(cmp, SortedView(products, filters), z) == Ties(cmp, Visible(products, filters), z)
  {
    ComparatorConsistent(ModeOf(filters.sortBy));
    SortStable(Comparator(ModeOf(filters.sortBy)), Visible(products, filters), z);
  }

  /** With `featured` or an unrecognised sort key, the featured visible
      products come first and the others after them, each group in catalog order. */
  lemma SortedViewFeatured(products: seq<Product>, filters: FilterState)
    requires ModeOf(filters.sortBy) == Featured
    ensures SortedView(products, filters)
         == Filter(Visible(products, filters), IsFeatured) + Filter(Visible(products, filters), IsNotFeatured)
    ensures var r := SortedView(products, filters);
      forall i, j :: 0 <= i < j < |r| && r[j].featured ==> r[i].featured
  {
    FeaturedFirst(Visible(products, filters));
    SortedViewOrder(products, filters);
    SortedMeaning(Featured, SortedView(products, filters));
  }

  /** `filteredAndSortedProducts`: filter the catalog, copy the kept products
      into a fresh array, and sort that array in place with the branch's comparator. */
  method FilteredAndSortedProducts(products: seq<Product>, filters: FilterState) returns (r: seq<Product>)
    ensures r == SortedView(products, filters)
  {
    var filtered := Visible(products, filters);
    var a := new Product[|filtered|](i requires 0 <= i < |filtered| => filtered[i]);
    assert a[..] == filtered;
    var mode := ModeOf(filters.sortBy);
    SortInPlace(a, Comparator(mode));
    r := a[..];
  }

  // ---------------------------------------------------------------------
  // The sidebar: brand list and multi-select toggles.
  // ---------------------------------------------------------------------

  function BrandsOf(products: seq<Product>): (r: seq<string>)
    ensures |r| == |products|
    ensures forall i :: 0 <= i < |products| ==> r[i] == products[i].brand
  {
    seq(|products|, i requires 0 <= i < |products| => products[i].brand)
  }

  /** The default `sort()` of strings: by character codes. */
  function StringOrder(): (string, string) -> real {
    (x, y) => LexCompare(x, y) as real
  }

  lemma StringOrderConsistent()
    ensures Consistent(StringOrder())
  {
    var cmp := StringOrder();
    forall a, b ensures FlipsAt(cmp, a, b) {
      LexCompareFlip(a, b);
    }
    forall a, b, c ensures ChainsAt(cmp, a, b, c) {
      if cmp(a, b) <= 0.0 && cmp(b, c) <= 0.0 {
        LexCompareTransitive(a, b, c);
      }
    }
  }

  /** Sorting distinct strings yields a strictly ascending list of the same strings. */
  lemma SortDistinctStrings(d: seq<string>)
    requires NoDup(d)
    ensures forall x :: x in Sort(StringOrder(), d) <==> x in d
    ensures forall i, j :: 0 <= i < j < |Sort(StringOrder(), d)| ==>
      LexCompare(Sort(StringOrder(), d)[i], Sort(StringOrder(), d)[j]) < 0
  {
    var r := Sort(StringOrder(), d);
    StringOrderConsistent();
    SortPermutes(StringOrder(), d);
    SortSorted(StringOrder(), d);
    NoDupPermutation(d, r);
    assert forall x :: x in r <==> x in multiset(d);
    forall i, j | 0 <= i < j < |r| ensures LexCompare(r[i], r[j]) < 0 {
      assert StringOrder()(r[i], r[j]) <= 0.0;
      LexCompareZero(r[i], r[j]);
    }
  }

  /** `uniqueBrands`: every brand of the catalog exactly once, in ascending order. */
  function UniqueBrands(products: seq<Product>): (r: seq<string>)
    ensures forall b :: b in r <==> exists p :: p in products && p.brand == b
    ensures forall i, j :: 0 <= i < j < |r| ==> LexCompare(r[i], r[j]) < 0
  {
    var brands := BrandsOf(products);
    var d := Dedup(brands);
    SortDistinctStrings(d);
    assert forall b :: b in brands <==> exists p :: p in products && p.brand == b by {
      forall b | b in brands ensures exists p :: p in products && p.brand == b {
        var i :| 0 <= i < |brands| && brands[i] == b;
        assert products[i] in products;
      }
      forall b | exists p :: p in products && p.brand == b ensures b in brands {
        var p :| p in products && p.brand == b;
        var i :| 0 <= i < |products| && products[i] == p;
        assert brands[i] == b;
      }
    }
    Sort(StringOrder(), d)
  }

  function Without(id: string): string -> bool {
    x => x != id
  }

  /** The list toggle of `handleCategoryChange` and `handleBrandChange`:
      a present id is removed (every occurrence), an absent one appended. */
  function Toggled(selected: seq<string>, id: string): (r: seq<string>)
    ensures id in r <==> id !in selected
    ensures forall x :: x != id ==> (x in r <==> x in selected)
    ensures id !in selected ==> r == selected + [id]
  {
    if id in selected then Filter(selected, Without(id)) else selected + [id]
  }

  /** Toggling a present id keeps every other element, with its repeats, in
      its order: only the occurrences of the id go. */
  lemma ToggleRemovesInOrder(selected: seq<string>, id: string)
    requires id in selected
    ensures Subsequence(Toggled(selected, id), selected)
    ensures forall x :: multiset(Toggled(selected, id))[x] == if x == id then 0 else multiset(selected)[x]
  {
    FilterCounts(selected, Without(id));
  }

  /** Toggling an absent id twice restores the list. */
  lemma ToggleTwiceAbsent(selected: seq<string>, id: string)
    requires id !in selected
    ensures Toggled(Toggled(selected, id), id) == selected
  {
    FilterAppend(selected, [id], Without(id));
    FilterKeepsAll(selected, Without(id));
  }

  /** Toggling a present id twice keeps the same elements, and restores the
      list itself exactly when the id occurs once, as its last element. */
  lemma ToggleTwicePresent(selected: seq<string>, id: string)
    requires id in selected
    ensures forall x :: x in Toggled(Toggled(selected, id), id) <==> x in selected
    ensures Toggled(Toggled(selected, id), id) == selected <==>
      selected[|selected| - 1] == id && id !in selected[..|selected| - 1]
  {
    var init := selected[..|selected| - 1];
    var once := Filter(selected, Without(id));
    assert Toggled(Toggled(selected, id), id) == once + [id];
    if selected[|selected| - 1] == id && id !in init {
      assert selected == init + [id];
      FilterAppend(init, [id], Without(id));
      FilterKeepsAll(init, Without(id));
    }
    if once + [id] == selected {
      assert init == once;
    }
  }

  /** With the id twice, toggling it twice drops the earlier occurrence. */
  lemma ToggleTwiceRepeated()
    ensures Toggled(Toggled(["a", "b", "a"], "a"), "a") == ["b", "a"]
  {
    assert ["a", "b", "a"][1..] == ["b", "a"];
    assert ["b", "a"][1..] == ["a"];
    assert Filter(["a"], Without("a")) == [] by {
      assert ["a"][1..] == [];
    }
  }

  /** A present id that is not last moves to the end: toggling twice does
      not always restore the list. */
  lemma ToggleTwiceReorders()
    ensures Toggled(Toggled(["a", "b"], "a"), "a") == ["b", "a"]
  {
    assert ["a", "b"][1..] == ["b"];
    assert Filter(["b"], Without("a")) == ["b"] by {
      assert ["b"][1..] == [];
    }
  }

  method HandleCategoryChange(filters: FiltersSlice.FiltersStore, categoryId: string)
    modifies filters
    ensures filters.State() == old(filters.State()).(category := Toggled(old(filters.category), categoryId))
  {
    var newCategories := Toggled(filters.category, categoryId);
    filters.SetCategory(newCategories);
  }

  method HandleBrandChange(filters: FiltersSlice.FiltersStore, brand: string)
    modifies filters
    ensures filters.State() == old(filters.State()).(brands := Toggled(old(filters.brands), brand))
  {
    var newBrands := Toggled(filters.brands, brand);
    filters.SetBrands(newBrands);
  }
}
