/** The filters slice (src/redux/slices/filtersSlice.ts): one setter per
    field, each storing its payload unvalidated, and `clearFilters`, which
    resets the six filter fields and keeps the sort key and view mode. */
module FiltersSlice {
  import opened Types

  /** `initialState`. */
  const Initial: FilterState :=
    FilterState([], (0.0, 1000.0), 0.0, false, [], "", "featured", Grid)

  /** The state `clearFilters` leaves behind. */
  function Cleared(s: FilterState): (r: FilterState)
    ensures r == Initial.(sortBy := s.sortBy, viewMode := s.viewMode)
  {
    s.(category := [], priceRange := (0.0, 1000.0), rating := 0.0, inStock := false,
       brands := [], searchQuery := "")
  }

  /** Clearing twice is clearing once. */
  lemma ClearedIdempotent(s: FilterState)
    ensures Cleared(Cleared(s)) == Cleared(s)
  {
  }

  /** The slice's state object, updated field by field by its reducers. */
  class FiltersStore {
    var category: seq<string>
    var priceRange: (real, real)
    var rating: real
    var inStock: bool
    var brands: seq<string>
    var searchQuery: string
    var sortBy: string
    var viewMode: ViewMode

    function State(): FilterState
      reads this
    {
      FilterState(category, priceRange, rating, inStock, brands, searchQuery, sortBy, viewMode)
    }

    constructor ()
      ensures State() == Initial
    {
      category := [];
      priceRange := (0.0, 1000.0);
      rating := 0.0;
      inStock := false;
      brands := [];
      searchQuery := "";
      sortBy := "featured";
      viewMode := Grid;
    }

    method SetSearchQuery(payload: string)
      modifies this
      ensures State() == old(State()).(searchQuery := payload)
    {
      searchQuery := payload;
    }

    method SetCategory(payload: seq<string>)
      modifies this
      ensures State() == old(State()).(category := payload)
    {
      category := payload;
    }

    /** Stores the pair as given: a minimum above the maximum is accepted. */
    method SetPriceRange(payload: (real, real))
      modifies this
      ensures State() == old(State()).(priceRange := payload)
    {
      priceRange := payload;
    }

    /** Stores any number, negative or above 5 included. */
    method SetRating(payload: real)
      modifies this
      ensures State() == old(State()).(rating := payload)
    {
      rating := payload;
    }

    method SetInStock(payload: bool)
      modifies this
      ensures State() == old(State()).(inStock := payload)
    {
      inStock := payload;
    }

    method SetBrands(payload: seq<string>)
      modifies this
      ensures State() == old(State()).(brands := payload)
    {
      brands := payload;
    }

    method SetSortBy(payload: string)
      modifies this
      ensures State() == old(State()).(sortBy := payload)
    {
      sortBy := payload;
    }

    method SetViewMode(payload: ViewMode)
      modifies this
      ensures State() == old(State()).(viewMode := payload)
    {
      viewMode := payload;
    }

    method ClearFilters()
      modifies this
      ensures State() == Cleared(old(State()))
    {
      category := [];
      priceRange := (0.0, 1000.0);
      rating := 0.0;
      inStock := false;
      brands := [];
      searchQuery := "";
    }
  }
}
