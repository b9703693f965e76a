/** The storefront's records (src/types/index.ts). Prices and ratings are
    only compared in the modelled code, so they are `real`; stock and review
    counts are integers. */
module Types {

  datatype Option<+T> = None | Some(value: T)

  /** A catalog product. */
  datatype Product = Product(
    id: string,
    name: string,
    description: string,
    price: real,
    originalPrice: Option<real>,
    images: seq<string>,
    category: string,
    subcategory: Option<string>,
    rating: real,
    reviewCount: int,
    stock: int,
    tags: seq<string>,
    featured: bool,
    trending: bool,
    brand: string,
    specifications: Option<map<string, string>>)

  datatype Category = Category(
    id: string,
    name: string,
    slug: string,
    image: string,
    description: string,
    productCount: int)

  /** One wishlist entry: a reference to a product by id. */
  datatype WishlistItem = WishlistItem(id: string, productId: string, addedAt: string)

  datatype ViewMode = Grid | List

  /** The filters slice state: the six filter fields of `FilterState`
      plus the sort key and the display mode. */
  datatype FilterState = FilterState(
    category: seq<string>,
    priceRange: (real, real),
    rating: real,
    inStock: bool,
    brands: seq<string>,
    searchQuery: string,
    sortBy: string,
    viewMode: ViewMode)

  predicate IsFeatured(p: Product) { p.featured }

  predicate IsNotFeatured(p: Product) { !p.featured }

  predicate IsTrending(p: Product) { p.trending }
}
