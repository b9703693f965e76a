/** The wishlist page (src/pages/WishlistPage.tsx): the catalog products
    that some wishlist entry refers to. */
module WishlistPage {
  import opened Types
  import opened Seqs
  import WishlistSlice

  function Listed(items: seq<WishlistItem>): Product -> bool {
    (p: Product) => WishlistSlice.Has(items, p.id)
  }

  /** `wishlistProducts`: the listed catalog products, in catalog order. */
  function WishlistProducts(products: seq<Product>, items: seq<WishlistItem>): (r: seq<Product>)
    ensures forall p :: p in r <==> p in products && WishlistSlice.Has(items, p.id)
    ensures Subsequence(r, products)
    ensures |r| <= |products|
  {
    Filter(products, Listed(items))
  }

  function CatalogProduct(id: string): Product {
    Product(id, "", "", 0.0, None, [], "", None, 0.0, 0, 1, [], false, false, "", None)
  }

  /** An entry for a product missing from the catalog shows nothing, so
      the list is shorter than the entry count in the header. */
  lemma DroppedEntryExample()
    ensures var items := [WishlistItem("wishlist-1", "a", ""), WishlistItem("wishlist-2", "gone", "")];
      var r := WishlistProducts([CatalogProduct("a")], items);
      r == [CatalogProduct("a")] && |r| < |items|
  {
    var items := [WishlistItem("wishlist-1", "a", ""), WishlistItem("wishlist-2", "gone", "")];
    assert items[0] in items;
    FilterOne(CatalogProduct("a"), Listed(items));
  }

  /** Products come in catalog order, not in the order they were added. */
  lemma CatalogOrderExample()
    ensures var items := [WishlistItem("wishlist-1", "b", ""), WishlistItem("wishlist-2", "a", "")];
      WishlistProducts([CatalogProduct("a"), CatalogProduct("b")], items) == [CatalogProduct("a"), CatalogProduct("b")]
  {
    var items := [WishlistItem("wishlist-1", "b", ""), WishlistItem("wishlist-2", "a", "")];
    var ps := [CatalogProduct("a"), CatalogProduct("b")];
    assert items[0] in items && items[1] in items;
    forall p | p in ps ensures Listed(items)(p) {
    }
    FilterKeepsAll(ps, Listed(items));
  }
}
