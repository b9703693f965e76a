/** The home page (src/pages/HomePage.tsx): the first four featured and
    the first eight trending catalog products. */
module HomePage {
  import opened Types
  import opened Seqs

  /** `products.filter(p => p.featured).slice(0, 4)`. */
  function FeaturedProducts(products: seq<Product>): (r: seq<Product>)
    ensures forall p :: p in r ==> p.featured && p in products
    ensures |r| == Min(4, |Filter(products, IsFeatured)|)
    ensures r <= Filter(products, IsFeatured)
  {
    var all := Filter(products, IsFeatured);
    var r := Take(all, 4);
    assert forall p :: p in r ==> p in all;
    r
  }

  /** `products.filter(p => p.trending).slice(0, 8)`. */
  function TrendingProducts(products: seq<Product>): (r: seq<Product>)
    ensures forall p :: p in r ==> p.trending && p in products
    ensures |r| == Min(8, |Filter(products, IsTrending)|)
    ensures r <= Filter(products, IsTrending)
  {
    var all := Filter(products, IsTrending);
    var r := Take(all, 8);
    assert forall p :: p in r ==> p in all;
    r
  }
}
