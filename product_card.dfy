/** A product tile (src/components/ProductCard.tsx): its wishlist state and
    its two buttons, add-to-cart with quantity 1 and the wishlist toggle. */
module ProductCard {
  import opened Types
  import opened ProductsSlice
  import opened Cart
  import WishlistSlice

  /** `isInWishlist` holds exactly when some entry, at some position, refers to the product. */
  lemma IsInWishlistMeaning(items: seq<WishlistItem>, product: Product)
    ensures WishlistSlice.Has(items, product.id) <==> exists i :: 0 <= i < |items| && items[i].productId == product.id
  {
    if WishlistSlice.Has(items, product.id) {
      var item :| item in items && item.productId == product.id;
      var i :| 0 <= i < |items| && items[i] == item;
    }
  }

  /** `handleAddToCart`: the product goes to the cart with no explicit
      quantity and one unit is taken off its stock. The button is disabled
      when the card's product shows zero stock. */
  method AddToCartClicked(product: Product, products: ProductsStore, cart: CartLog)
    modifies products, cart
    ensures product.stock == 0 ==> products.products == old(products.products) && cart.issued == old(cart.issued)
    ensures product.stock != 0 ==>
      && cart.issued == old(cart.issued) + [AddToCart(product, None)]
      && products.products == StockUpdated(old(products.products), product.id, 1)
    ensures products.categories == old(products.categories)
    ensures products.loading == old(products.loading) && products.error == old(products.error)
  {
    if product.stock != 0 {
      cart.Dispatch(AddToCart(product, None));
      products.UpdateProductStock(product.id, 1);
    }
  }

  /** The card's add-to-cart, on the catalog: the first product with the
      card's id loses exactly one unit when it has any, and nothing changes
      when its stock is 0. */
  lemma AddOneLowersStockByOne(ps: seq<Product>, id: string, i: nat)
    requires FindIndex(ps, id) == Some(i)
    ensures ps[i].stock >= 1 ==> StockUpdated(ps, id, 1)[i].stock == ps[i].stock - 1
    ensures ps[i].stock >= 1 ==> forall j :: 0 <= j < |ps| && j != i ==> StockUpdated(ps, id, 1)[j] == ps[j]
    ensures ps[i].stock == 0 ==> StockUpdated(ps, id, 1) == ps
  {
    if ps[i].stock >= 1 {
      StockDecrements(ps, id, 1, i);
    } else {
      StockGuardRejects(ps, id, 1);
    }
  }

  /** `handleWishlistToggle`: membership of the product flips. */
  method WishlistToggleClicked(product: Product, wishlist: WishlistSlice.WishlistStore, now: nat, addedAt: string)
    modifies wishlist
    ensures wishlist.items == WishlistSlice.Toggled(old(wishlist.items), product.id, now, addedAt)
    ensures WishlistSlice.Has(wishlist.items, product.id) <==> !WishlistSlice.Has(old(wishlist.items), product.id)
  {
    var isInWishlist := WishlistSlice.Has(wishlist.items, product.id);
    if isInWishlist {
      wishlist.RemoveFromWishlist(product.id);
    } else {
      wishlist.AddToWishlist(product.id, now, addedAt);
    }
  }
}
