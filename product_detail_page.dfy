/** The product page (src/pages/ProductDetailPage.tsx): the lookup of the
    routed product, its wishlist state, the quantity stepper held in
    component state, and the add-to-cart and wishlist buttons. */
module ProductDetailPage {
  import opened Types
  import opened ProductsSlice
  import opened Cart
  import WishlistSlice

  /** The `-` button's update, `Math.max(1, quantity - 1)`. */
  function StepDown(q: int): (r: int)
    ensures r >= 1
    ensures q > 1 ==> r == q - 1
    ensures r <= q || q < 1
  {
    if q - 1 >= 1 then q - 1 else 1
  }

  /** The `+` button's update, `Math.min(product.stock, quantity + 1)`. */
  function StepUp(q: int, stock: int): (r: int)
    ensures r <= stock
    ensures q < stock ==> r == q + 1
    ensures r <= q + 1
  {
    if stock <= q + 1 then stock else q + 1
  }

  /** The `-` button is disabled at `quantity <= 1`. */
  predicate CanStepDown(q: int) {
    !(q <= 1)
  }

  /** The `+` button is disabled at `quantity >= product.stock`. */
  predicate CanStepUp(q: int, stock: int) {
    !(q >= stock)
  }

  /** The range the stepper keeps: at least 1, and at most the stock unless
      the quantity is still the initial 1. */
  predicate InRange(q: int, stock: int) {
    1 <= q && (q <= stock || q == 1)
  }

  datatype Click = Minus | Plus

  /** One click on a stepper button; a click on a disabled button does nothing. */
  function Clicked(q: int, stock: int, c: Click): int {
    match c
    case Minus => if CanStepDown(q) then StepDown(q) else q
    case Plus => if CanStepUp(q, stock) then StepUp(q, stock) else q
  }

  /** The quantity after a series of clicks. */
  function Run(q: int, stock: int, clicks: seq<Click>): int
    decreases |clicks|
  {
    if clicks == [] then q else Run(Clicked(q, stock, clicks[0]), stock, clicks[1..])
  }

  /** One click keeps the quantity in range. */
  lemma ClickStaysInRange(q: int, stock: int, c: Click)
    requires InRange(q, stock)
    ensures InRange(Clicked(q, stock, c), stock)
  {
  }

  /** Starting from the initial quantity 1, no series of clicks leaves the
      range: with stock at least 1 the quantity stays in [1, stock]. */
  lemma {:induction false} RunStaysInRange(q: int, stock: int, clicks: seq<Click>)
    requires InRange(q, stock)
    ensures InRange(Run(q, stock, clicks), stock)
    ensures stock >= 1 ==> 1 <= Run(q, stock, clicks) <= stock
    decreases |clicks|
  {
    if clicks != [] {
      ClickStaysInRange(q, stock, clicks[0]);
      RunStaysInRange(Clicked(q, stock, clicks[0]), stock, clicks[1..]);
    }
  }

  /** The page's component state for the product routed to by `routeId`. */
  class DetailView {
    const routeId: string
    var quantity: int

    /** `useState(1)`. */
    constructor (id: string)
      ensures routeId == id && quantity == 1
    {
      routeId := id;
      quantity := 1;
    }

    method DecreaseClicked()
      modifies this
      ensures quantity == if CanStepDown(old(quantity)) then StepDown(old(quantity)) else old(quantity)
    {
      if CanStepDown(quantity) {
        quantity := StepDown(quantity);
      }
    }

    /** Only rendered when the lookup succeeds; the bound is the found product's stock. */
    method IncreaseClicked(products: ProductsStore)
      requires FindProduct(products.products, routeId).Some?
      modifies this
      ensures quantity == Clicked(old(quantity), FindProduct(products.products, routeId).value.stock, Plus)
    {
      var product := FindProduct(products.products, routeId).value;
      if CanStepUp(quantity, product.stock) {
        quantity := StepUp(quantity, product.stock);
      }
    }

    /** `handleAddToCart`: the product with the chosen quantity goes to the
        cart, the same quantity is taken off its stock, and the quantity
        returns to 1. The button is disabled at zero stock. When the stepper
        kept its range, the stock goes down by exactly the quantity. */
    method AddToCartClicked(products: ProductsStore, cart: CartLog)
      requires FindProduct(products.products, routeId).Some?
      modifies this, products, cart
      ensures var p := FindProduct(old(products.products), routeId).value;
        p.stock == 0 ==>
          && products.products == old(products.products)
          && cart.issued == old(cart.issued)
          && quantity == old(quantity)
      ensures var p := FindProduct(old(products.products), routeId).value;
        p.stock != 0 ==>
          && cart.issued == old(cart.issued) + [AddToCart(p, Some(old(quantity)))]
          && products.products == StockUpdated(old(products.products), p.id, old(quantity))
          && quantity == 1
      ensures var p := FindProduct(old(products.products), routeId).value;
        p.stock >= 1 && old(InRange(quantity, p.stock)) ==>
          exists i :: 0 <= i < |products.products| && old(products.products)[i] == p
                      && products.products[i] == p.(stock := p.stock - old(quantity))
      ensures products.categories == old(products.categories)
      ensures products.loading == old(products.loading) && products.error == old(products.error)
    {
      var product := FindProduct(products.products, routeId).value;
      if product.stock != 0 {
        ghost var before, q := products.products, quantity;
        ghost var i := FindIndex(before, routeId).value;
        cart.Dispatch(AddToCart(product, Some(quantity)));
        products.UpdateProductStock(product.id, quantity);
        quantity := 1;
        if product.stock >= 1 && InRange(q, product.stock) {
          StockDecrements(before, routeId, q, i);
          assert products.products[i] == product.(stock := product.stock - q);
        }
      }
    }

    /** `handleWishlistToggle`: listed products are removed, others added. */
    method WishlistToggleClicked(products: ProductsStore, wishlist: WishlistSlice.WishlistStore, now: nat, addedAt: string)
      requires FindProduct(products.products, routeId).Some?
      modifies wishlist
      ensures wishlist.items == WishlistSlice.Toggled(old(wishlist.items), routeId, now, addedAt)
      ensures WishlistSlice.Has(wishlist.items, routeId) <==> !WishlistSlice.Has(old(wishlist.items), routeId)
    {
      var product := FindProduct(products.products, routeId).value;
      var isInWishlist := WishlistSlice.Has(wishlist.items, routeId);
      if isInWishlist {
        wishlist.RemoveFromWishlist(product.id);
      } else {
        wishlist.AddToWishlist(product.id, now, addedAt);
      }
    }
  }
}
