/** The cart slice's commands. Its reducer (src/redux/slices/cartSlice.ts)
    is not part of this model: the pages only issue `addToCart`, and the
    model records each command issued, in order, without giving it any
    effect on a cart. */
module Cart {
  import opened Types

  /** `addToCart({product, quantity})`; `quantity` is absent when the caller omits it. */
  datatype CartCommand = AddToCart(product: Product, quantity: Option<int>)

  /** The commands dispatched to the cart so far. */
  class CartLog {
    var issued: seq<CartCommand>

    constructor ()
      ensures issued == []
    {
      issued := [];
    }

    method Dispatch(command: CartCommand)
      modifies this
      ensures issued == old(issued) + [command]
    {
      issued := issued + [command];
    }
  }
}
