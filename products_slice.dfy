/** The products slice (src/redux/slices/productsSlice.ts): the catalog,
    the categories, a loading flag and an error message, with the stock
    guard `updateProductStock` and the two setters. */
module ProductsSlice {
  import opened Types

  /** `products.find(p => p.id === id)`, as the position of the product found. */
  function FindIndex(ps: seq<Product>, id: string): (r: Option<nat>)
    ensures r.None? <==> forall i :: 0 <= i < |ps| ==> ps[i].id != id
    ensures r.Some? ==> r.value < |ps| && ps[r.value].id == id
    ensures r.Some? ==> forall i :: 0 <= i < r.value ==> ps[i].id != id
    decreases |ps|
  {
    if ps == [] then None
    else if ps[0].id == id then Some(0)
    else
      match FindIndex(ps[1..], id)
      case None => None
      case Some(k) => Some(k + 1)
  }

  /** The first catalog product with the given id, if any. */
  function FindProduct(ps: seq<Product>, id: string): (r: Option<Product>)
    ensures r.None? <==> forall p :: p in ps ==> p.id != id
    ensures r.Some? ==> r.value.id == id
    ensures r.Some? ==> exists i :: 0 <= i < |ps| && ps[i] == r.value && forall j :: 0 <= j < i ==> ps[j].id != id
  {
    match FindIndex(ps, id)
    case None => None
    case Some(i) => Some(ps[i])
  }

  /** The catalog after `updateProductStock({productId: id, quantity})`. */
  function StockUpdated(ps: seq<Product>, id: string, quantity: int): (r: seq<Product>)
    ensures |r| == |ps|
  {
    match FindIndex(ps, id)
    case Some(i) =>
      if ps[i].stock >= quantity then ps[i := ps[i].(stock := ps[i].stock - quantity)] else ps
    case None => ps
  }

  /** When the first product with the id has enough stock, exactly that
      product's stock goes down by exactly `quantity`, to a value that is
      never negative; every other product, duplicates of the id included,
      is unchanged. */
  lemma StockDecrements(ps: seq<Product>, id: string, quantity: int, i: nat)
    requires FindIndex(ps, id) == Some(i) && ps[i].stock >= quantity
    ensures StockUpdated(ps, id, quantity)[i] == ps[i].(stock := ps[i].stock - quantity)
    ensures StockUpdated(ps, id, quantity)[i].stock >= 0
    ensures forall j :: 0 <= j < |ps| && j != i ==> StockUpdated(ps, id, quantity)[j] == ps[j]
  {
  }

  /** An unknown id, or a first match with too little stock, leaves the catalog as it is. */
  lemma StockGuardRejects(ps: seq<Product>, id: string, quantity: int)
    requires match FindIndex(ps, id)
             case None => true
             case Some(i) => ps[i].stock < quantity
    ensures StockUpdated(ps, id, quantity) == ps
  {
  }

  /** No update drives a non-negative stock below zero, whatever the quantity. */
  lemma StockStaysNonNegative(ps: seq<Product>, id: string, quantity: int)
    requires forall p :: p in ps ==> p.stock >= 0
    ensures forall p :: p in StockUpdated(ps, id, quantity) ==> p.stock >= 0
  {
    var r := StockUpdated(ps, id, quantity);
    forall p | p in r ensures p.stock >= 0 {
      var j :| 0 <= j < |r| && r[j] == p;
      assert ps[j] in ps;
    }
  }

  /** A negative quantity passes the guard of any product with non-negative
      stock and raises that product's stock. */
  lemma NegativeQuantityRaisesStock(ps: seq<Product>, id: string, quantity: int, i: nat)
    requires FindIndex(ps, id) == Some(i) && ps[i].stock >= 0 && quantity < 0
    ensures StockUpdated(ps, id, quantity)[i].stock > ps[i].stock
  {
  }

  /** The slice state, whose fields the reducers assign. */
  class ProductsStore {
    var products: seq<Product>
    var categories: seq<Category>
    var loading: bool
    var error: Option<string>

    /** `initialState`, with the catalog and the categories given. */
    constructor (catalog: seq<Product>, categoryList: seq<Category>)
      ensures products == catalog && categories == categoryList
      ensures !loading && error == None
    {
      products := catalog;
      categories := categoryList;
      loading := false;
      error := None;
    }

    method SetLoading(payload: bool)
      modifies this
      ensures loading == payload
      ensures products == old(products) && categories == old(categories) && error == old(error)
    {
      loading := payload;
    }

    method SetError(payload: Option<string>)
      modifies this
      ensures error == payload
      ensures products == old(products) && categories == old(categories) && loading == old(loading)
    {
      error := payload;
    }

    /** Finds the first product with the id and decrements its stock in
        place when the stock covers the quantity. */
    method UpdateProductStock(productId: string, quantity: int)
      modifies this
      ensures products == StockUpdated(old(products), productId, quantity)
      ensures categories == old(categories) && loading == old(loading) && error == old(error)
    {
      var found := FindIndex(products, productId);
      if found.Some? && products[found.value].stock >= quantity {
        var i := found.value;
        products := products[i := products[i].(stock := products[i].stock - quantity)];
      }
    }
  }
}
