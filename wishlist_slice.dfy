/** The wishlist slice (src/redux/slices/wishlistSlice.ts): a list of
    entries referring to products by id, with an add that ignores products
    already listed, a remove by product id, and a clear. The clock readings
    behind an entry's id and timestamp are parameters. */
module WishlistSlice {
  import opened Types
  import opened Seqs
  import opened Strings

  /** `items.some(item => item.productId === productId)`; also the
      truthiness of the `find` in `addToWishlist`. */
  predicate Has(items: seq<WishlistItem>, productId: string) {
    exists item :: item in items && item.productId == productId
  }

  /** At most one entry per product id. */
  predicate UniqueProductIds(items: seq<WishlistItem>) {
    forall i, j :: 0 <= i < j < |items| ==> items[i].productId != items[j].productId
  }

  /** The entry pushed for a product: id `wishlist-<now>`, where `now` is
      the `Date.now()` reading, and the ISO timestamp `addedAt`. */
  function NewItem(productId: string, now: nat, addedAt: string): (r: WishlistItem)
    ensures r.productId == productId && r.addedAt == addedAt
    ensures |r.id| > 9 && r.id[..9] == "wishlist-"
    ensures forall k :: 9 <= k < |r.id| ==> '0' <= r.id[k] <= '9'
    ensures DecimalValue(r.id[9..]) == now
  {
    var digits := DecimalString(now);
    assert ("wishlist-" + digits)[9..] == digits;
    WishlistItem("wishlist-" + digits, productId, addedAt)
  }

  /** The items after `addToWishlist(productId)`. */
  function Added(items: seq<WishlistItem>, productId: string, now: nat, addedAt: string): (r: seq<WishlistItem>)
    ensures Has(r, productId)
    ensures forall q :: q != productId ==> (Has(r, q) <==> Has(items, q))
    ensures items <= r && |r| <= |items| + 1
  {
    if Has(items, productId) then items else items + [NewItem(productId, now, addedAt)]
  }

  function KeepsOthers(productId: string): WishlistItem -> bool {
    (item: WishlistItem) => item.productId != productId
  }

  /** The items after `removeFromWishlist(productId)`. */
  function Removed(items: seq<WishlistItem>, productId: string): (r: seq<WishlistItem>)
    ensures forall item :: item in r <==> item in items && item.productId != productId
    ensures !Has(r, productId)
    ensures forall q :: q != productId ==> (Has(r, q) <==> Has(items, q))
    ensures Subsequence(r, items)
  {
    Filter(items, KeepsOthers(productId))
  }

  /** The wishlist button of the detail page and of a product card:
      remove when listed, add otherwise. */
  function Toggled(items: seq<WishlistItem>, productId: string, now: nat, addedAt: string): (r: seq<WishlistItem>)
    ensures Has(r, productId) <==> !Has(items, productId)
    ensures forall q :: q != productId ==> (Has(r, q) <==> Has(items, q))
  {
    if Has(items, productId) then Removed(items, productId) else Added(items, productId, now, addedAt)
  }

  /** Adding a listed product changes nothing. */
  lemma AddPresent(items: seq<WishlistItem>, productId: string, now: nat, addedAt: string)
    requires Has(items, productId)
    ensures Added(items, productId, now, addedAt) == items
  {
  }

  /** Adding an unlisted product appends one entry for it and keeps the earlier ones. */
  lemma AddAbsent(items: seq<WishlistItem>, productId: string, now: nat, addedAt: string)
    requires !Has(items, productId)
    ensures Added(items, productId, now, addedAt) == items + [NewItem(productId, now, addedAt)]
  {
  }

  /** A second add of the same product, at any later time, is a no-op. */
  lemma AddIdempotent(items: seq<WishlistItem>, productId: string, now1: nat, addedAt1: string, now2: nat, addedAt2: string)
    ensures Added(Added(items, productId, now1, addedAt1), productId, now2, addedAt2)
         == Added(items, productId, now1, addedAt1)
  {
  }

  /** Add keeps at most one entry per product. */
  lemma AddKeepsUnique(items: seq<WishlistItem>, productId: string, now: nat, addedAt: string)
    requires UniqueProductIds(items)
    ensures UniqueProductIds(Added(items, productId, now, addedAt))
  {
    if !Has(items, productId) {
      var r := Added(items, productId, now, addedAt);
      forall i, j | 0 <= i < j < |r| ensures r[i].productId != r[j].productId {
        if j == |items| {
          assert items[i] in items;
        }
      }
    }
  }

  /** Remove keeps at most one entry per product. */
  lemma {:induction false} RemoveKeepsUnique(items: seq<WishlistItem>, productId: string)
    requires UniqueProductIds(items)
    ensures UniqueProductIds(Removed(items, productId))
    decreases |items|
  {
    if items != [] {
      var rest := items[1..];
      assert UniqueProductIds(rest) by {
        forall i, j | 0 <= i < j < |rest| ensures rest[i].productId != rest[j].productId {
          assert rest[i] == items[i + 1] && rest[j] == items[j + 1];
        }
      }
      RemoveKeepsUnique(rest, productId);
      assert items == [items[0]] + rest;
      if items[0].productId != productId {
        var tail := Removed(rest, productId);
        var r := Removed(items, productId);
        assert r == [items[0]] + tail;
        forall i, j | 0 <= i < j < |r| ensures r[i].productId != r[j].productId {
          if i == 0 {
            assert r[j] == tail[j - 1] && tail[j - 1] in rest;
            var k :| 0 <= k < |rest| && rest[k] == r[j];
            assert items[k + 1] == r[j];
          } else {
            assert r[i] == tail[i - 1] && r[j] == tail[j - 1];
          }
        }
      }
    }
  }

  /** Removing an unlisted product changes nothing. */
  lemma RemoveAbsent(items: seq<WishlistItem>, productId: string)
    requires !Has(items, productId)
    ensures Removed(items, productId) == items
  {
    FilterKeepsAll(items, KeepsOthers(productId));
  }

  /** Adding an unlisted product and then removing it restores the list. */
  lemma AddThenRemove(items: seq<WishlistItem>, productId: string, now: nat, addedAt: string)
    requires !Has(items, productId)
    ensures Removed(Added(items, productId, now, addedAt), productId) == items
  {
    var item := NewItem(productId, now, addedAt);
    FilterAppend(items, [item], KeepsOthers(productId));
    FilterKeepsAll(items, KeepsOthers(productId));
    FilterOne(item, KeepsOthers(productId));
  }

  /** The slice state. */
  class WishlistStore {
    var items: seq<WishlistItem>

    constructor ()
      ensures items == []
    {
      items := [];
    }

    /** Pushes an entry unless one for the product exists. */
    method AddToWishlist(productId: string, now: nat, addedAt: string)
      modifies this
      ensures items == Added(old(items), productId, now, addedAt)
      ensures old(UniqueProductIds(items)) ==> UniqueProductIds(items)
    {
      assert UniqueProductIds(items) ==> UniqueProductIds(Added(items, productId, now, addedAt)) by {
        if UniqueProductIds(items) {
          AddKeepsUnique(items, productId, now, addedAt);
        }
      }
      var listed := Has(items, productId);
      if !listed {
        items := items + [NewItem(productId, now, addedAt)];
      }
    }

    method RemoveFromWishlist(productId: string)
      modifies this
      ensures items == Removed(old(items), productId)
      ensures old(UniqueProductIds(items)) ==> UniqueProductIds(items)
    {
      assert UniqueProductIds(items) ==> UniqueProductIds(Removed(items, productId)) by {
        if UniqueProductIds(items) {
          RemoveKeepsUnique(items, productId);
        }
      }
      items := Removed(items, productId);
    }

    method ClearWishlist()
      modifies this
      ensures items == [] && UniqueProductIds(items)
    {
      items := [];
    }
  }
}
