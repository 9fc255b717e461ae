/**
 * The products page's cart (product.js). The cart lives in a page variable
 * loaded once from `moreSneakersCart`; each change is written back to storage
 * afterwards. The badge is recomputed from the cart, there is no separate
 * counter, no clamp on quantities, clearing asks for confirmation, and
 * checkout refuses an empty cart.
 */
module ProductCart {
  import opened Wrappers
  import opened CartLedger
  import HomeCart

  /**
   * `updateQuantity`: the first line with the id has `change` added; when it
   * drops to zero or below, every line with that id is filtered out.
   */
  function QuantityChanged(cart: Cart, id: string, change: int): Cart
  {
    var i := FindIndex(cart, id);
    if i < 0 then cart
    else if cart[i].quantity + change <= 0 then Without(cart, id)
    else WithQuantity(cart, i, cart[i].quantity + change)
  }

  /**
   * On a well-formed cart the two pages agree on quantity changes: the filter
   * here removes the same single line the home page splices out.
   */
  lemma QuantityChangedAgrees(cart: Cart, id: string, change: int)
    requires UniqueIds(cart)
    ensures QuantityChanged(cart, id, change) == HomeCart.QuantityChanged(cart, id, change)
  {
    var i := FindIndex(cart, id);
    if i >= 0 && cart[i].quantity + change <= 0 {
      WithoutUniqueIsRemoveAt(cart, id);
    }
  }

  /**
   * A quantity change on a found line: at zero or below no line with the id is
   * left and the others keep their order; otherwise only that line's quantity
   * changes, to the old one plus the change.
   */
  lemma QuantityChangedFound(cart: Cart, id: string, change: int)
    requires HasId(cart, id)
    ensures var i := FindIndex(cart, id);
      var r := QuantityChanged(cart, id, change);
      if cart[i].quantity + change <= 0 then
        (forall x :: x in r <==> x in cart && x.id != id)
      else
        |r| == |cart| && r[i] == cart[i].(quantity := cart[i].quantity + change) &&
        forall j :: 0 <= j < |cart| && j != i ==> r[j] == cart[j]
  {
    WithoutMembers(cart, id);
  }

  /** What the checkout button does with the page's cart. */
  datatype CheckoutOutcome = EmptyCartRefused | Proceed(items: nat, total: int, lines: seq<ProductSummary>)

  /** One entry of the checkout report's `products` list. */
  datatype ProductSummary = ProductSummary(id: string, name: string, quantity: int)

  /** The `{id, name, quantity}` entries reported when checkout proceeds, one per line in cart order. */
  function Summary(cart: Cart): (r: seq<ProductSummary>)
    ensures |r| == |cart|
    ensures forall i :: 0 <= i < |cart| ==> r[i] == ProductSummary(cart[i].id, cart[i].name, cart[i].quantity)
  {
    if cart == [] then [] else [ProductSummary(cart[0].id, cart[0].name, cart[0].quantity)] + Summary(cart[1..])
  }

  class ProductCartPage {
    /** The page's `cart` variable. */
    var cart: Cart
    /** What is stored under `moreSneakersCart`. */
    var saved: Cart

    /** Every change has been written back. */
    predicate Saved()
      reads this
    {
      saved == cart
    }

    /** A page load: the cart is read from storage (a missing key reads as the empty cart). */
    constructor Load(stored: Cart)
      ensures cart == stored && saved == stored
    {
      cart := stored;
      saved := stored;
    }

    /** The badge: the number of units in the cart. */
    function BadgeCount(): (n: int)
      reads this
      ensures PositiveQuantities(cart) ==> n >= |cart| && (n == 0 <==> cart == [])
    {
      if PositiveQuantities(cart) then
        TotalQuantityAtLeastLength(cart);
        TotalQuantity(cart)
      else
        TotalQuantity(cart)
    }

    /** The cart total: the sum of price times quantity, 0 for an empty cart. */
    function CartTotal(): (t: int)
      reads this
      ensures cart == [] ==> t == 0
    {
      Total(cart)
    }

    /** `addToCart`: find-or-append, the new line stamped with `addedAt`; then saved. */
    method AddToCart(id: string, name: string, price: int, image: string, addedAt: string)
      modifies this
      ensures cart == Added(old(cart), id, name, price, image, Some(addedAt)) && Saved()
      ensures TotalQuantity(cart) == TotalQuantity(old(cart)) + 1
      ensures WellFormed(old(cart)) ==> WellFormed(cart)
    {
      var i := FindIndex(cart, id);
      if i >= 0 {
        cart := cart[i := cart[i].(quantity := cart[i].quantity + 1)];
      } else {
        cart := cart + [LineItem(id, name, price, image, 1, Some(addedAt))];
      }
      saved := cart;
      AddedTotalQuantity(old(cart), id, name, price, image, Some(addedAt));
      if WellFormed(old(cart)) {
        AddedWellFormed(old(cart), id, name, price, image, Some(addedAt));
      }
    }

    /** `removeFromCart`: the lines whose id differs, in their order; then saved. */
    method RemoveFromCart(id: string)
      modifies this
      ensures cart == Without(old(cart), id) && Saved()
      ensures !HasId(old(cart), id) ==> cart == old(cart)
      ensures WellFormed(old(cart)) ==> WellFormed(cart) && !HasId(cart, id)
    {
      cart := Without(cart, id);
      saved := cart;
      if !HasId(old(cart), id) {
        WithoutAbsent(old(cart), id);
      }
      if WellFormed(old(cart)) {
        WithoutWellFormed(old(cart), id);
      }
    }

    /** `updateQuantity`: an unknown id is a no-op; otherwise the change, then saved. */
    method UpdateQuantity(id: string, change: int)
      modifies this
      ensures !HasId(old(cart), id) ==> cart == old(cart) && saved == old(saved)
      ensures HasId(old(cart), id) ==> cart == QuantityChanged(old(cart), id, change) && Saved()
      ensures WellFormed(old(cart)) ==> WellFormed(cart)
    {
      var i := FindIndex(cart, id);
      if i >= 0 {
        var q := cart[i].quantity + change;
        cart := cart[i := cart[i].(quantity := q)];
        if q <= 0 {
          RemoveFromCart(id);
          assert Without(old(cart)[i := old(cart)[i].(quantity := q)], id) == Without(old(cart), id) by {
            WithoutSameIdUpdate(old(cart), i, q);
          }
        } else {
          saved := cart;
          if WellFormed(old(cart)) {
            WithQuantityWellFormed(old(cart), i, q);
          }
        }
        if q <= 0 && WellFormed(old(cart)) {
          WithoutWellFormed(old(cart), id);
        }
      }
    }

    /**
     * The clear button: only a non-empty cart whose clearing is confirmed is
     * emptied and saved; otherwise nothing changes.
     */
    method Clear(confirmed: bool) returns (cleared: bool)
      modifies this
      ensures cleared <==> |old(cart)| > 0 && confirmed
      ensures cleared ==> cart == [] && saved == []
      ensures !cleared ==> cart == old(cart) && saved == old(saved)
    {
      cleared := false;
      if |cart| > 0 {
        if confirmed {
          cart := [];
          saved := cart;
          cleared := true;
        }
      }
    }

    /**
     * The checkout button: refused on an empty cart; otherwise the line count,
     * the total and the `(id, quantity)` of each line, in order. Nothing changes.
     */
    method Checkout() returns (outcome: CheckoutOutcome)
      ensures outcome.EmptyCartRefused? <==> cart == []
      ensures outcome.Proceed? ==>
        outcome.items == |cart| && outcome.total == Total(cart) && outcome.lines == Summary(cart)
    {
      if |cart| == 0 {
        return EmptyCartRefused;
      }
      outcome := Proceed(|cart|, Total(cart), Summary(cart));
    }
  }

  /** Changing the quantity of a line before filtering its id out makes no difference. */
  lemma {:induction false} WithoutSameIdUpdate(cart: Cart, i: int, q: int)
    requires 0 <= i < |cart|
    ensures Without(WithQuantity(cart, i, q), cart[i].id) == Without(cart, cart[i].id)
  {
    var r := WithQuantity(cart, i, q);
    WithoutAround(cart, i, cart[i].id);
    WithoutAround(r, i, cart[i].id);
    assert r[..i] == cart[..i] && r[i + 1..] == cart[i + 1..];
    WithoutOne(cart[i]);
    WithoutOne(r[i]);
  }
}
