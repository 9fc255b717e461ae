/**
 * The home page's cart (index.js). Every operation re-reads the cart stored
 * under `moreSneakersCart`, changes it and writes it back; beside it the page
 * keeps a running badge counter `cartCount`, mirrored under the `cartCount`
 * storage key and read back from there on the next page load.
 */
module HomeCart {
  import opened Wrappers
  import opened CartLedger

  /**
   * `updateCartItemQuantity` on the stored cart: the first line with the id has
   * `change` added to its quantity; a line that drops to zero or below is
   * spliced out, any other keeps the new quantity (clamped to at least 1).
   * An id that is not in the cart leaves it as it is.
   */
  function QuantityChanged(cart: Cart, id: string, change: int): Cart
  {
    var i := FindIndex(cart, id);
    if i < 0 then cart else ChangedAt(cart, i, change)
  }

  /** The found line `i` changed by `change`: spliced out at zero or below, else re-quantified. */
  function ChangedAt(cart: Cart, i: int, change: int): Cart
    requires 0 <= i < |cart|
  {
    var q := cart[i].quantity + change;
    if q <= 0 then RemoveAt(cart, i) else WithQuantity(cart, i, if q < 1 then 1 else q)
  }

  /**
   * What a quantity change does to a line that is found: at zero or below the
   * line is gone and the others keep their order; above zero its quantity is
   * exactly the old one plus the change (the clamp to 1 never applies) and no
   * other line changes.
   */
  lemma QuantityChangedFound(cart: Cart, id: string, change: int)
    requires HasId(cart, id)
    ensures var i := FindIndex(cart, id);
      var r := QuantityChanged(cart, id, change);
      if cart[i].quantity + change <= 0 then
        r == cart[..i] + cart[i + 1..]
      else
        |r| == |cart| && r[i] == cart[i].(quantity := cart[i].quantity + change) && r[i].quantity >= 1 &&
        forall j :: 0 <= j < |cart| && j != i ==> r[j] == cart[j]
  {
  }

  /** A quantity change keeps ids unique and quantities positive. */
  lemma QuantityChangedWellFormed(cart: Cart, id: string, change: int)
    requires WellFormed(cart)
    ensures WellFormed(QuantityChanged(cart, id, change))
  {
    var i := FindIndex(cart, id);
    if i >= 0 {
      if cart[i].quantity + change <= 0 {
        RemoveAtWellFormed(cart, i);
      } else {
        WithQuantityWellFormed(cart, i, cart[i].quantity + change);
      }
    }
  }

  /**
   * The item count after a quantity change: the line's old quantity is replaced
   * by its new one, or by nothing when the line was removed.
   */
  lemma QuantityChangedTotalQuantity(cart: Cart, id: string, change: int)
    requires HasId(cart, id)
    ensures var i := FindIndex(cart, id);
      var q := cart[i].quantity + change;
      TotalQuantity(QuantityChanged(cart, id, change)) == TotalQuantity(cart) - cart[i].quantity + (if q <= 0 then 0 else q)
  {
    ChangedAtTotalQuantity(cart, FindIndex(cart, id), change);
  }

  /** The item count after changing line `i`. */
  lemma ChangedAtTotalQuantity(cart: Cart, i: int, change: int)
    requires 0 <= i < |cart|
    ensures var q := cart[i].quantity + change;
      TotalQuantity(ChangedAt(cart, i, change)) == TotalQuantity(cart) - cart[i].quantity + (if q <= 0 then 0 else q)
  {
    if cart[i].quantity + change <= 0 {
      RemovedTotalQuantity(cart, i, change);
    } else {
      KeptTotalQuantity(cart, i, change);
    }
  }

  /** A line that drops to zero or below takes all its units with it. */
  lemma RemovedTotalQuantity(cart: Cart, i: int, change: int)
    requires 0 <= i < |cart| && cart[i].quantity + change <= 0
    ensures TotalQuantity(ChangedAt(cart, i, change)) == TotalQuantity(cart) - cart[i].quantity
  {
    TotalQuantityRemoveAt(cart, i);
  }

  /** A line that stays above zero moves the item count by exactly `change`. */
  lemma KeptTotalQuantity(cart: Cart, i: int, change: int)
    requires 0 <= i < |cart| && cart[i].quantity + change > 0
    ensures TotalQuantity(ChangedAt(cart, i, change)) == TotalQuantity(cart) + change
  {
    TotalQuantityWithQuantity(cart, i, cart[i].quantity + change);
  }

  /** What the checkout button does with the stored cart. */
  datatype CheckoutOutcome = EmptyCartRefused | Proceed(items: nat, total: int)

  class HomeCartPage {
    /** The cart stored under `moreSneakersCart`; a missing key reads as the empty cart. */
    var stored: Cart
    /** The number stored under `cartCount`; a missing key reads as 0. */
    var storedCount: int
    /** The page's running badge counter. */
    var cartCount: int

    /** The badge shows the number of units in the stored cart, and the stored counter agrees. */
    predicate Consistent()
      reads this
    {
      cartCount == TotalQuantity(stored) && storedCount == cartCount
    }

    /** A page load: the badge counter starts from the stored counter, not from the cart. */
    constructor Load(cart: Cart, count: int)
      ensures stored == cart && storedCount == count && cartCount == count
    {
      stored := cart;
      storedCount := count;
      cartCount := count;
    }

    /** Navigating to the page again: storage survives, the counter is read back. */
    method Reload()
      modifies this
      ensures stored == old(stored) && storedCount == old(storedCount) && cartCount == storedCount
      ensures storedCount == TotalQuantity(stored) ==> Consistent()
    {
      cartCount := storedCount;
    }

    /** `addToCartStorage`: find-or-append on the stored cart; the counter is not touched. */
    method AddToCartStorage(id: string, name: string, price: int, image: string)
      modifies this
      ensures stored == Added(old(stored), id, name, price, image, None)
      ensures TotalQuantity(stored) == TotalQuantity(old(stored)) + 1
      ensures WellFormed(old(stored)) ==> WellFormed(stored)
      ensures cartCount == old(cartCount) && storedCount == old(storedCount)
    {
      var cart0 := stored;
      var cart := cart0;
      var i := FindIndex(cart, id);
      if i >= 0 {
        cart := cart[i := cart[i].(quantity := cart[i].quantity + 1)];
      } else {
        cart := cart + [LineItem(id, name, price, image, 1, None)];
      }
      assert cart == Added(cart0, id, name, price, image, None);
      AddedTotalQuantity(cart0, id, name, price, image, None);
      if WellFormed(cart0) {
        AddedWellFormed(cart0, id, name, price, image, None);
      }
      stored := cart;
    }

    /**
     * The add-to-cart button: the counter goes up by one and is stored, then the
     * product is added. Counter and item count both rise by exactly one.
     */
    method AddToCart(id: string, name: string, price: int, image: string)
      modifies this
      ensures cartCount == old(cartCount) + 1 && storedCount == cartCount
      ensures stored == Added(old(stored), id, name, price, image, None)
      ensures TotalQuantity(stored) == TotalQuantity(old(stored)) + 1
      ensures old(Consistent()) ==> Consistent()
    {
      cartCount := cartCount + 1;
      storedCount := cartCount;
      AddToCartStorage(id, name, price, image);
    }

    /**
     * `updateCartItemQuantity`: an unknown id changes nothing at all; otherwise
     * the cart is changed and the counter is recomputed from it and stored.
     */
    method UpdateCartItemQuantity(id: string, change: int)
      modifies this
      ensures !HasId(old(stored), id) ==>
        stored == old(stored) && cartCount == old(cartCount) && storedCount == old(storedCount)
      ensures HasId(old(stored), id) ==>
        stored == QuantityChanged(old(stored), id, change) && Consistent()
      ensures WellFormed(old(stored)) ==> WellFormed(stored)
    {
      var cart := stored;
      var i := FindIndex(cart, id);
      if i != -1 {
        var q := cart[i].quantity + change;
        if q <= 0 {
          cart := cart[..i] + cart[i + 1..];
        } else {
          cart := cart[i := cart[i].(quantity := if q < 1 then 1 else q)];
        }
        stored := cart;
        cartCount := TotalQuantity(cart);
        storedCount := cartCount;
      }
      if WellFormed(old(stored)) {
        QuantityChangedWellFormed(old(stored), id, change);
      }
    }

    /** `removeCartItem`: every line with the id goes, the counter is recomputed and stored. */
    method RemoveCartItem(id: string)
      modifies this
      ensures stored == Without(old(stored), id)
      ensures Consistent()
      ensures WellFormed(old(stored)) ==> WellFormed(stored) && !HasId(stored, id)
    {
      stored := Without(stored, id);
      cartCount := TotalQuantity(stored);
      storedCount := cartCount;
      if WellFormed(old(stored)) {
        WithoutWellFormed(old(stored), id);
      }
    }

    /**
     * The clear button as written: the stored cart is removed and the counter
     * reset, but the stored counter keeps its old value.
     */
    method ClearAsWritten()
      modifies this
      ensures stored == [] && cartCount == 0 && storedCount == old(storedCount)
    {
      stored := [];
      cartCount := 0;
    }

    /** The clear button with the reset counter also stored, as every other handler does. */
    method Clear()
      modifies this
      ensures stored == [] && cartCount == 0 && storedCount == 0
      ensures Consistent()
    {
      stored := [];
      cartCount := 0;
      storedCount := cartCount;
    }

    /** The total shown under the cart: the sum of price times quantity, 0 for an empty cart. */
    function DisplayTotal(): (t: int)
      reads this
      ensures stored == [] ==> t == 0
    {
      Total(stored)
    }

    /** The checkout button: refused on an empty cart, otherwise the line count and the total. */
    method Checkout() returns (outcome: CheckoutOutcome)
      ensures outcome.EmptyCartRefused? <==> stored == []
      ensures outcome.Proceed? ==> outcome.items == |stored| && outcome.total == Total(stored)
    {
      if |stored| == 0 {
        return EmptyCartRefused;
      }
      outcome := Proceed(|stored|, Total(stored));
    }
  }

  /**
   * Clearing as written and then loading the page again: the cart is empty but
   * the badge shows whatever count was stored before the clear.
   */
  method ClearAsWrittenThenReload(cart: Cart, count: int) returns (badge: int, units: int)
    ensures units == 0 && badge == count
  {
    var page := new HomeCartPage.Load(cart, count);
    page.ClearAsWritten();
    page.Reload();
    badge, units := page.cartCount, TotalQuantity(page.stored);
  }

  /**
   * A first visit adds one pair, clears the cart and comes back: the badge says
   * 1 over an empty cart.
   */
  method StaleBadgeAfterClear() returns (badge: int, units: int)
    ensures badge == 1 && units == 0
  {
    var page := new HomeCartPage.Load([], 0);
    page.AddToCart("1", "Air Runner", 129900, "runner.jpg");
    page.ClearAsWritten();
    page.Reload();
    badge, units := page.cartCount, TotalQuantity(page.stored);
  }

  /** With the counter stored on clear, a later page load shows an empty badge over the empty cart. */
  method ClearThenReload(cart: Cart, count: int) returns (badge: int, units: int)
    ensures badge == 0 && units == 0 && badge == units
  {
    var page := new HomeCartPage.Load(cart, count);
    page.Clear();
    page.Reload();
    badge, units := page.cartCount, TotalQuantity(page.stored);
  }
}
