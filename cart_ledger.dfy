/**
 * The shopping-cart ledger shared by the home page and the products page:
 * an ordered sequence of line items keyed by product id, stored under the
 * `moreSneakersCart` key. This module holds the functions that specify the
 * two pages' cart operations and the properties proved about them.
 * Prices are integer cents, so totals are exact.
 */
module CartLedger {
  import opened Wrappers

  /**
   * One product line. The products page stamps `addedAt` when it creates a
   * line; lines created by the home page have none.
   */
  datatype LineItem = LineItem(
    id: string, name: string, price: int, image: string, quantity: int, addedAt: Option<string>)

  type Cart = seq<LineItem>

  predicate HasId(cart: Cart, id: string)
  {
    exists i :: 0 <= i < |cart| && cart[i].id == id
  }

  /** No two lines share an id. */
  predicate UniqueIds(cart: Cart)
  {
    forall i, j :: 0 <= i < j < |cart| ==> cart[i].id != cart[j].id
  }

  predicate PositiveQuantities(cart: Cart)
  {
    forall i :: 0 <= i < |cart| ==> cart[i].quantity >= 1
  }

  /** The shape every operation keeps: unique ids and quantities of at least one. */
  predicate WellFormed(cart: Cart)
  {
    UniqueIds(cart) && PositiveQuantities(cart)
  }

  /**
   * `cart.findIndex(item => item.id === id)` (and `cart.find`, which returns the
   * line at that index): the first line with the id, or -1 when there is none.
   */
  function FindIndex(cart: Cart, id: string): (r: int)
    ensures -1 <= r < |cart|
    ensures r == -1 <==> !HasId(cart, id)
    ensures r >= 0 ==> cart[r].id == id && forall i :: 0 <= i < r ==> cart[i].id != id
  {
    if cart == [] then -1
    else if cart[0].id == id then 0
    else
      var r := FindIndex(cart[1..], id);
      assert HasId(cart, id) ==> HasId(cart[1..], id) by {
        if HasId(cart, id) {
          var i :| 0 <= i < |cart| && cart[i].id == id;
          assert cart[1..][i - 1].id == id;
        }
      }
      if r == -1 then -1 else r + 1
  }

  /** `cart.reduce((sum, item) => sum + item.quantity, 0)`: the badge count. */
  function TotalQuantity(cart: Cart): int
  {
    if cart == [] then 0 else TotalQuantity(cart[..|cart| - 1]) + cart[|cart| - 1].quantity
  }

  /** `cart.reduce((total, item) => total + item.price * item.quantity, 0)`. */
  function Total(cart: Cart): int
  {
    if cart == [] then 0 else Total(cart[..|cart| - 1]) + cart[|cart| - 1].price * cart[|cart| - 1].quantity
  }

  /** `cart.filter(item => item.id !== id)`. */
  function Without(cart: Cart, id: string): Cart
  {
    if cart == [] then []
    else (if cart[0].id == id then [] else [cart[0]]) + Without(cart[1..], id)
  }

  /** The line at `i` with its quantity set to `q`. */
  function WithQuantity(cart: Cart, i: int, q: int): (r: Cart)
    requires 0 <= i < |cart|
  {
    cart[i := cart[i].(quantity := q)]
  }

  /** `cart.splice(i, 1)`. */
  function RemoveAt(cart: Cart, i: int): Cart
    requires 0 <= i < |cart|
  {
    cart[..i] + cart[i + 1..]
  }

  /**
   * Adding a product, as both pages do it: the first line with the id gains one
   * unit, or a new line with quantity 1 is appended.
   */
  function Added(cart: Cart, id: string, name: string, price: int, image: string, addedAt: Option<string>): Cart
  {
    var i := FindIndex(cart, id);
    if i >= 0 then WithQuantity(cart, i, cart[i].quantity + 1)
    else cart + [LineItem(id, name, price, image, 1, addedAt)]
  }

  // ----- sums -----

  /** The badge count of a concatenation is the sum of the parts' counts. */
  lemma {:induction false} TotalQuantityAppend(a: Cart, b: Cart)
    ensures TotalQuantity(a + b) == TotalQuantity(a) + TotalQuantity(b)
    decreases |b|
  {
    if b == [] {
      assert a + b == a;
    } else {
      var b' := b[..|b| - 1];
      assert (a + b)[..|a + b| - 1] == a + b';
      TotalQuantityAppend(a, b');
    }
  }

  /** The price total of a concatenation is the sum of the parts' totals. */
  lemma {:induction false} TotalAppend(a: Cart, b: Cart)
    ensures Total(a + b) == Total(a) + Total(b)
    decreases |b|
  {
    if b == [] {
      assert a + b == a;
    } else {
      var b' := b[..|b| - 1];
      assert (a + b)[..|a + b| - 1] == a + b';
      TotalAppend(a, b');
    }
  }

  /** Totals of a single line. */
  lemma SingleLine(x: LineItem)
    ensures TotalQuantity([x]) == x.quantity && Total([x]) == x.price * x.quantity
  {
    assert [x][..0] == [];
  }

  /** Setting one line's quantity changes the badge count by the difference only. */
  lemma {:induction false} TotalQuantityWithQuantity(cart: Cart, i: int, q: int)
    requires 0 <= i < |cart|
    ensures TotalQuantity(WithQuantity(cart, i, q)) == TotalQuantity(cart) - cart[i].quantity + q
  {
    var r := WithQuantity(cart, i, q);
    assert cart == cart[..i] + [cart[i]] + cart[i + 1..];
    assert r == cart[..i] + [r[i]] + cart[i + 1..];
    TotalQuantityAppend(cart[..i] + [cart[i]], cart[i + 1..]);
    TotalQuantityAppend(cart[..i], [cart[i]]);
    TotalQuantityAppend(cart[..i] + [r[i]], cart[i + 1..]);
    TotalQuantityAppend(cart[..i], [r[i]]);
    SingleLine(cart[i]);
    SingleLine(r[i]);
  }

  /** Setting one line's quantity changes the total by that line's price times the difference. */
  lemma {:induction false} TotalWithQuantity(cart: Cart, i: int, q: int)
    requires 0 <= i < |cart|
    ensures Total(WithQuantity(cart, i, q)) == Total(cart) + cart[i].price * (q - cart[i].quantity)
  {
    var r := WithQuantity(cart, i, q);
    assert cart == cart[..i] + [cart[i]] + cart[i + 1..];
    assert r == cart[..i] + [r[i]] + cart[i + 1..];
    TotalAppend(cart[..i] + [cart[i]], cart[i + 1..]);
    TotalAppend(cart[..i], [cart[i]]);
    TotalAppend(cart[..i] + [r[i]], cart[i + 1..]);
    TotalAppend(cart[..i], [r[i]]);
    SingleLine(cart[i]);
    SingleLine(r[i]);
  }

  /** Splicing out one line lowers the badge count by that line's quantity. */
  lemma {:induction false} TotalQuantityRemoveAt(cart: Cart, i: int)
    requires 0 <= i < |cart|
    ensures TotalQuantity(RemoveAt(cart, i)) == TotalQuantity(cart) - cart[i].quantity
  {
    assert cart == cart[..i] + [cart[i]] + cart[i + 1..];
    TotalQuantityAppend(cart[..i] + [cart[i]], cart[i + 1..]);
    TotalQuantityAppend(cart[..i], [cart[i]]);
    TotalQuantityAppend(cart[..i], cart[i + 1..]);
    SingleLine(cart[i]);
  }

  /** A cart whose lines all have positive quantities has a count of at least its length. */
  lemma {:induction false} TotalQuantityAtLeastLength(cart: Cart)
    requires PositiveQuantities(cart)
    ensures TotalQuantity(cart) >= |cart|
    ensures TotalQuantity(cart) == 0 <==> cart == []
  {
    if cart != [] {
      TotalQuantityAtLeastLength(cart[..|cart| - 1]);
    }
  }

  /** The worked example: two units at R100.00 and one at R50.00 come to R250.00. */
  lemma TotalExample()
    ensures Total([LineItem("a", "A", 10000, "a.jpg", 2, None), LineItem("b", "B", 5000, "b.jpg", 1, None)]) == 25000
  {
    var a := LineItem("a", "A", 10000, "a.jpg", 2, None);
    var b := LineItem("b", "B", 5000, "b.jpg", 1, None);
    TotalAppend([a], [b]);
    SingleLine(a);
    SingleLine(b);
    assert [a] + [b] == [a, b];
  }

  // ----- adding -----

  /**
   * What adding does: an id already present gains exactly one unit on its first
   * line, every other line and the length stay the same; an absent id gets
   * exactly one new line with quantity 1, appended at the end.
   */
  lemma AddedShape(cart: Cart, id: string, name: string, price: int, image: string, addedAt: Option<string>)
    ensures var r := Added(cart, id, name, price, image, addedAt);
      if HasId(cart, id) then
        var i := FindIndex(cart, id);
        |r| == |cart| && r[i] == cart[i].(quantity := cart[i].quantity + 1) &&
        forall j :: 0 <= j < |cart| && j != i ==> r[j] == cart[j]
      else
        r == cart + [LineItem(id, name, price, image, 1, addedAt)]
  {
  }

  /** Adding raises the badge count by exactly one. */
  lemma AddedTotalQuantity(cart: Cart, id: string, name: string, price: int, image: string, addedAt: Option<string>)
    ensures TotalQuantity(Added(cart, id, name, price, image, addedAt)) == TotalQuantity(cart) + 1
  {
    var i := FindIndex(cart, id);
    if i >= 0 {
      TotalQuantityWithQuantity(cart, i, cart[i].quantity + 1);
    } else {
      var x := LineItem(id, name, price, image, 1, addedAt);
      TotalQuantityAppend(cart, [x]);
      SingleLine(x);
    }
  }

  /**
   * Adding raises the total by one unit's price: the price already on the
   * product's line when it is in the cart, the given price otherwise.
   */
  lemma AddedTotal(cart: Cart, id: string, name: string, price: int, image: string, addedAt: Option<string>)
    ensures var i := FindIndex(cart, id);
      Total(Added(cart, id, name, price, image, addedAt)) == Total(cart) + (if i >= 0 then cart[i].price else price)
  {
    var i := FindIndex(cart, id);
    if i >= 0 {
      TotalWithQuantity(cart, i, cart[i].quantity + 1);
    } else {
      var x := LineItem(id, name, price, image, 1, addedAt);
      TotalAppend(cart, [x]);
      SingleLine(x);
    }
  }

  /** Adding never creates a second line with the same id, and keeps quantities positive. */
  lemma AddedWellFormed(cart: Cart, id: string, name: string, price: int, image: string, addedAt: Option<string>)
    requires WellFormed(cart)
    ensures WellFormed(Added(cart, id, name, price, image, addedAt))
    ensures HasId(Added(cart, id, name, price, image, addedAt), id)
  {
    var r := Added(cart, id, name, price, image, addedAt);
    var i := FindIndex(cart, id);
    if i < 0 {
      assert r[|cart|].id == id;
    } else {
      assert r[i].id == id;
    }
  }

  // ----- removing -----

  /** The filter keeps exactly the lines whose id differs. */
  lemma {:induction false} WithoutMembers(cart: Cart, id: string)
    ensures forall x :: x in Without(cart, id) <==> x in cart && x.id != id
    ensures |Without(cart, id)| <= |cart|
  {
    if cart != [] {
      WithoutMembers(cart[1..], id);
      assert cart == [cart[0]] + cart[1..];
    }
  }

  /** The filter preserves order: filtering a concatenation filters each part. */
  lemma {:induction false} WithoutAppend(a: Cart, b: Cart, id: string)
    ensures Without(a + b, id) == Without(a, id) + Without(b, id)
  {
    if a == [] {
      assert a + b == b;
    } else {
      assert (a + b)[0] == a[0];
      assert (a + b)[1..] == a[1..] + b;
      WithoutAppend(a[1..], b, id);
    }
  }

  /** Removing an id that is not in the cart leaves it unchanged. */
  lemma {:induction false} WithoutAbsent(cart: Cart, id: string)
    requires forall j :: 0 <= j < |cart| ==> cart[j].id != id
    ensures Without(cart, id) == cart
  {
    if cart != [] {
      assert forall j :: 0 <= j < |cart[1..]| ==> cart[1..][j] == cart[j + 1];
      WithoutAbsent(cart[1..], id);
      assert cart == [cart[0]] + cart[1..];
    }
  }

  /** Filtering around one position: the part before, that line, and the part after. */
  lemma WithoutAround(cart: Cart, i: int, id: string)
    requires 0 <= i < |cart|
    ensures Without(cart, id) == Without(cart[..i], id) + Without([cart[i]], id) + Without(cart[i + 1..], id)
  {
    assert cart == cart[..i] + [cart[i]] + cart[i + 1..];
    WithoutAppend(cart[..i] + [cart[i]], cart[i + 1..], id);
    WithoutAppend(cart[..i], [cart[i]], id);
  }

  /** A line's own id is removed by the filter. */
  lemma WithoutOne(x: LineItem)
    ensures Without([x], x.id) == []
  {
    assert [x][1..] == [];
  }

  /** Nothing before the first match carries the id. */
  lemma WithoutBeforeFirst(cart: Cart, id: string)
    requires HasId(cart, id)
    ensures Without(cart[..FindIndex(cart, id)], id) == cart[..FindIndex(cart, id)]
  {
    var before := cart[..FindIndex(cart, id)];
    assert forall j :: 0 <= j < |before| ==> before[j] == cart[j];
    WithoutAbsent(before, id);
  }

  /** With unique ids, nothing after the first match carries the id. */
  lemma WithoutAfterUnique(cart: Cart, i: int)
    requires UniqueIds(cart) && 0 <= i < |cart|
    ensures Without(cart[i + 1..], cart[i].id) == cart[i + 1..]
  {
    var after := cart[i + 1..];
    forall j | 0 <= j < |after| ensures after[j].id != cart[i].id {
      assert after[j] == cart[i + 1 + j];
    }
    WithoutAbsent(after, cart[i].id);
  }

  /** When ids are unique, the filter is the splice of the one matching line. */
  lemma WithoutUniqueIsRemoveAt(cart: Cart, id: string)
    requires UniqueIds(cart) && HasId(cart, id)
    ensures Without(cart, id) == RemoveAt(cart, FindIndex(cart, id))
  {
    var i := FindIndex(cart, id);
    WithoutAround(cart, i, id);
    WithoutBeforeFirst(cart, id);
    WithoutAfterUnique(cart, i);
    WithoutOne(cart[i]);
  }

  /** Filtering keeps ids unique, quantities positive and the id gone. */
  lemma {:induction false} WithoutWellFormed(cart: Cart, id: string)
    requires WellFormed(cart)
    ensures WellFormed(Without(cart, id)) && !HasId(Without(cart, id), id)
  {
    if cart != [] {
      WithoutWellFormed(cart[1..], id);
      WithoutMembers(cart[1..], id);
      var rest := Without(cart[1..], id);
      if cart[0].id != id {
        forall j | 0 <= j < |rest| ensures rest[j].id != cart[0].id {
          assert rest[j] in cart[1..];
        }
        assert Without(cart, id) == [cart[0]] + rest;
      } else {
        assert Without(cart, id) == rest;
      }
    }
  }

  /** Splicing out one line keeps ids unique and quantities positive. */
  lemma RemoveAtWellFormed(cart: Cart, i: int)
    requires WellFormed(cart) && 0 <= i < |cart|
    ensures WellFormed(RemoveAt(cart, i)) && !HasId(RemoveAt(cart, i), cart[i].id)
  {
    var r := RemoveAt(cart, i);
    forall a, b | 0 <= a < b < |r| ensures r[a].id != r[b].id {
      var a' := if a < i then a else a + 1;
      var b' := if b < i then b else b + 1;
      assert r[a] == cart[a'] && r[b] == cart[b'];
    }
    forall j | 0 <= j < |r| ensures r[j].quantity >= 1 && r[j].id != cart[i].id {
      var j' := if j < i then j else j + 1;
      assert r[j] == cart[j'];
    }
  }

  /** Setting a line's quantity to a positive value keeps the cart well formed. */
  lemma WithQuantityWellFormed(cart: Cart, i: int, q: int)
    requires WellFormed(cart) && 0 <= i < |cart| && q >= 1
    ensures WellFormed(WithQuantity(cart, i, q))
  {
  }
}
