/**
 * The shopping cart: an append-only list of parts with a change event that
 * is raised after every addition.
 */
module ShoppingCart {
  import opened Wrappers
  import opened AutoParts
  import AutoPartService

  /**
   * The exact sum of the prices of `items`, accumulated from the first entry
   * to the last as LINQ's `Sum` does; 0 for no items.
   */
  function TotalPrice(items: seq<AutoPart>): real {
    if items == [] then 0.0 else TotalPrice(items[..|items| - 1]) + items[|items| - 1].price
  }

  /** The total of two lists placed one after the other is the sum of their totals. */
  lemma {:induction false} TotalPriceConcat(a: seq<AutoPart>, b: seq<AutoPart>)
    ensures TotalPrice(a + b) == TotalPrice(a) + TotalPrice(b)
  {
    if b != [] {
      var b' := b[..|b| - 1];
      assert (a + b)[..|a + b| - 1] == a + b';
      TotalPriceConcat(a, b');
    } else {
      assert a + b == a;
    }
  }

  class ShoppingCartService {
    /** The parts added so far, in the order they were added. */
    var cartItems: seq<AutoPart>
    /** How many handlers are subscribed to `OnChange`. */
    var handlers: nat
    /**
     * One entry per invocation of `OnChange`: the cart contents that the
     * subscribed handlers see when they are called.
     */
    var invocations: seq<seq<AutoPart>>

    /**
     * Every invocation happened after an addition and saw the cart as it was
     * then: a non-empty prefix of the current contents, each one longer than
     * the one before. So there are never more invocations than entries.
     */
    ghost predicate Valid()
      reads this
    {
      && |invocations| <= |cartItems|
      && (forall k :: 0 <= k < |invocations| ==> 0 < |invocations[k]| && invocations[k] <= cartItems)
      && (forall k, l :: 0 <= k < l < |invocations| ==> |invocations[k]| < |invocations[l]|)
    }

    /** A new cart is empty, has no subscribers and has raised nothing. */
    constructor ()
      ensures Valid()
      ensures cartItems == [] && handlers == 0 && invocations == []
    {
      cartItems := [];
      handlers := 0;
      invocations := [];
    }

    /** `OnChange += handler`: one more handler is called on each change. */
    method Subscribe()
      requires Valid()
      modifies this`handlers
      ensures Valid()
      ensures handlers == old(handlers) + 1
    {
      handlers := handlers + 1;
    }

    /**
     * Appends the part, with no check against any catalog, then raises the
     * change event once. The handlers observe the cart with the part already
     * in it; with no handler subscribed nothing else happens.
     */
    method AddToCart(part: AutoPart)
      requires Valid()
      modifies this`cartItems, this`invocations
      ensures Valid()
      ensures cartItems == old(cartItems) + [part]
      ensures invocations == old(invocations) + if handlers > 0 then [cartItems] else []
      ensures GetTotalPrice() == old(GetTotalPrice()) + part.price
    {
      cartItems := cartItems + [part];
      assert cartItems[..|cartItems| - 1] == old(cartItems);
      NotifyStateChanged();
    }

    /** `OnChange?.Invoke()`: calls the handlers, if there are any, once. */
    method NotifyStateChanged()
      modifies this`invocations
      ensures invocations == old(invocations) + if handlers > 0 then [cartItems] else []
    {
      if handlers > 0 {
        invocations := invocations + [cartItems];
      }
    }

    /** The entries in insertion order; the cart is left as it was. */
    method GetCartItems() returns (items: seq<AutoPart>)
      ensures items == cartItems
    {
      items := cartItems;
    }

    /** The sum of the prices of all entries; exactly 0 for an empty cart. */
    function GetTotalPrice(): (r: real)
      reads this
      ensures r == TotalPrice(cartItems)
      ensures cartItems == [] ==> r == 0.0
    {
      TotalPrice(cartItems)
    }
  }

  /**
   * A caller looks parts up in a catalog with ids 1, 2 and 3 and adds the
   * first and the third to a fresh cart: the lookup finds id 2 and misses
   * id 99, and the cart holds the two parts in call order with the sum of
   * their prices as total.
   */
  method LookupThenAdd(p1: AutoPart, p2: AutoPart, p3: AutoPart)
    returns (found: Option<AutoPart>, missing: Option<AutoPart>, items: seq<AutoPart>, total: real)
    requires p1.id == 1 && p2.id == 2 && p3.id == 3
    ensures found == Some(p2) && missing == None
    ensures items == [p1, p3] && total == p1.price + p3.price
  {
    var catalog := [p1, p2, p3];
    found := AutoPartService.FirstById(catalog, 2);
    assert AutoPartService.IsFirstWithId(catalog, 2, 1);
    missing := AutoPartService.FirstById(catalog, 99);
    var cart := new ShoppingCartService();
    cart.AddToCart(p1);
    cart.AddToCart(p3);
    items := cart.GetCartItems();
    total := cart.GetTotalPrice();
  }

  /**
   * Adding the same part twice keeps two entries and counts its price twice;
   * with one handler subscribed, the change event is raised once per addition.
   */
  method AddSamePartTwice(part: AutoPart) returns (items: seq<AutoPart>, total: real, raised: nat)
    ensures items == [part, part] && total == 2.0 * part.price
    ensures raised == 2
  {
    var cart := new ShoppingCartService();
    cart.Subscribe();
    cart.AddToCart(part);
    assert cart.cartItems == [part] && |cart.invocations| == 1;
    cart.AddToCart(part);
    items := cart.GetCartItems();
    total := cart.GetTotalPrice();
    raised := |cart.invocations|;
  }
}
