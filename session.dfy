/** The per-browser session: an optional signed-in user and an optional cart of product
    names, with the routes that read and change it. */
module Sessions {
  import opened Wrappers
  import opened Seqs
  import opened Catalog
  import ProductSearch

  function NotEqualTo(name: string): string -> bool
  {
    item => item != name
  }

  /** `[item for item in cart if item != name]`. */
  function RemoveAll(cart: seq<string>, name: string): seq<string>
  {
    Filter(cart, NotEqualTo(name))
  }

  /** Removal deletes every entry equal to `name` and keeps every other entry as often as
      it was there. */
  lemma RemoveAllCounts(cart: seq<string>, name: string, x: string)
    ensures name !in RemoveAll(cart, name)
    ensures multiset(RemoveAll(cart, name))[x] == if x == name then 0 else multiset(cart)[x]
  {
    FilterMembership(cart, NotEqualTo(name), name);
    FilterCount(cart, NotEqualTo(name), x);
  }

  /** The entries that stay keep their relative order. */
  lemma RemoveAllKeepsOrder(cart: seq<string>, name: string)
    ensures IsSubsequence(RemoveAll(cart, name), cart)
  {
    FilterIsSubsequence(cart, NotEqualTo(name));
  }

  /** Removing a name twice is removing it once. */
  lemma RemoveAllIdempotent(cart: seq<string>, name: string)
    ensures RemoveAll(RemoveAll(cart, name), name) == RemoveAll(cart, name)
  {
    FilterIdempotent(cart, NotEqualTo(name));
  }

  /** Removing a name that is not in the cart changes nothing. */
  lemma RemoveAbsentName(cart: seq<string>, name: string)
    requires name !in cart
    ensures RemoveAll(cart, name) == cart
  {
    FilterAllPass(cart, NotEqualTo(name));
  }

  /** The entries carrying one name add that name's count times its first match's price to
      the price of the rest of the cart, wherever they stand. */
  lemma {:induction false} NamePriceSplits(names: seq<string>, name: string, catalog: seq<Product>)
    ensures CartPrice(names, catalog)
            == CartPrice(RemoveAll(names, name), catalog)
               + Times(multiset(names)[name], PriceOf(catalog, name))
  {
    var price := PriceOf(catalog, name);
    if names == [] {
      ScaleZero(price);
    } else {
      var head, rest := names[0], names[1..];
      NamePriceSplits(rest, name, catalog);
      var kept := RemoveAll(rest, name);
      var n := multiset(rest)[name];
      var others := CartPrice(kept, catalog);
      assert CartPrice(rest, catalog) == others + Times(n, price);
      assert CartPrice(names, catalog) == PriceOf(catalog, head) + CartPrice(rest, catalog);
      assert names == [head] + rest;
      assert multiset(names) == multiset([head]) + multiset(rest);
      FilterCons(head, rest, NotEqualTo(name));
      if head == name {
        assert multiset(names)[name] == n + 1;
        assert RemoveAll(names, name) == kept;
        ScaleStep(n + 1, price);
        assert Times(n, price) + price == Times(n + 1, price);
      } else {
        assert multiset(names)[name] == n;
        assert RemoveAll(names, name) == [head] + kept;
        assert ([head] + kept)[0] == head && ([head] + kept)[1..] == kept;
        assert CartPrice(RemoveAll(names, name), catalog) == PriceOf(catalog, head) + others;
      }
    }
  }

  /** The fields of the order form. */
  datatype OrderForm = OrderForm(name: string, address: string, phone: string, email: string)

  /** The confirmed order shown to the customer. */
  datatype Order = Order(form: OrderForm, totalPrice: real, products: seq<Product>)

  /** The data of the cart page and of the cart checkout page. */
  datatype CartView = CartView(products: seq<Product>, totalPrice: real)

  class Session {
    var username: Option<string>
    var cart: Option<seq<string>>

    /** A fresh session: a user, or none, and no cart yet. */
    constructor (user: Option<string>)
      ensures username == user && cart == None
    {
      username := user;
      cart := None;
    }

    /** `session.get('cart', [])`. */
    function Cart(): seq<string>
      reads this
    {
      cart.GetOr([])
    }

    /** `inject_cart_count`: the number of entries, duplicates included. */
    function CartCount(): (n: nat)
      reads this
      ensures n == 0 <==> cart.None? || cart == Some([])
    {
      |Cart()|
    }

    /** `add_to_cart`: signed-in users get the name appended to their cart, which is created
        empty first if there is none; no duplicate check, no catalog check. */
    method AddToCart(name: string) returns (authorized: bool)
      modifies this
      ensures authorized <==> username.Some?
      ensures username == old(username)
      ensures authorized ==> cart == Some(old(Cart()) + [name])
      ensures authorized ==> CartCount() == old(CartCount()) + 1
      ensures !authorized ==> cart == old(cart)
    {
      authorized := username.Some?;
      if authorized {
        var items := cart.GetOr([]);
        cart := Some(items + [name]);
      }
    }

    /** `remove_from_cart`: signed-in users with a cart get every entry equal to `name`
        removed; without a cart the session is left as it is. */
    method RemoveFromCart(name: string) returns (authorized: bool)
      modifies this
      ensures authorized <==> username.Some?
      ensures username == old(username)
      ensures authorized && old(cart).Some? ==> cart == Some(RemoveAll(old(cart).value, name))
      ensures !authorized || old(cart).None? ==> cart == old(cart)
    {
      authorized := username.Some?;
      if authorized && cart.Some? {
        cart := Some(RemoveAll(cart.value, name));
      }
    }

    /** `search`: for a signed-in user, the products the query shows; there is no page for
        a visitor. */
    method SearchCatalog(query: string, catalog: seq<Product>)
      returns (page: Option<seq<Product>>)
      ensures page.None? <==> username.None?
      ensures page.Some? ==> page.value == ProductSearch.Search(query, catalog)
    {
      if username.None? {
        return None;
      }
      page := Some(ProductSearch.Search(query, catalog));
    }

    /** `cart`: for a signed-in user, the resolved line items and their total. */
    method ViewCart(catalog: seq<Product>) returns (view: Option<CartView>)
      ensures view.None? <==> username.None?
      ensures view.Some? ==>
        && view.value.products == LineItems(Cart(), catalog)
        && view.value.totalPrice == Total(view.value.products)
    {
      if username.None? {
        return None;
      }
      var items, total := ResolveCart(Cart(), catalog);
      view := Some(CartView(items, total));
    }

    /** `checkout_cart`: the same resolution, for the checkout form. */
    method CheckoutCart(catalog: seq<Product>) returns (view: Option<CartView>)
      ensures view.None? <==> username.None?
      ensures view.Some? ==>
        && view.value.products == LineItems(Cart(), catalog)
        && view.value.totalPrice == CartPrice(Cart(), catalog)
    {
      if username.None? {
        return None;
      }
      var selected, total := ResolveCart(Cart(), catalog);
      TotalIsCartPrice(Cart(), catalog);
      view := Some(CartView(selected, total));
    }

    /** `confirm_cart_order`: resolve the cart into the order, then drop the cart. There is
        no sign-in check on this route. */
    method ConfirmCartOrder(form: OrderForm, catalog: seq<Product>) returns (order: Order)
      modifies this
      ensures order.form == form
      ensures order.products == LineItems(old(Cart()), catalog)
      ensures order.totalPrice == Total(order.products)
      ensures cart == None && CartCount() == 0
      ensures username == old(username)
    {
      var items, total := ResolveCart(Cart(), catalog);
      cart := None;
      order := Order(form, total, items);
    }
  }
}
