/** The product catalog and the cart-resolution loop shared by the cart page, the cart
    checkout and the cart order confirmation. */
module Catalog {
  import opened Wrappers

  /** One record of the catalog. Prices are exact; `image` stands for the descriptive
      fields that are passed through untouched. */
  datatype Product = Product(name: string, price: real, image: string)

  /** `next((p for p in catalog if p['name'] == name), None)`, as an index: the first
      product carrying exactly that name. */
  function Find(catalog: seq<Product>, name: string): (r: Option<nat>)
    ensures r.Some? ==> r.value < |catalog| && catalog[r.value].name == name
    ensures r.Some? ==> forall k :: 0 <= k < r.value ==> catalog[k].name != name
    ensures r.None? <==> forall k :: 0 <= k < |catalog| ==> catalog[k].name != name
  {
    if catalog == [] then None
    else if catalog[0].name == name then Some(0)
    else match Find(catalog[1..], name)
      case None => None
      case Some(j) => Some(j + 1)
  }

  /** The line items one cart entry contributes: its first match, or nothing. */
  function Resolve(catalog: seq<Product>, name: string): seq<Product>
  {
    match Find(catalog, name)
    case None => []
    case Some(j) => [catalog[j]]
  }

  /** The line items of a cart: each entry's first match, skipping entries that match
      nothing, in cart order. */
  function LineItems(names: seq<string>, catalog: seq<Product>): seq<Product>
  {
    if names == [] then []
    else LineItems(names[..|names| - 1], catalog) + Resolve(catalog, names[|names| - 1])
  }

  /** The sum of the prices of `items`. */
  function Total(items: seq<Product>): real
  {
    if items == [] then 0.0 else Total(items[..|items| - 1]) + items[|items| - 1].price
  }

  /** The price one cart entry adds: the price of its first match, or zero. */
  function PriceOf(catalog: seq<Product>, name: string): real
  {
    match Find(catalog, name)
    case None => 0.0
    case Some(j) => catalog[j].price
  }

  /** Independent reference for the total: entry by entry, what each cart entry adds. */
  function CartPrice(names: seq<string>, catalog: seq<Product>): real
  {
    if names == [] then 0.0 else PriceOf(catalog, names[0]) + CartPrice(names[1..], catalog)
  }

  /** The three resolve loops of the source: walk the cart, look each name up, and on a
      hit append the product and add its price. */
  method ResolveCart(names: seq<string>, catalog: seq<Product>)
    returns (items: seq<Product>, total: real)
    ensures items == LineItems(names, catalog)
    ensures total == Total(items)
  {
    items, total := [], 0.0;
    var i := 0;
    while i < |names|
      invariant 0 <= i <= |names|
      invariant items == LineItems(names[..i], catalog)
      invariant total == Total(items)
    {
      var found := Find(catalog, names[i]);
      assert names[..i + 1][..i] == names[..i];
      if found.Some? {
        var product := catalog[found.value];
        items := items + [product];
        total := total + product.price;
      }
      i := i + 1;
    }
    assert names[..|names|] == names;
  }

  lemma {:induction false} LineItemsAppend(a: seq<string>, b: seq<string>, catalog: seq<Product>)
    ensures LineItems(a + b, catalog) == LineItems(a, catalog) + LineItems(b, catalog)
    decreases |b|
  {
    if b == [] {
      assert a + b == a;
    } else {
      var b' := b[..|b| - 1];
      assert (a + b)[..|a + b| - 1] == a + b';
      assert (a + b)[|a + b| - 1] == b[|b| - 1];
      LineItemsAppend(a, b', catalog);
    }
  }

  lemma {:induction false} TotalAppend(a: seq<Product>, b: seq<Product>)
    ensures Total(a + b) == Total(a) + Total(b)
    decreases |b|
  {
    if b == [] {
      assert a + b == a;
    } else {
      var b' := b[..|b| - 1];
      assert (a + b)[..|a + b| - 1] == a + b';
      assert (a + b)[|a + b| - 1] == b[|b| - 1];
      TotalAppend(a, b');
    }
  }

  /** A cart never yields more line items than it has entries. */
  lemma {:induction false} LineItemsAtMostEntries(names: seq<string>, catalog: seq<Product>)
    ensures |LineItems(names, catalog)| <= |names|
  {
    if names != [] {
      LineItemsAtMostEntries(names[..|names| - 1], catalog);
    }
  }

  /** Every line item is a catalog product that is the first one with its name, and that
      name is in the cart. */
  lemma {:induction false} LineItemsAreFirstMatches(names: seq<string>, catalog: seq<Product>, p: Product)
    requires p in LineItems(names, catalog)
    ensures p in catalog && p.name in names
    ensures Find(catalog, p.name).Some? && catalog[Find(catalog, p.name).value] == p
  {
    var last := names[|names| - 1];
    var init := names[..|names| - 1];
    assert names == init + [last];
    if p in LineItems(init, catalog) {
      LineItemsAreFirstMatches(init, catalog, p);
    } else {
      assert p in Resolve(catalog, last);
    }
  }

  /** Line items are resolved entry by entry, in cart order. */
  lemma LineItemsCons(name: string, rest: seq<string>, catalog: seq<Product>)
    ensures LineItems([name] + rest, catalog) == Resolve(catalog, name) + LineItems(rest, catalog)
  {
    LineItemsAppend([name], rest, catalog);
    LineItemsSingle(name, catalog);
  }

  lemma LineItemsSingle(name: string, catalog: seq<Product>)
    ensures LineItems([name], catalog) == Resolve(catalog, name)
  {
    var names := [name];
    assert names[..0] == [] && names[0] == name;
    assert LineItems(names, catalog) == LineItems([], catalog) + Resolve(catalog, name);
  }

  /** An entry that matches nothing contributes nothing, wherever it stands. */
  lemma OrphanContributesNothing(a: seq<string>, name: string, b: seq<string>, catalog: seq<Product>)
    requires forall k :: 0 <= k < |catalog| ==> catalog[k].name != name
    ensures LineItems(a + [name] + b, catalog) == LineItems(a + b, catalog)
  {
    LineItemsSingle(name, catalog);
    LineItemsAppend(a + [name], b, catalog);
    LineItemsAppend(a, [name], catalog);
    LineItemsAppend(a, b, catalog);
    assert LineItems(a + [name], catalog) == LineItems(a, catalog);
  }

  /** The total is the sum, over the cart entries, of what each entry adds. */
  lemma {:induction false} TotalIsCartPrice(names: seq<string>, catalog: seq<Product>)
    ensures Total(LineItems(names, catalog)) == CartPrice(names, catalog)
  {
    if names != [] {
      var rest := names[1..];
      assert names == [names[0]] + rest;
      LineItemsCons(names[0], rest, catalog);
      TotalAppend(Resolve(catalog, names[0]), LineItems(rest, catalog));
      TotalIsCartPrice(rest, catalog);
      assert Total(Resolve(catalog, names[0])) == PriceOf(catalog, names[0]) by {
        var r := Resolve(catalog, names[0]);
        if r != [] {
          assert r[..0] == [];
        }
      }
    }
  }

  /** A product that is the first match of its name appears among the line items once per
      cart entry carrying that name. */
  lemma {:induction false} LineItemsCount(names: seq<string>, catalog: seq<Product>, p: Product)
    requires Find(catalog, p.name).Some? && catalog[Find(catalog, p.name).value] == p
    ensures multiset(LineItems(names, catalog))[p] == multiset(names)[p.name]
  {
    if names != [] {
      var last := names[|names| - 1];
      var init := names[..|names| - 1];
      assert names == init + [last];
      LineItemsCount(init, catalog, p);
      assert multiset(names) == multiset(init) + multiset{last};
      var r := Resolve(catalog, last);
      assert multiset(LineItems(names, catalog)) == multiset(LineItems(init, catalog)) + multiset(r);
      if last == p.name {
        assert r == [p];
      } else if r != [] {
        assert r[0].name == last;
      }
    }
  }

  /** `k` cart entries, all of them `name`. */
  function Repeat(name: string, k: nat): (r: seq<string>)
    ensures |r| == k && forall i :: 0 <= i < k ==> r[i] == name
  {
    if k == 0 then [] else Repeat(name, k - 1) + [name]
  }

  /** Buying the same product k times costs k times its price. */
  lemma {:induction false} RepeatedEntryPrice(name: string, k: nat, catalog: seq<Product>)
    requires Find(catalog, name).Some?
    ensures Total(LineItems(Repeat(name, k), catalog))
            == Times(k, catalog[Find(catalog, name).value].price)
  {
    var price := catalog[Find(catalog, name).value].price;
    if k == 0 {
      ScaleZero(price);
    } else {
      var s := Repeat(name, k);
      assert s[..k - 1] == Repeat(name, k - 1);
      RepeatedEntryPrice(name, k - 1, catalog);
      var before := Total(LineItems(s[..k - 1], catalog));
      assert before == Times(k - 1, price);
      var r := Resolve(catalog, name);
      TotalAppend(LineItems(s[..k - 1], catalog), r);
      assert Total(r) == price by {
        assert r[..0] == [];
      }
      assert Total(LineItems(s, catalog)) == before + price;
      ScaleStep(k, price);
    }
  }

  /** `k * x`, kept behind a function so that the real multiplication stays out of the
      larger proofs. */
  function Times(k: nat, x: real): real
  {
    k as real * x
  }

  lemma ScaleZero(x: real)
    ensures Times(0, x) == 0.0
  {
  }

  lemma ScaleStep(k: nat, x: real)
    requires k > 0
    ensures Times(k - 1, x) + x == Times(k, x)
  {
  }

  /** Two red sarees and a pair of jeans: three line items, the first and the third the
      same product, total 56.0. */
  lemma ExampleCart()
    ensures
      var saree := Product("Red Saree", 20.5, "saree.jpg");
      var jeans := Product("Blue Jeans", 15.0, "jeans.jpg");
      var items := LineItems(["Red Saree", "Blue Jeans", "Red Saree"], [saree, jeans]);
      items == [saree, jeans, saree] && Total(items) == 56.0
  {
    var saree := Product("Red Saree", 20.5, "saree.jpg");
    var jeans := Product("Blue Jeans", 15.0, "jeans.jpg");
    var catalog := [saree, jeans];
    var names := ["Red Saree", "Blue Jeans", "Red Saree"];
    assert "Blue Jeans" != "Red Saree" by { assert "Blue Jeans"[0] != "Red Saree"[0]; }
    assert Resolve(catalog, "Red Saree") == [saree];
    assert catalog[1..] == [jeans];
    assert Find(catalog, "Blue Jeans") == Some(1);
    assert Resolve(catalog, "Blue Jeans") == [jeans];
    LineItemsCons("Red Saree", ["Blue Jeans", "Red Saree"], catalog);
    LineItemsCons("Blue Jeans", ["Red Saree"], catalog);
    LineItemsCons("Red Saree", [], catalog);
    assert names == ["Red Saree"] + ["Blue Jeans", "Red Saree"];
    assert ["Blue Jeans", "Red Saree"] == ["Blue Jeans"] + ["Red Saree"];
    assert ["Red Saree"] == ["Red Saree"] + [];
    var items := LineItems(names, catalog);
    assert items == [saree, jeans, saree];
    TotalAppend([saree], [jeans, saree]);
    TotalAppend([jeans], [saree]);
    assert [saree][..0] == [] && [jeans][..0] == [];
    assert [saree, jeans, saree] == [saree] + [jeans, saree];
    assert [jeans, saree] == [jeans] + [saree];
  }
}
