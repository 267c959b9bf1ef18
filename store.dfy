/**
 * The storefront's state and the card handlers that change it: the catalog and
 * the cart (App.jsx:111-113), `setQtd` and `total` (App.jsx:129-130), the
 * checkout test (App.jsx:131-132, 181) and the handlers of `ProdutoCard`
 * (App.jsx:60-70, 83).
 *
 * The checkout test is written with `or` and `not` in the source, which are not
 * JavaScript operators; the model reads them as `||` and `!`.
 *
 * The minimum order value is written `300,00` in the store's configuration
 * (App.jsx:6), which is not a valid JavaScript number; the model takes the
 * minimum as a parameter of the storefront, and the evident value is 300.
 */
module Store {
  import opened Wrappers
  import Csv
  import opened Products
  import Catalog
  import Quantity

  /** One entry of `carrinho`: the product's id, the name and price copied when it was set, and the quantity. */
  datatype CartLine = CartLine(id: string, name: string, price: real, qty: int)

  type Cart = map<string, CartLine>

  function LineTotal(l: CartLine): real
  {
    l.qty as real * l.price
  }

  /** The sum of the line totals of the entries named in `keys`. */
  ghost function SumOver(cart: Cart, keys: set<string>): real
    requires keys <= cart.Keys
    decreases keys
  {
    if keys == {} then 0.0
    else
      var id :| id in keys;
      LineTotal(cart[id]) + SumOver(cart, keys - {id})
  }

  /** The cart total (App.jsx:130): quantity times price, summed over every entry. */
  ghost function Total(cart: Cart): real
  {
    SumOver(cart, cart.Keys)
  }

  /** The sum does not depend on the order the entries are taken in: any entry can be taken first. */
  lemma {:induction false} SumOverRemove(cart: Cart, keys: set<string>, id: string)
    requires keys <= cart.Keys && id in keys
    ensures SumOver(cart, keys) == LineTotal(cart[id]) + SumOver(cart, keys - {id})
    decreases keys
  {
    var x :| x in keys && SumOver(cart, keys) == LineTotal(cart[x]) + SumOver(cart, keys - {x});
    if x != id {
      SumOverRemove(cart, keys - {x}, id);
      SumOverRemove(cart, keys - {id}, x);
      assert keys - {x} - {id} == keys - {id} - {x};
    }
  }

  /** Entries outside `keys` do not matter. */
  lemma {:induction false} SumOverSame(c1: Cart, c2: Cart, keys: set<string>)
    requires keys <= c1.Keys && keys <= c2.Keys
    requires forall id :: id in keys ==> c1[id] == c2[id]
    ensures SumOver(c1, keys) == SumOver(c2, keys)
    decreases keys
  {
    if keys != {} {
      var x :| x in keys && SumOver(c1, keys) == LineTotal(c1[x]) + SumOver(c1, keys - {x});
      SumOverRemove(c2, keys, x);
      SumOverSame(c1, c2, keys - {x});
    }
  }

  /** The total of an empty cart is 0. */
  lemma TotalEmpty()
    ensures Total(map[]) == 0.0
  {
    var empty: Cart := map[];
    assert empty.Keys == {};
  }

  /** Setting entry `id` changes the total by the difference of that entry's line totals alone. */
  lemma TotalUpdate(cart: Cart, id: string, line: CartLine)
    ensures Total(cart[id := line]) == Total(cart) - (if id in cart then LineTotal(cart[id]) else 0.0) + LineTotal(line)
  {
    var updated := cart[id := line];
    var rest := cart.Keys - {id};
    assert updated.Keys - {id} == rest;
    SumOverRemove(updated, updated.Keys, id);
    SumOverSame(updated, cart, rest);
    if id in cart {
      SumOverRemove(cart, cart.Keys, id);
    } else {
      assert rest == cart.Keys;
    }
  }

  /** A sum over entries whose quantities are all 0 is 0. */
  lemma {:induction false} SumOverOfZeros(cart: Cart, keys: set<string>)
    requires keys <= cart.Keys && forall id :: id in keys ==> cart[id].qty == 0
    ensures SumOver(cart, keys) == 0.0
    decreases keys
  {
    if keys != {} {
      var x :| x in keys && SumOver(cart, keys) == LineTotal(cart[x]) + SumOver(cart, keys - {x});
      assert LineTotal(cart[x]) == 0.0 by { assert cart[x].qty as real == 0.0; }
      SumOverOfZeros(cart, keys - {x});
    }
  }

  /** With no negative quantity, a cart whose total is not 0 has an entry with a positive quantity. */
  lemma NonZeroTotalHasItem(cart: Cart)
    requires forall id :: id in cart ==> cart[id].qty >= 0
    requires Total(cart) != 0.0
    ensures HasItems(cart)
  {
    if !HasItems(cart) {
      SumOverOfZeros(cart, cart.Keys);
    }
  }

  /** Some entry of the cart has a positive quantity (App.jsx:181). */
  predicate HasItems(cart: Cart)
  {
    exists id :: id in cart && cart[id].qty > 0
  }

  /** The `disabled` test of the checkout button. */
  ghost predicate CheckoutDisabled(cart: Cart, minimum: real, name: string, phone: string)
  {
    !HasItems(cart) || Total(cart) < minimum || name == "" || phone == ""
  }

  /**
   * With a positive minimum, the test for items is implied by the test on the
   * total: checkout is enabled exactly when the total reaches the minimum and
   * both name and phone are filled in.
   */
  lemma CheckoutWithPositiveMinimum(cart: Cart, minimum: real, name: string, phone: string)
    requires forall id :: id in cart ==> cart[id].qty >= 0
    requires minimum > 0.0
    ensures !CheckoutDisabled(cart, minimum, name, phone) <==> Total(cart) >= minimum && name != "" && phone != ""
  {
    if Total(cart) >= minimum {
      NonZeroTotalHasItem(cart);
    }
  }

  /** An empty cart cannot be checked out, whatever the minimum. */
  lemma EmptyCartDisabled(minimum: real, name: string, phone: string)
    ensures CheckoutDisabled(map[], minimum, name, phone)
  {
  }

  /** The catalog lookup of `setQtd` (App.jsx:129): the first product with that id. */
  function FindProduct(catalog: seq<Product>, id: string): (r: Option<Product>)
    ensures r.None? <==> forall i :: 0 <= i < |catalog| ==> catalog[i].id != id
    ensures r.Some? ==> exists i :: FirstWithId(catalog, id, i) && catalog[i] == r.value
    decreases |catalog|
  {
    if catalog == [] then None
    else if catalog[0].id == id then Some(catalog[0])
    else
      var r := FindProduct(catalog[1..], id);
      assert forall i :: 1 <= i < |catalog| ==> catalog[i] == catalog[1..][i - 1];
      if r.Some? then
        var i :| FirstWithId(catalog[1..], id, i) && catalog[1..][i] == r.value;
        assert FirstWithId(catalog, id, i + 1);
        r
      else r
  }

  /** Index `i` holds the first product with this id. */
  predicate FirstWithId(catalog: seq<Product>, id: string, i: int)
  {
    0 <= i < |catalog| && catalog[i].id == id && forall j :: 0 <= j < i ==> catalog[j].id != id
  }

  /** The storefront's state: the catalog on show, the search text and the cart. */
  class Storefront {
    var catalog: seq<Product>
    var query: string
    var cart: Cart
    /**
     * The minimum order value, a configuration constant of the store. The source
     * writes it as `300,00` (App.jsx:6), not a valid number; 300 is the evident value.
     */
    const minimum: real

    /** Every cart entry is filed under its own id and holds a clamped quantity. */
    ghost predicate Valid()
      reads this`cart
    {
      forall id :: id in cart ==> cart[id].id == id && cart[id].qty >= 0
    }

    constructor(defaults: seq<Product>, minimum: real)
      ensures catalog == defaults && query == "" && cart == map[] && this.minimum == minimum
      ensures Valid()
    {
      catalog := defaults;
      query := "";
      cart := map[];
      this.minimum := minimum;
    }

    method SetQuery(q: string)
      modifies this
      ensures query == q && catalog == old(catalog) && cart == old(cart)
    {
      query := q;
    }

    /**
     * The feed's text has arrived: it is parsed, normalized and filtered, and
     * replaces the catalog only if some product in it is active.
     */
    method LoadFeed(text: string)
      requires Valid()
      modifies this`catalog
      ensures Valid()
      ensures catalog == Catalog.NextCatalog(old(catalog), Csv.Records(Csv.Rows(text)))
      ensures query == old(query) && cart == old(cart)
    {
      var records := Csv.ParseCsv(text);
      var next := Catalog.NextCatalog(catalog, records);
      assert Valid() && next == Catalog.NextCatalog(old(catalog), Csv.Records(Csv.Rows(text)));
      catalog := next;
    }

    /** The quantity a card shows for a product (App.jsx:69-70): its cart entry's, or 0 without one. */
    function Qty(id: string): (q: int)
      reads this
      ensures id !in cart ==> q == 0
      ensures Valid() ==> q >= 0
    {
      if id in cart then cart[id].qty else 0
    }

    /** The entry `setQtd(id, qty)` stores: catalog name and price, quantity clamped at 0. */
    function LineFor(id: string, qty: int): (l: CartLine)
      requires FindProduct(catalog, id).Some?
      reads this
      ensures l.id == id && l.qty >= 0 && (qty >= 0 ==> l.qty == qty) && (qty < 0 ==> l.qty == 0)
      ensures exists i :: FirstWithId(catalog, id, i) && l.name == catalog[i].name && l.price == catalog[i].price
    {
      var item := FindProduct(catalog, id).value;
      CartLine(id, item.name, item.price, Quantity.Clamp(qty))
    }

    /** `setQtd`: only the entry for `id` changes. */
    method SetQtd(id: string, qty: int)
      requires Valid() && FindProduct(catalog, id).Some?
      modifies this
      ensures Valid()
      ensures cart == old(cart)[id := old(LineFor(id, qty))]
      ensures catalog == old(catalog) && query == old(query)
      ensures Total(cart) == old(Total(cart) - (if id in cart then LineTotal(cart[id]) else 0.0) + LineTotal(LineFor(id, qty)))
    {
      TotalUpdate(cart, id, LineFor(id, qty));
      cart := cart[id := LineFor(id, qty)];
    }

    /** The checkout button is enabled for the given customer name and phone. */
    ghost predicate CheckoutEnabled(name: string, phone: string)
      reads this
    {
      !CheckoutDisabled(cart, minimum, name, phone)
    }

    /**
     * In a valid storefront with a positive minimum, checkout is enabled exactly
     * when the total reaches the minimum and both name and phone are filled in.
     */
    lemma CheckoutEnabledIff(name: string, phone: string)
      requires Valid() && minimum > 0.0
      ensures CheckoutEnabled(name, phone) <==> Total(cart) >= minimum && name != "" && phone != ""
    {
      CheckoutWithPositiveMinimum(cart, minimum, name, phone);
    }
  }

  /** A product card: its product, its case size as a whole number, and the case-mode switch. */
  class ProductCard {
    const item: Product
    const caseSize: int
    const shop: Storefront
    var caseMode: bool

    /**
     * The case size is a whole number of at least 1, a case-only product is
     * always in case mode, and the card's product can be found in the catalog.
     */
    ghost predicate Valid()
      reads this, shop
    {
      && caseSize >= 1 && item.caseSize == caseSize as real
      && (item.caseOnly ==> caseMode)
      && shop.Valid() && FindProduct(shop.catalog, item.id).Some?
    }

    /** A new card (App.jsx:61): case mode starts on exactly for a case-only product. */
    constructor(item: Product, caseSize: int, shop: Storefront)
      requires caseSize >= 1 && item.caseSize == caseSize as real
      requires shop.Valid() && FindProduct(shop.catalog, item.id).Some?
      ensures this.item == item && this.caseSize == caseSize && this.shop == shop
      ensures caseMode == item.caseOnly
      ensures Valid()
    {
      this.item := item;
      this.caseSize := caseSize;
      this.shop := shop;
      caseMode := item.caseOnly;
    }

    function Step(): int
      requires caseSize >= 1
      reads this
    {
      Quantity.Step(caseMode, caseSize)
    }

    /** `handleChange`: the typed text, read and rounded, becomes the quantity. */
    method HandleChange(val: string)
      requires Valid()
      modifies shop
      ensures Valid() && caseMode == old(caseMode)
      ensures shop.cart == old(shop.cart)[item.id := old(shop.LineFor(item.id, Quantity.Entered(val, caseMode, caseSize)))]
      ensures shop.Qty(item.id) == Quantity.Entered(val, caseMode, caseSize)
      ensures shop.catalog == old(shop.catalog) && shop.query == old(shop.query)
    {
      shop.SetQtd(item.id, Quantity.Entered(val, caseMode, caseSize));
    }

    /** `inc`: one step more. */
    method Inc()
      requires Valid()
      modifies shop
      ensures Valid() && caseMode == old(caseMode)
      ensures shop.cart == old(shop.cart)[item.id := old(shop.LineFor(item.id, Quantity.AfterInc(shop.Qty(item.id), caseMode, caseSize)))]
      ensures shop.Qty(item.id) == Quantity.AfterInc(old(shop.Qty(item.id)), caseMode, caseSize)
      ensures shop.catalog == old(shop.catalog) && shop.query == old(shop.query)
    {
      var next := Quantity.AfterInc(shop.Qty(item.id), caseMode, caseSize);
      shop.SetQtd(item.id, next);
    }

    /** `dec`: one step less, but not below 0. */
    method Dec()
      requires Valid()
      modifies shop
      ensures Valid() && caseMode == old(caseMode)
      ensures shop.cart == old(shop.cart)[item.id := old(shop.LineFor(item.id, Quantity.AfterDec(shop.Qty(item.id), caseMode, caseSize)))]
      ensures shop.Qty(item.id) == Quantity.AfterDec(old(shop.Qty(item.id)), caseMode, caseSize)
      ensures shop.catalog == old(shop.catalog) && shop.query == old(shop.query)
    {
      var q := shop.Qty(item.id);
      var next := if q - Step() < 0 then 0 else q - Step();
      assert next == Quantity.AfterDec(q, caseMode, caseSize);
      shop.SetQtd(item.id, next);
    }

    /**
     * The "buy by the case" checkbox. It is disabled for a case-only product, so
     * nothing changes then; otherwise the mode follows the box, and switching it on
     * rounds the quantity up to whole cases.
     */
    method ToggleCaseMode(checked: bool)
      requires Valid()
      modifies this, shop
      ensures Valid()
      ensures item.caseOnly ==> caseMode == old(caseMode) && shop.cart == old(shop.cart)
      ensures !item.caseOnly ==> caseMode == checked
      ensures !item.caseOnly && !checked ==> shop.cart == old(shop.cart)
      ensures !item.caseOnly && checked ==>
        shop.cart == old(shop.cart)[item.id := old(shop.LineFor(item.id, Quantity.CaseModeOn(shop.Qty(item.id), caseSize)))]
      ensures !item.caseOnly && checked ==> shop.Qty(item.id) == Quantity.AfterToggle(old(shop.Qty(item.id)), true, caseSize)
      ensures shop.catalog == old(shop.catalog) && shop.query == old(shop.query)
    {
      if item.caseOnly {
        return;
      }
      caseMode := checked;
      if checked {
        var q := shop.Qty(item.id);
        shop.SetQtd(item.id, Quantity.CaseModeOn(q, caseSize));
      }
    }
  }
}
