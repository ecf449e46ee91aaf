/** The cart store: an ordered list of cart lines keyed by product id, with
    pure transitions for `addToCart`, `removeFromCart` and `clearCart` and the
    two derived sums. */
module CartStore {
  import opened JsValues
  import opened Catalog
  import Seqs

  /** A stored line: the product fields copied at add time, plus a quantity. */
  datatype Line = Line(product: Product, quantity: int)

  type Cart = seq<Line>

  /** The initial cart, and the result of `clearCart`. */
  const EmptyCart: Cart := []

  /** At most one line per product id, and every quantity at least 1. */
  ghost predicate Valid(cart: Cart) {
    && (forall i, j :: 0 <= i < j < |cart| ==> cart[i].product.id != cart[j].product.id)
    && (forall i :: 0 <= i < |cart| ==> cart[i].quantity >= 1)
  }

  /** The first line of the cart whose product has the given id, if any. */
  function Find(cart: Cart, id: int): (r: Option<Line>)
    ensures r.None? <==> forall i :: 0 <= i < |cart| ==> cart[i].product.id != id
    ensures r.Some? ==>
      exists k :: 0 <= k < |cart| && cart[k] == r.value && cart[k].product.id == id &&
        forall i :: 0 <= i < k ==> cart[i].product.id != id
  {
    if |cart| == 0 then None
    else if cart[0].product.id == id then Some(cart[0])
    else
      var r := Find(cart[1..], id);
      assert r.Some? ==>
        exists k :: 0 <= k < |cart| && cart[k] == r.value && cart[k].product.id == id &&
          forall i :: 0 <= i < k ==> cart[i].product.id != id
      by {
        if r.Some? {
          var j :| 0 <= j < |cart| - 1 && cart[1..][j] == r.value && cart[1..][j].product.id == id
            && forall i :: 0 <= i < j ==> cart[1..][i].product.id != id;
          assert forall i :: 0 <= i < j + 1 ==> cart[i].product.id != id by {
            forall i | 0 <= i < j + 1 ensures cart[i].product.id != id {
              if i > 0 { assert cart[i] == cart[1..][i - 1]; }
            }
          }
          assert cart[j + 1] == r.value;
        }
      }
      r
  }

  /** Every line with the given id gets one more unit, keeping its stored
      product fields; the other lines are untouched. */
  function Bump(cart: Cart, id: int): (r: Cart)
    ensures |r| == |cart|
    ensures forall i :: 0 <= i < |cart| ==>
      r[i] == (if cart[i].product.id == id then cart[i].(quantity := cart[i].quantity + 1) else cart[i])
  {
    seq(|cart|, i requires 0 <= i < |cart| =>
      if cart[i].product.id == id then cart[i].(quantity := cart[i].quantity + 1) else cart[i])
  }

  /** `addToCart(product)`. */
  function AddToCart(cart: Cart, p: Product): (r: Cart)
    ensures Find(r, p.id).Some?
  {
    if Find(cart, p.id).Some? then Bump(cart, p.id)
    else
      var r := cart + [Line(p, 1)];
      assert r[|cart|].product.id == p.id;
      r
  }

  function NotId(id: int): Line -> bool {
    (l: Line) => l.product.id != id
  }

  /** `removeFromCart(id)`: keep every line whose id differs. */
  function RemoveFromCart(cart: Cart, id: int): (r: Cart)
    ensures Find(r, id).None?
    ensures |r| <= |cart|
  {
    Seqs.Filter(cart, NotId(id))
  }

  /** `clearCart()`. */
  function ClearCart(cart: Cart): (r: Cart)
    ensures Valid(r) && |r| == 0
  {
    EmptyCart
  }

  /** The number of units in the cart: the sum of the line quantities. */
  function TotalItems(cart: Cart): (r: int)
    ensures Valid(cart) ==> r >= |cart|
  {
    if |cart| == 0 then 0
    else
      var init := cart[..|cart| - 1];
      assert forall i :: 0 <= i < |init| ==> init[i] == cart[i];
      TotalItems(init) + cart[|cart| - 1].quantity
  }

  function LineTotal(l: Line): int {
    EffectivePrice(l.product) * l.quantity
  }

  /** No line costs a negative amount. */
  ghost predicate NonNegativeLines(cart: Cart) {
    forall i :: 0 <= i < |cart| ==> LineTotal(cart[i]) >= 0
  }

  /** The amount due: each line's effective unit price (the sale price when
      one is set, else the list price) times its quantity, summed. */
  function TotalPrice(cart: Cart): (r: int)
    ensures NonNegativeLines(cart) ==> r >= 0
  {
    if |cart| == 0 then 0
    else
      var init := cart[..|cart| - 1];
      assert forall i :: 0 <= i < |init| ==> init[i] == cart[i];
      TotalPrice(init) + LineTotal(cart[|cart| - 1])
  }

  // ---------------------------------------------------------------------
  // The two aggregates distribute over concatenation.

  lemma {:induction false} TotalItemsConcat(a: Cart, b: Cart)
    ensures TotalItems(a + b) == TotalItems(a) + TotalItems(b)
    decreases |b|
  {
    if |b| > 0 {
      var b' := b[..|b| - 1];
      assert (a + b)[..|a + b| - 1] == a + b';
      TotalItemsConcat(a, b');
    } else {
      assert a + b == a;
    }
  }

  lemma {:induction false} TotalPriceConcat(a: Cart, b: Cart)
    ensures TotalPrice(a + b) == TotalPrice(a) + TotalPrice(b)
    decreases |b|
  {
    if |b| > 0 {
      var b' := b[..|b| - 1];
      assert (a + b)[..|a + b| - 1] == a + b';
      TotalPriceConcat(a, b');
    } else {
      assert a + b == a;
    }
  }

  /** Each aggregate of a cart split around one line. */
  lemma Around(pre: Cart, x: Line, post: Cart)
    ensures TotalItems(pre + [x] + post) == TotalItems(pre) + x.quantity + TotalItems(post)
    ensures TotalPrice(pre + [x] + post) == TotalPrice(pre) + LineTotal(x) + TotalPrice(post)
  {
    assert (pre + [x])[..|pre|] == pre;
    TotalItemsConcat(pre + [x], post);
    TotalPriceConcat(pre + [x], post);
  }

  /** Each aggregate of a cart with one more line at the end. */
  lemma AppendTotals(cart: Cart, x: Line)
    ensures TotalItems(cart + [x]) == TotalItems(cart) + x.quantity
    ensures TotalPrice(cart + [x]) == TotalPrice(cart) + LineTotal(x)
  {
    assert (cart + [x])[..|cart|] == cart;
  }

  lemma SplitAt(cart: Cart, k: int)
    requires 0 <= k < |cart|
    ensures cart == cart[..k] + [cart[k]] + cart[k + 1..]
  {
  }

  /** Replacing line `k` changes each aggregate by the difference of the two lines. */
  lemma Splice(cart: Cart, k: int, line: Line)
    requires 0 <= k < |cart|
    ensures TotalItems(cart[..k] + [line] + cart[k + 1..]) == TotalItems(cart) - cart[k].quantity + line.quantity
    ensures TotalPrice(cart[..k] + [line] + cart[k + 1..]) == TotalPrice(cart) - LineTotal(cart[k]) + LineTotal(line)
  {
    var pre, post := cart[..k], cart[k + 1..];
    SplitAt(cart, k);
    Around(pre, cart[k], post);
    Around(pre, line, post);
    assert TotalItems(cart) == TotalItems(pre) + cart[k].quantity + TotalItems(post);
    assert TotalPrice(cart) == TotalPrice(pre) + LineTotal(cart[k]) + TotalPrice(post);
  }

  // ---------------------------------------------------------------------
  // addToCart

  /** Adding an id already in the cart raises that one line's quantity by
      exactly 1, keeps its stored fields, and leaves every other line and the
      order as they were. */
  lemma AddToCartExisting(cart: Cart, p: Product, k: int)
    requires Valid(cart)
    requires 0 <= k < |cart| && cart[k].product.id == p.id
    ensures AddToCart(cart, p) == cart[..k] + [Line(cart[k].product, cart[k].quantity + 1)] + cart[k + 1..]
  {
    assert Find(cart, p.id).Some?;
    var r := Bump(cart, p.id);
    var t := cart[..k] + [Line(cart[k].product, cart[k].quantity + 1)] + cart[k + 1..];
    assert |t| == |r|;
    forall i | 0 <= i < |r| ensures r[i] == t[i] {
      if i < k {
        assert t[i] == cart[i] && cart[i].product.id != p.id;
      } else if i > k {
        assert t[i] == cart[i] && cart[i].product.id != p.id;
      }
    }
    assert r == t;
  }

  /** Adding a new id appends one line at the end, carrying the product's
      fields and quantity 1. */
  lemma AddToCartNew(cart: Cart, p: Product)
    requires forall i :: 0 <= i < |cart| ==> cart[i].product.id != p.id
    ensures |AddToCart(cart, p)| == |cart| + 1
    ensures AddToCart(cart, p)[..|cart|] == cart
    ensures AddToCart(cart, p)[|cart|] == Line(p, 1)
  {
  }

  lemma AddToCartPreservesValid(cart: Cart, p: Product)
    requires Valid(cart)
    ensures Valid(AddToCart(cart, p))
  {
  }

  /** Each `addToCart` raises the item count by exactly 1. */
  lemma AddToCartTotalItems(cart: Cart, p: Product)
    requires Valid(cart)
    ensures TotalItems(AddToCart(cart, p)) == TotalItems(cart) + 1
  {
    var f := Find(cart, p.id);
    if f.Some? {
      var k :| 0 <= k < |cart| && cart[k] == f.value && cart[k].product.id == p.id;
      AddToCartExisting(cart, p, k);
      Splice(cart, k, Line(cart[k].product, cart[k].quantity + 1));
    } else {
      assert AddToCart(cart, p)[..|cart|] == cart;
    }
  }

  /** The product the cart charges for after `addToCart(p)`: the line already
      stored under `p.id` when there is one, otherwise `p` itself. */
  function StoredProduct(cart: Cart, p: Product): Product {
    match Find(cart, p.id)
    case Some(l) => l.product
    case None => p
  }

  /** One more unit adds one effective price to a line's total. */
  lemma OneMoreUnit(l: Line)
    ensures LineTotal(l.(quantity := l.quantity + 1)) == LineTotal(l) + EffectivePrice(l.product)
  {
    var e := EffectivePrice(l.product);
    assert e * (l.quantity + 1) == e * l.quantity + e;
  }

  /** Each `addToCart` raises the total price by one unit of the stored
      line's effective price; the fields of a repeated add are not used. */
  lemma AddToCartTotalPrice(cart: Cart, p: Product)
    requires Valid(cart)
    ensures TotalPrice(AddToCart(cart, p)) == TotalPrice(cart) + EffectivePrice(StoredProduct(cart, p))
  {
    var f := Find(cart, p.id);
    if f.Some? {
      var k :| 0 <= k < |cart| && cart[k] == f.value && cart[k].product.id == p.id;
      var old_, new_ := cart[k], Line(cart[k].product, cart[k].quantity + 1);
      AddToCartExisting(cart, p, k);
      Splice(cart, k, new_);
      OneMoreUnit(old_);
      assert new_ == old_.(quantity := old_.quantity + 1);
      assert LineTotal(new_) == LineTotal(old_) + EffectivePrice(old_.product);
      assert StoredProduct(cart, p) == old_.product;
    } else {
      assert AddToCart(cart, p) == cart + [Line(p, 1)];
      AppendTotals(cart, Line(p, 1));
    }
  }

  // ---------------------------------------------------------------------
  // removeFromCart and clearCart

  /** Filtering out an id held only by line `k` deletes exactly that line. */
  lemma RemoveOnly(cart: Cart, id: int, k: int)
    requires 0 <= k < |cart| && cart[k].product.id == id
    requires forall i :: 0 <= i < |cart| && i != k ==> cart[i].product.id != id
    ensures RemoveFromCart(cart, id) == cart[..k] + cart[k + 1..]
  {
    KeepsOthers(cart, id, 0, k);
    KeepsOthers(cart, id, k + 1, |cart|);
    assert cart[0..k] == cart[..k] && cart[k + 1..|cart|] == cart[k + 1..];
    DropOne(cart[..k], cart[k], cart[k + 1..], id);
    assert cart == cart[..k] + [cart[k]] + cart[k + 1..];
  }

  /** Filtering out the id of the single line between two surviving stretches. */
  lemma DropOne(pre: Cart, x: Line, post: Cart, id: int)
    requires x.product.id == id
    requires Seqs.Filter(pre, NotId(id)) == pre
    requires Seqs.Filter(post, NotId(id)) == post
    ensures Seqs.Filter(pre + [x] + post, NotId(id)) == pre + post
  {
    var keep := NotId(id);
    Seqs.FilterCons(x, post, keep);
    assert !keep(x);
    assert Seqs.Filter([x] + post, keep) == post;
    Seqs.FilterConcat(pre, [x] + post, keep);
    assert pre + [x] + post == pre + ([x] + post);
  }

  /** A stretch of lines none of which has `id` survives the removal intact. */
  lemma KeepsOthers(cart: Cart, id: int, lo: int, hi: int)
    requires 0 <= lo <= hi <= |cart|
    requires forall i :: lo <= i < hi ==> cart[i].product.id != id
    ensures Seqs.Filter(cart[lo..hi], NotId(id)) == cart[lo..hi]
  {
    var part := cart[lo..hi];
    forall i | 0 <= i < |part| ensures NotId(id)(part[i]) {
      assert part[i] == cart[lo + i];
    }
    Seqs.FilterKeepsAll(part, NotId(id));
  }

  /** Removing a present id deletes exactly its line and keeps the others in order. */
  lemma RemoveFromCartPresent(cart: Cart, id: int, k: int)
    requires Valid(cart)
    requires 0 <= k < |cart| && cart[k].product.id == id
    ensures RemoveFromCart(cart, id) == cart[..k] + cart[k + 1..]
  {
    RemoveOnly(cart, id, k);
  }

  /** Removing an absent id changes nothing. */
  lemma RemoveFromCartAbsent(cart: Cart, id: int)
    requires forall i :: 0 <= i < |cart| ==> cart[i].product.id != id
    ensures RemoveFromCart(cart, id) == cart
  {
    Seqs.FilterKeepsAll(cart, NotId(id));
  }

  lemma RemoveFromCartPreservesValid(cart: Cart, id: int)
    requires Valid(cart)
    ensures Valid(RemoveFromCart(cart, id))
  {
    var f := Find(cart, id);
    if f.Some? {
      var k :| 0 <= k < |cart| && cart[k] == f.value && cart[k].product.id == id;
      RemoveFromCartPresent(cart, id, k);
      ValidWithout(cart, k);
    } else {
      RemoveFromCartAbsent(cart, id);
    }
  }

  /** Deleting one line of a valid cart leaves a valid cart. */
  lemma ValidWithout(cart: Cart, k: int)
    requires Valid(cart) && 0 <= k < |cart|
    ensures Valid(cart[..k] + cart[k + 1..])
  {
    var r := cart[..k] + cart[k + 1..];
    forall i | 0 <= i < |r|
      ensures r[i] == cart[if i < k then i else i + 1]
    {
    }
  }

  /** After `clearCart` both aggregates are 0, whatever the cart held. */
  lemma ClearCartTotals(cart: Cart)
    ensures TotalItems(ClearCart(cart)) == 0 && TotalPrice(ClearCart(cart)) == 0
  {
  }

  // ---------------------------------------------------------------------
  // The aggregates on valid carts

  /** Every line counts at least once, so the item count is at least the number
      of lines, and it is 0 only for the empty cart. */
  lemma {:induction false} TotalItemsBounds(cart: Cart)
    requires forall i :: 0 <= i < |cart| ==> cart[i].quantity >= 1
    ensures TotalItems(cart) >= |cart|
    ensures TotalItems(cart) == 0 <==> |cart| == 0
  {
    if |cart| > 0 {
      TotalItemsBounds(cart[..|cart| - 1]);
    }
  }

  /** Two lines, one on sale at 8 (regular 10) bought twice and one at 5 bought
      once, total 8 * 2 + 5 * 1 = 21. */
  lemma TotalPriceExample(a: Product, b: Product)
    requires a.price == 10 && a.salePrice == Some(8)
    requires b.price == 5 && b.salePrice == None
    ensures TotalPrice([Line(a, 2), Line(b, 1)]) == 21
  {
    var c := [Line(a, 2), Line(b, 1)];
    assert c[..1] == [Line(a, 2)];
    assert c[..1][..0] == [];
    assert LineTotal(Line(a, 2)) == 16;
    assert LineTotal(Line(b, 1)) == 5;
    assert TotalPrice(c[..1]) == 16;
  }
}
