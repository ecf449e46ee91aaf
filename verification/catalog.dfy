/** A storefront product record, as shown on the shop page and copied into the
    cart. Prices are whole cents; `salePrice` may be null or undefined. */
module Catalog {
  import opened JsValues

  datatype Product = Product(
    id: int,
    title: string,
    category: string,
    gender: string,
    sizeOptions: seq<string>,
    color: string,
    isNew: bool,
    price: int,
    salePrice: Option<int>)

  /** The unit price charged: the sale price whenever one is present, even 0,
      otherwise the list price. */
  function EffectivePrice(p: Product): (r: int)
    ensures p.salePrice.Some? ==> r == p.salePrice.value
    ensures p.salePrice.None? ==> r == p.price
  {
    p.salePrice.OrElse(p.price)
  }
}
