/** The shop page's product pipeline: six facet filters applied in sequence,
    then an optional price ordering, plus the selection updates the sidebar
    buttons perform and the grid-to-column-width map. */
module ShopFilter {
  import opened JsValues
  import opened Catalog
  import Seqs
  import Text

  /** The facets held as sets of values. */
  datatype SetFacet = Sizes | Tones | Colors

  /** The sidebar selection. `category` and `gender` are `null` when unset. */
  datatype Selection = Selection(
    category: Option<string>,
    gender: Option<string>,
    sizes: set<string>,
    tones: set<string>,
    colors: set<string>,
    sort: string,
    onlyNew: bool)

  const InitialSelection := Selection(None, None, {}, {}, {}, "Popular", false)

  const PriceLowToHigh := "Price: Low to High"
  const PriceHighToLow := "Price: High to Low"

  // ---------------------------------------------------------------------
  // The facet stages, in pipeline order

  /** Some size the product comes in is among the chosen sizes. */
  predicate AnySelected(options: seq<string>, chosen: set<string>) {
    |options| > 0 && (options[0] in chosen || AnySelected(options[1..], chosen))
  }

  function ByCategory(sel: Selection): Product -> bool {
    (p: Product) => !TextTruthy(sel.category) || p.category == sel.category.value
  }

  function ByGender(sel: Selection): Product -> bool {
    (p: Product) => !TextTruthy(sel.gender) || p.gender == sel.gender.value
  }

  function BySize(sel: Selection): Product -> bool {
    (p: Product) => |sel.sizes| == 0 || AnySelected(p.sizeOptions, sel.sizes)
  }

  function ByColor(sel: Selection): Product -> bool {
    (p: Product) => |sel.colors| == 0 || p.color in sel.colors
  }

  function ByNewness(sel: Selection): Product -> bool {
    (p: Product) => !sel.onlyNew || p.isNew
  }

  /** The query stage: the lower-cased title contains the lower-cased query. */
  function ByQuery(query: string): Product -> bool {
    (p: Product) => Text.Includes(Text.Lower(p.title), Text.Lower(query))
  }


  /** A product passes the first `n` stages. */
  predicate PassesFirst(sel: Selection, query: string, n: nat, p: Product) {
    && (n >= 1 ==> ByCategory(sel)(p))
    && (n >= 2 ==> ByGender(sel)(p))
    && (n >= 3 ==> BySize(sel)(p))
    && (n >= 4 ==> ByColor(sel)(p))
    && (n >= 5 ==> ByNewness(sel)(p))
    && (n >= 6 ==> ByQuery(query)(p))
  }

  function UpTo(sel: Selection, query: string, n: nat): Product -> bool {
    (p: Product) => PassesFirst(sel, query, n, p)
  }

  /** A product satisfies every active facet predicate. */
  predicate Matches(sel: Selection, query: string, p: Product) {
    PassesFirst(sel, query, 6, p)
  }

  /** The six facet stages applied one after another. The chain is a single
      filter by the conjunction of all six stages. */
  function Narrow(products: seq<Product>, sel: Selection, query: string): (r: seq<Product>)
    ensures r == Seqs.Filter(products, UpTo(sel, query, 6))
  {
    Seqs.FilterCongruent(products, ByCategory(sel), UpTo(sel, query, 1));
    Seqs.FilterFusion(products, UpTo(sel, query, 1), ByGender(sel), UpTo(sel, query, 2));
    Seqs.FilterFusion(products, UpTo(sel, query, 2), BySize(sel), UpTo(sel, query, 3));
    Seqs.FilterFusion(products, UpTo(sel, query, 3), ByColor(sel), UpTo(sel, query, 4));
    Seqs.FilterFusion(products, UpTo(sel, query, 4), ByNewness(sel), UpTo(sel, query, 5));
    Seqs.FilterFusion(products, UpTo(sel, query, 5), ByQuery(query), UpTo(sel, query, 6));
    var s1 := Seqs.Filter(products, ByCategory(sel));
    var s2 := Seqs.Filter(s1, ByGender(sel));
    var s3 := Seqs.Filter(s2, BySize(sel));
    var s4 := Seqs.Filter(s3, ByColor(sel));
    var s5 := Seqs.Filter(s4, ByNewness(sel));
    Seqs.Filter(s5, ByQuery(query))
  }

  // ---------------------------------------------------------------------
  // Price ordering: `Array.prototype.sort` is stable, so with a consistent
  // comparator its result is the stable sort by the compared key.

  function Key(p: Product, descending: bool): int {
    if descending then -EffectivePrice(p) else EffectivePrice(p)
  }

  predicate SortedBy(xs: seq<Product>, descending: bool) {
    forall i, j :: 0 <= i < j < |xs| ==> Key(xs[i], descending) <= Key(xs[j], descending)
  }

  /** Every element's key is at least `bound`. */
  predicate KeysAtLeast(xs: seq<Product>, descending: bool, bound: int) {
    forall i :: 0 <= i < |xs| ==> Key(xs[i], descending) >= bound
  }

  /** Insert `x` in front of the first element whose key is not smaller. */
  function Insert(x: Product, xs: seq<Product>, descending: bool): (r: seq<Product>)
    ensures |r| == |xs| + 1
  {
    if |xs| == 0 || Key(x, descending) <= Key(xs[0], descending) then [x] + xs
    else [xs[0]] + Insert(x, xs[1..], descending)
  }

  lemma {:induction false} InsertPermutes(x: Product, xs: seq<Product>, descending: bool)
    ensures multiset(Insert(x, xs, descending)) == multiset(xs) + multiset{x}
  {
    if |xs| > 0 && Key(x, descending) > Key(xs[0], descending) {
      InsertPermutes(x, xs[1..], descending);
      assert xs == [xs[0]] + xs[1..];
    }
  }

  lemma {:induction false} InsertKeysAtLeast(x: Product, xs: seq<Product>, descending: bool, bound: int)
    requires KeysAtLeast(xs, descending, bound) && Key(x, descending) >= bound
    ensures KeysAtLeast(Insert(x, xs, descending), descending, bound)
  {
    if |xs| > 0 && Key(x, descending) > Key(xs[0], descending) {
      InsertKeysAtLeast(x, xs[1..], descending, bound);
    }
  }

  lemma {:induction false} InsertSorted(x: Product, xs: seq<Product>, descending: bool)
    requires SortedBy(xs, descending)
    ensures SortedBy(Insert(x, xs, descending), descending)
  {
    if |xs| > 0 && Key(x, descending) > Key(xs[0], descending) {
      InsertSorted(x, xs[1..], descending);
      InsertKeysAtLeast(x, xs[1..], descending, Key(xs[0], descending));
    }
  }

  /** Stable insertion sort by price, ascending or descending. */
  function SortByPrice(xs: seq<Product>, descending: bool): (r: seq<Product>)
    ensures SortedBy(r, descending)
    ensures multiset(r) == multiset(xs)
  {
    if |xs| == 0 then []
    else
      assert xs == [xs[0]] + xs[1..];
      var rest := SortByPrice(xs[1..], descending);
      InsertSorted(xs[0], rest, descending);
      InsertPermutes(xs[0], rest, descending);
      Insert(xs[0], rest, descending)
  }

  /** The `sort` comparator's effect. "Newest" and "Rating" are not modelled
      and give `None`; every other value compares all products equal, which
      keeps the order. */
  function Order(xs: seq<Product>, sort: string): (r: Option<seq<Product>>)
    ensures r.Some? ==> multiset(r.value) == multiset(xs)
    ensures r.None? <==> sort == "Newest" || sort == "Rating"
    ensures sort != PriceLowToHigh && sort != PriceHighToLow && r.Some? ==> r.value == xs
  {
    if sort == PriceLowToHigh then Some(SortByPrice(xs, false))
    else if sort == PriceHighToLow then Some(SortByPrice(xs, true))
    else if sort == "Newest" || sort == "Rating" then None
    else Some(xs)
  }

  /** The `filtered` memo: the facet filters, then the ordering. For the
      modelled sorts the page is a reordering of the products that pass all
      six facet stages, multiplicities included; under "Popular" it is those
      products in catalogue order. */
  function Filtered(products: seq<Product>, sel: Selection, query: string): (r: Option<seq<Product>>)
    ensures r.Some? <==> sel.sort != "Newest" && sel.sort != "Rating"
    ensures r.Some? ==> multiset(r.value) == multiset(Seqs.Filter(products, UpTo(sel, query, 6)))
    ensures sel.sort == "Popular" ==> r == Some(Seqs.Filter(products, UpTo(sel, query, 6)))
  {
    Order(Narrow(products, sel, query), sel.sort)
  }

  // ---------------------------------------------------------------------
  // Selection updates

  /** `toggleSet(key, val)`: flip one value's membership in one set facet. */
  function ToggleSet(sel: Selection, key: SetFacet, v: string): (r: Selection)
    ensures v in FacetSet(r, key) <==> v !in FacetSet(sel, key)
    ensures forall w :: w != v ==> (w in FacetSet(r, key) <==> w in FacetSet(sel, key))
    ensures forall other :: other != key ==> FacetSet(r, other) == FacetSet(sel, other)
    ensures r.category == sel.category && r.gender == sel.gender
    ensures r.sort == sel.sort && r.onlyNew == sel.onlyNew
  {
    var s := FacetSet(sel, key);
    var s' := if v in s then s - {v} else s + {v};
    match key
    case Sizes => sel.(sizes := s')
    case Tones => sel.(tones := s')
    case Colors => sel.(colors := s')
  }

  function FacetSet(sel: Selection, key: SetFacet): set<string> {
    match key
    case Sizes => sel.sizes
    case Tones => sel.tones
    case Colors => sel.colors
  }

  /** A category button: clicking the selected category clears it, clicking
      any other selects it; nothing else changes. */
  function ClickCategory(sel: Selection, cat: string): (r: Selection)
    ensures r.category == Some(cat) <==> sel.category != Some(cat)
    ensures r.category.None? <==> sel.category == Some(cat)
    ensures r.(category := sel.category) == sel
  {
    sel.(category := if sel.category == Some(cat) then None else Some(cat))
  }

  /** A gender button, with the same single-select behaviour. */
  function ClickGender(sel: Selection, g: string): (r: Selection)
    ensures r.gender == Some(g) <==> sel.gender != Some(g)
    ensures r.gender.None? <==> sel.gender == Some(g)
    ensures r.(gender := sel.gender) == sel
  {
    sel.(gender := if sel.gender == Some(g) then None else Some(g))
  }

  /** The "new arrivals only" checkbox. */
  function ToggleOnlyNew(sel: Selection): (r: Selection)
    ensures r.onlyNew != sel.onlyNew
    ensures r.(onlyNew := sel.onlyNew) == sel
  {
    sel.(onlyNew := !sel.onlyNew)
  }

  /** `colMin`: the minimum column width in pixels for a grid setting. */
  function ColMin(grid: int): (px: int)
    ensures grid == 3 ==> px == 360
    ensures grid == 4 ==> px == 300
    ensures grid != 3 && grid != 4 ==> px == 240
  {
    if grid == 3 then 360 else if grid == 4 then 300 else 240
  }

  // ---------------------------------------------------------------------
  // Properties of the pipeline

  /** The size stage passes a product exactly when no size is selected or one
      of its size options is selected. */
  lemma {:induction false} AnySelectedIff(options: seq<string>, chosen: set<string>)
    ensures AnySelected(options, chosen) <==> exists i :: 0 <= i < |options| && options[i] in chosen
  {
    if |options| > 0 {
      AnySelectedIff(options[1..], chosen);
      if exists i :: 0 <= i < |options| && options[i] in chosen {
        var i :| 0 <= i < |options| && options[i] in chosen;
        if i > 0 {
          assert options[1..][i - 1] in chosen;
        }
      }
      if exists i :: 0 <= i < |options[1..]| && options[1..][i] in chosen {
        var i :| 0 <= i < |options[1..]| && options[1..][i] in chosen;
        assert options[i + 1] in chosen;
      }
    }
  }

  lemma SizeStageIff(sel: Selection, p: Product)
    ensures BySize(sel)(p) <==> |sel.sizes| == 0 || exists i :: 0 <= i < |p.sizeOptions| && p.sizeOptions[i] in sel.sizes
  {
    AnySelectedIff(p.sizeOptions, sel.sizes);
  }

  /** The query stage is a case-insensitive substring test on the title:
      it passes exactly when the lower-cased query occurs in the lower-cased
      title, the query's letter case never matters, and the empty query
      passes every product. */
  lemma QueryStageIff(query: string, p: Product)
    ensures ByQuery(query)(p) <==> exists i :: Text.OccursAt(Text.Lower(p.title), Text.Lower(query), i)
    ensures ByQuery(query)(p) == ByQuery(Text.Lower(query))(p)
    ensures ByQuery("")(p)
  {
    Text.IncludesIffOccurs(Text.Lower(p.title), Text.Lower(query));
    Text.LowerIdempotent(query);
    Text.IncludesEmpty(Text.Lower(p.title));
  }

  /** Every product on the page comes from the catalogue and satisfies every
      active facet. */
  lemma FilteredSound(products: seq<Product>, sel: Selection, query: string)
    requires sel.sort != "Newest" && sel.sort != "Rating"
    ensures Filtered(products, sel, query).Some?
    ensures forall i :: 0 <= i < |Filtered(products, sel, query).value| ==>
      Filtered(products, sel, query).value[i] in products && Matches(sel, query, Filtered(products, sel, query).value[i])
  {
    var r := Filtered(products, sel, query).value;
    forall i | 0 <= i < |r|
      ensures r[i] in products && Matches(sel, query, r[i])
    {
      assert r[i] in multiset(r);
      Seqs.FilterMembers(products, UpTo(sel, query, 6), r[i]);
    }
  }

  /** Every catalogue product that satisfies every active facet is on the
      page. */
  lemma FilteredComplete(products: seq<Product>, sel: Selection, query: string)
    requires sel.sort != "Newest" && sel.sort != "Rating"
    ensures Filtered(products, sel, query).Some?
    ensures forall i :: 0 <= i < |products| && Matches(sel, query, products[i]) ==>
      products[i] in Filtered(products, sel, query).value
  {
    var kept := Seqs.Filter(products, UpTo(sel, query, 6));
    var r := Filtered(products, sel, query).value;
    forall i | 0 <= i < |products| && Matches(sel, query, products[i])
      ensures products[i] in r
    {
      Seqs.FilterMembers(products, UpTo(sel, query, 6), products[i]);
      assert products[i] in multiset(kept);
    }
  }

  /** Every facet is vacuous when unset: with no category, gender, size or
      colour chosen, "new only" off, an empty query and the "Popular" sort,
      the page shows the catalogue as given, in its order. */
  lemma UnsetFacetsKeepAll(products: seq<Product>, sel: Selection)
    requires !TextTruthy(sel.category) && !TextTruthy(sel.gender)
    requires |sel.sizes| == 0 && |sel.colors| == 0 && !sel.onlyNew
    requires sel.sort == "Popular"
    ensures Filtered(products, sel, "") == Some(products)
  {
    forall i | 0 <= i < |products| ensures UpTo(sel, "", 6)(products[i]) {
      QueryStageIff("", products[i]);
    }
    Seqs.FilterKeepsAll(products, UpTo(sel, "", 6));
  }

  /** On first render (the initial selection and an empty search box) the
      page shows the whole catalogue in its given order. */
  lemma InitialPageShowsCatalogue(products: seq<Product>)
    ensures Filtered(products, InitialSelection, "") == Some(products)
  {
    UnsetFacetsKeepAll(products, InitialSelection);
  }

  /** The tone buttons change the selection but never the product list: no
      stage reads `tones`. */
  lemma TonesIgnored(products: seq<Product>, sel: Selection, query: string, tones: set<string>)
    ensures Filtered(products, sel.(tones := tones), query) == Filtered(products, sel, query)
  {
    var sel' := sel.(tones := tones);
    assert ByCategory(sel') == ByCategory(sel) && ByGender(sel') == ByGender(sel);
    assert BySize(sel') == BySize(sel) && ByColor(sel') == ByColor(sel);
    assert ByNewness(sel') == ByNewness(sel);
  }

  /** The two price sorts order by effective price (sale price when present),
      ascending and descending. */
  lemma PriceSortsOrder(products: seq<Product>, sel: Selection, query: string)
    ensures sel.sort == PriceLowToHigh ==>
      Filtered(products, sel, query).Some? &&
      var r := Filtered(products, sel, query).value;
      forall i, j :: 0 <= i < j < |r| ==> EffectivePrice(r[i]) <= EffectivePrice(r[j])
    ensures sel.sort == PriceHighToLow ==>
      Filtered(products, sel, query).Some? &&
      var r := Filtered(products, sel, query).value;
      forall i, j :: 0 <= i < j < |r| ==> EffectivePrice(r[i]) >= EffectivePrice(r[j])
  {
  }

  function KeyIs(k: int, descending: bool): Product -> bool {
    (p: Product) => Key(p, descending) == k
  }

  lemma {:induction false} InsertKeepsTies(x: Product, ys: seq<Product>, descending: bool, k: int)
    ensures Seqs.Filter(Insert(x, ys, descending), KeyIs(k, descending)) ==
      (if Key(x, descending) == k then [x] else []) + Seqs.Filter(ys, KeyIs(k, descending))
  {
    var keep := KeyIs(k, descending);
    if |ys| == 0 || Key(x, descending) <= Key(ys[0], descending) {
      Seqs.FilterCons(x, ys, keep);
    } else {
      var y, rest := ys[0], ys[1..];
      var tail := Insert(x, rest, descending);
      assert Insert(x, ys, descending) == [y] + tail;
      assert ys == [y] + rest;
      InsertKeepsTies(x, rest, descending, k);
      Seqs.FilterCons(y, tail, keep);
      Seqs.FilterCons(y, rest, keep);
      var fx: seq<Product> := if Key(x, descending) == k then [x] else [];
      var fy: seq<Product> := if keep(y) then [y] else [];
      var fr := Seqs.Filter(rest, keep);
      if fx == [] {
        assert fx + fr == fr && fx + (fy + fr) == fy + fr;
      } else {
        assert fy == [];
        assert fy + fr == fr && fy + (fx + fr) == fx + fr;
      }
    }
  }

  /** The price sorts are stable: products with equal price keep their
      catalogue order. */
  lemma {:induction false} SortByPriceStable(xs: seq<Product>, descending: bool, k: int)
    ensures Seqs.Filter(SortByPrice(xs, descending), KeyIs(k, descending)) == Seqs.Filter(xs, KeyIs(k, descending))
  {
    if |xs| > 0 {
      SortByPriceStable(xs[1..], descending, k);
      InsertKeepsTies(xs[0], SortByPrice(xs[1..], descending), descending, k);
    }
  }

  /** Toggling the same value twice restores the selection. */
  lemma ToggleSetTwice(sel: Selection, key: SetFacet, v: string)
    ensures ToggleSet(ToggleSet(sel, key, v), key, v) == sel
  {
    var r := ToggleSet(ToggleSet(sel, key, v), key, v);
    assert FacetSet(r, key) == FacetSet(sel, key);
  }
}
