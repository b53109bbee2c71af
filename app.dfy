/** The result handling of the search endpoint (app.py): price coercion,
    the relevance guard, the best-price flag, the result order and the
    filter-and-enrich loop of `search()`. */
module App {
  import opened Values
  import opened Text
  import PriceParser
  import opened StableSort

  // ---------------------------------------------------------------------
  // _price_value and _relevance_score
  // ---------------------------------------------------------------------

  /** `_price_value(raw)`: numbers (booleans included, as `bool` is a
      subclass of `int`) become floats, a non-blank string is parsed, and
      everything else has no price. */
  function PriceValue(raw: Value): (r: Option<real>)
    ensures raw.VBool? || raw.VInt? || raw.VFloat? ==> r == AsNumber(raw)
    ensures raw.VStr? && !IsBlank(raw.s) ==> r == Some(PriceParser.ParsePrice(raw.s))
    ensures r.Some? <==> raw.VBool? || raw.VInt? || raw.VFloat? || (raw.VStr? && !IsBlank(raw.s))
  {
    if raw.VBool? || raw.VInt? || raw.VFloat? then AsNumber(raw)
    else if raw.VStr? then
      StripEmptyIffBlank(raw.s);
      if Strip(raw.s) != [] then Some(PriceParser.ParsePrice(raw.s)) else None
    else None
  }

  /** A string price is never negative. */
  lemma PriceValueOfText(s: string)
    requires !IsBlank(s)
    ensures PriceValue(VStr(s)).Some? && PriceValue(VStr(s)).value >= 0.0
  {
  }

  /** `str(title or "").strip().lower()`. */
  function TitleText(title: Value, lib: Library): string {
    Lower(Strip(if Truthy(title) then StrOf(title, lib) else ""))
  }

  /** `_relevance_score(query, title)`: 0.0 when the query is blank or the
      title text is empty; otherwise the similarity ratio of the lower-cased
      query and the title text, which is not modelled (see README). */
  function RelevanceScore(query: string, title: Value, lib: Library): real {
    var titleText := TitleText(title, lib);
    if Strip(query) == [] || titleText == [] then 0.0
    else lib.ratio(Lower(query), titleText)
  }

  /** The guard of `_relevance_score`: a blank query or an empty title text
      scores 0.0, and only a real query against a real title reaches the
      similarity ratio. */
  lemma RelevanceGuard(query: string, title: Value, lib: Library)
    ensures IsBlank(query) ==> RelevanceScore(query, title, lib) == 0.0
    ensures TitleText(title, lib) == [] ==> RelevanceScore(query, title, lib) == 0.0
    ensures !IsBlank(query) && TitleText(title, lib) != [] ==>
      RelevanceScore(query, title, lib) == lib.ratio(Lower(query), TitleText(title, lib))
  {
    StripEmptyIffBlank(query);
  }

  /** A missing, empty or blank title scores 0.0, whatever the query. */
  lemma {:induction false} NoTitleNoRelevance(query: string, title: Value, lib: Library)
    requires !Truthy(title) || (title.VStr? && IsBlank(title.s))
    ensures RelevanceScore(query, title, lib) == 0.0
  {
    if Truthy(title) {
      StripEmptyIffBlank(title.s);
    } else {
      StripEmptyIffBlank("");
    }
  }

  // ---------------------------------------------------------------------
  // _mark_best_price
  // ---------------------------------------------------------------------

  /** `item.get("price_value") is not None`. */
  predicate Priced(item: Item) {
    "price_value" in item && item["price_value"] != VNone
  }

  /** The numeric price of a priced item. */
  function PriceOf(item: Item): Option<real> {
    if Priced(item) then AsNumber(item["price_value"]) else None
  }

  /** Every priced item has a number as its price, so that `min` and `==`
      compare numbers (a string among them would make `min` raise). */
  predicate NumericPrices(items: seq<Item>) {
    forall i :: 0 <= i < |items| ==> (Priced(items[i]) ==> PriceOf(items[i]).Some?)
  }

  function Min(a: real, b: real): real {
    if b < a then b else a
  }

  /** The least price of the priced items, if there is one. */
  function MinPrice(items: seq<Item>): Option<real> {
    if items == [] then None
    else
      var rest := MinPrice(items[..|items| - 1]);
      var last := PriceOf(items[|items| - 1]);
      if rest.None? then last
      else if last.None? then rest
      else Some(Min(rest.value, last.value))
  }

  /** `MinPrice` is the least of the prices, and there is none exactly when
      no item has a price. */
  lemma {:induction false} MinPriceIsLeast(items: seq<Item>)
    ensures MinPrice(items).None? <==> forall i :: 0 <= i < |items| ==> PriceOf(items[i]).None?
    ensures MinPrice(items).Some? ==> exists i :: 0 <= i < |items| && PriceOf(items[i]) == MinPrice(items)
    ensures MinPrice(items).Some? ==> forall i :: 0 <= i < |items| && PriceOf(items[i]).Some? ==>
      MinPrice(items).value <= PriceOf(items[i]).value
  {
    if items != [] {
      var init := items[..|items| - 1];
      MinPriceIsLeast(init);
      assert forall i :: 0 <= i < |items| - 1 ==> init[i] == items[i];
      if MinPrice(init).Some? {
        var w :| 0 <= w < |init| && PriceOf(init[w]) == MinPrice(init);
        if PriceOf(items[|items| - 1]).None? || MinPrice(init).value <= PriceOf(items[|items| - 1]).value {
          assert PriceOf(items[w]) == MinPrice(items);
        }
      }
    }
  }

  /** The item with its `best_price` flag set against the minimum `m`. */
  function Flagged(item: Item, m: real): Item {
    item["best_price" := VBool(PriceOf(item) == Some(m))]
  }

  /** The items after `_mark_best_price`. */
  function MarkedBest(items: seq<Item>): seq<Item> {
    match MinPrice(items)
    case None => items
    case Some(m) => seq(|items|, i requires 0 <= i < |items| => Flagged(items[i], m))
  }

  /** `_mark_best_price(items)`, in place: the first loop finds the minimum
      over the priced items, the second sets every item's flag. */
  method MarkBestPrice(a: array<Item>)
    requires NumericPrices(a[..])
    modifies a
    ensures a[..] == MarkedBest(old(a[..]))
  {
    var best: Option<real> := None;
    var i := 0;
    while i < a.Length
      invariant 0 <= i <= a.Length
      invariant best == MinPrice(a[..i])
      invariant a[..] == old(a[..])
    {
      assert a[..i + 1] == a[..i] + [a[i]];
      MinPriceSnoc(a[..i], a[i]);
      var p := PriceOf(a[i]);
      if best.None? {
        best := p;
      } else if p.Some? {
        best := Some(Min(best.value, p.value));
      }
      i := i + 1;
    }
    assert a[..a.Length] == a[..];
    if best.None? {
      return;
    }
    var m := best.value;
    ghost var items := a[..];
    var j := 0;
    while j < a.Length
      invariant 0 <= j <= a.Length
      invariant forall k :: 0 <= k < j ==> a[k] == Flagged(items[k], m)
      invariant forall k :: j <= k < a.Length ==> a[k] == items[k]
    {
      a[j] := Flagged(a[j], m);
      j := j + 1;
    }
  }

  /** `MinPrice` of one more item. */
  lemma MinPriceSnoc(items: seq<Item>, x: Item)
    ensures MinPrice(items + [x]) ==
      var rest := MinPrice(items);
      var p := PriceOf(x);
      if rest.None? then p else if p.None? then rest else Some(Min(rest.value, p.value))
  {
    assert (items + [x])[..|items|] == items;
  }

  /** With no priced item, nothing is flagged and nothing changes. */
  lemma MarkWithoutPrices(items: seq<Item>)
    requires forall i :: 0 <= i < |items| ==> !Priced(items[i])
    ensures MarkedBest(items) == items
  {
    MinPriceIsLeast(items);
  }

  /** Otherwise every item gets a flag, which is true exactly for the priced
      items whose price is the least of all prices; every other key keeps its
      value and the order of the items is unchanged. */
  lemma MarkFlags(items: seq<Item>, i: nat)
    requires NumericPrices(items)
    requires exists j :: 0 <= j < |items| && Priced(items[j])
    requires i < |items|
    ensures |MarkedBest(items)| == |items|
    ensures MarkedBest(items)[i].Keys == items[i].Keys + {"best_price"}
    ensures forall k :: k in items[i] && k != "best_price" ==> MarkedBest(items)[i][k] == items[i][k]
    ensures MarkedBest(items)[i]["best_price"].VBool?
    ensures MarkedBest(items)[i]["best_price"].b <==>
      Priced(items[i]) &&
      forall j :: 0 <= j < |items| && Priced(items[j]) ==> PriceOf(items[i]).value <= PriceOf(items[j]).value
  {
    MinPriceIsLeast(items);
    var j :| 0 <= j < |items| && Priced(items[j]);
    assert PriceOf(items[j]).Some?;
    var m := MinPrice(items).value;
    assert MarkedBest(items)[i] == Flagged(items[i], m);
    if PriceOf(items[i]) == Some(m) {
      assert Priced(items[i]);
    }
    if Priced(items[i]) && forall j :: 0 <= j < |items| && Priced(items[j]) ==> PriceOf(items[i]).value <= PriceOf(items[j]).value {
      var w :| 0 <= w < |items| && PriceOf(items[w]) == Some(m);
      assert PriceOf(items[i]).value <= m;
    }
  }

  /** When some item is priced, at least one item is flagged as best. */
  lemma MarkSomeBest(items: seq<Item>)
    requires NumericPrices(items)
    requires exists j :: 0 <= j < |items| && Priced(items[j])
    ensures exists i :: (0 <= i < |MarkedBest(items)| &&
      "best_price" in MarkedBest(items)[i] && MarkedBest(items)[i]["best_price"] == VBool(true))
  {
    MinPriceIsLeast(items);
    var j :| 0 <= j < |items| && Priced(items[j]);
    assert PriceOf(items[j]).Some?;
    var m := MinPrice(items).value;
    var w :| 0 <= w < |items| && PriceOf(items[w]) == Some(m);
    assert MarkedBest(items)[w] == Flagged(items[w], m);
  }

  // ---------------------------------------------------------------------
  // _sort_results
  // ---------------------------------------------------------------------

  /** `r.get("relevance", 0.0)` as a number; `None` when it is not one, in
      which case negating it raises `TypeError`. */
  function Relevance(item: Item): Option<real> {
    if "relevance" in item then AsNumber(item["relevance"]) else Some(0.0)
  }

  /** The `price_value` key is present and holds `None`. */
  predicate NonePrice(item: Item) {
    "price_value" in item && item["price_value"] == VNone
  }

  /** Every present `price_value` is a number or `None`. */
  predicate PriceTyped(items: seq<Item>) {
    forall i :: 0 <= i < |items| ==>
      ("price_value" in items[i] ==> items[i]["price_value"] == VNone || AsNumber(items[i]["price_value"]).Some?)
  }

  /** `r.get("price_value", float("inf"))`; a present `None` sorts as one
      more value equal to itself (see `Comparable`). */
  function PriceKey(item: Item): Ext {
    if "price_value" in item && AsNumber(item["price_value"]).Some? then Fin(AsNumber(item["price_value"]).value)
    else PosInf
  }

  /** `-r.get("relevance", 0.0)`. */
  function RelevanceKey(item: Item): Ext {
    match Relevance(item)
    case Some(r) => Fin(-r)
    case None => PosInf
  }

  function PriceModeKey(item: Item): Key {
    Key(PriceKey(item), RelevanceKey(item))
  }

  function MatchModeKey(item: Item): Key {
    Key(RelevanceKey(item), PriceKey(item))
  }

  /** Python can compare the keys of `x` and `y` without `TypeError`:
      both relevances are numbers, and a `None` price is never compared
      with a number (in "match" mode only prices of equal relevance are
      compared). */
  predicate Comparable(priceMode: bool, x: Item, y: Item) {
    && Relevance(x).Some? && Relevance(y).Some?
    && (priceMode || Relevance(x) == Relevance(y) ==> NonePrice(x) == NonePrice(y))
  }

  /** Some pair of items cannot be compared. */
  predicate Incomparable(priceMode: bool, items: seq<Item>) {
    exists i, j :: 0 <= i < |items| && 0 <= j < |items| && !Comparable(priceMode, items[i], items[j])
  }

  /** `_sort_results(items, sort)`: "price" orders by price, then by
      descending relevance; every other mode by descending relevance, then
      by price. `Err` stands for the `TypeError` the key or the comparison
      raises. */
  function SortResults(items: seq<Item>, sort: string): (r: Result<seq<Item>, string>)
    requires PriceTyped(items)
    ensures r.Err? <==> Incomparable(sort == "price", items)
    ensures r.Ok? ==> |r.value| == |items|
  {
    var priceMode := sort == "price";
    if Incomparable(priceMode, items) then Err("TypeError")
    else if priceMode then Ok(SortBy(items, PriceModeKey))
    else Ok(SortBy(items, MatchModeKey))
  }

  /** The result is a permutation of the input, ordered by the key of the
      mode, with items of equal keys in input order. */
  lemma SortResultsOrder(items: seq<Item>, sort: string, k: Key)
    requires PriceTyped(items)
    requires SortResults(items, sort).Ok?
    ensures var out := SortResults(items, sort).value;
      var key := if sort == "price" then PriceModeKey else MatchModeKey;
      && multiset(out) == multiset(items)
      && Sorted(out, key)
      && WithKey(out, key, k) == WithKey(items, key, k)
  {
    var key := if sort == "price" then PriceModeKey else MatchModeKey;
    SortPermutes(items, key);
    SortSorted(items, key);
    SortStable(items, key, k);
  }

  /** "match" and every mode other than "price" give the same order. */
  lemma SortModesAgree(items: seq<Item>, sort: string)
    requires PriceTyped(items) && sort != "price"
    ensures SortResults(items, sort) == SortResults(items, "match")
  {
  }

  /** In "price" mode the list runs from the cheapest price up; a missing
      price sorts last, and equal prices put the more relevant item first. */
  lemma PriceModeOrder(items: seq<Item>, i: nat)
    requires PriceTyped(items)
    requires SortResults(items, "price").Ok?
    requires i + 1 < |items|
    ensures var out := SortResults(items, "price").value;
      && !ExtLt(PriceKey(out[i + 1]), PriceKey(out[i]))
      && (PriceKey(out[i]) == PriceKey(out[i + 1]) ==> !ExtLt(RelevanceKey(out[i + 1]), RelevanceKey(out[i])))
      && ("price_value" !in out[i] ==> PriceKey(out[i + 1]) == PosInf)
  {
    SortSorted(items, PriceModeKey);
  }

  /** Why a mixed list raises: every relevance is a number (otherwise the
      key function itself raises), yet whatever order a comparison sort
      ends in, two neighbours in that order have been compared, and in any
      order sorted by the first key component some neighbours cannot be
      compared. */
  lemma {:induction false} IncomparableNeighbours(priceMode: bool, items: seq<Item>, ys: seq<Item>)
    requires forall i :: 0 <= i < |items| ==> Relevance(items[i]).Some?
    requires Incomparable(priceMode, items)
    requires multiset(ys) == multiset(items)
    requires priceMode || forall p :: 0 <= p < |ys| - 1 ==> !ExtLt(RelevanceKey(ys[p + 1]), RelevanceKey(ys[p]))
    ensures exists p :: 0 <= p < |ys| - 1 && !Comparable(priceMode, ys[p], ys[p + 1])
  {
    var i, j :| 0 <= i < |items| && 0 <= j < |items| && !Comparable(priceMode, items[i], items[j]);
    assert items[i] in multiset(ys) && items[j] in multiset(ys);
    var a :| 0 <= a < |ys| && ys[a] == items[i];
    var b :| 0 <= b < |ys| && ys[b] == items[j];
    forall p | 0 <= p < |ys| ensures Relevance(ys[p]).Some? {
      assert ys[p] in multiset(items);
    }
    if a < b {
      SwitchBetween(priceMode, ys, a, b);
    } else {
      SwitchBetween(priceMode, ys, b, a);
    }
  }

  /** Between two positions whose items have numeric, (in "match" mode)
      equal relevance and differ in having a `None` price, some neighbours
      differ in the same way. */
  lemma {:induction false} SwitchBetween(priceMode: bool, ys: seq<Item>, a: nat, b: nat)
    requires a < b < |ys|
    requires forall p :: 0 <= p < |ys| ==> Relevance(ys[p]).Some?
    requires priceMode || Relevance(ys[a]) == Relevance(ys[b])
    requires NonePrice(ys[a]) != NonePrice(ys[b])
    requires priceMode || forall p :: 0 <= p < |ys| - 1 ==> !ExtLt(RelevanceKey(ys[p + 1]), RelevanceKey(ys[p]))
    ensures exists p :: 0 <= p < |ys| - 1 && !Comparable(priceMode, ys[p], ys[p + 1])
    decreases b - a
  {
    var c := a + 1;
    if !priceMode && Relevance(ys[c]) != Relevance(ys[a]) {
      // The relevance key cannot go up and then come back down.
      RelevanceKeyMonotone(ys, c, b);
      assert false;
    } else if NonePrice(ys[c]) != NonePrice(ys[a]) {
      assert !Comparable(priceMode, ys[a], ys[a + 1]);
    } else {
      SwitchBetween(priceMode, ys, c, b);
    }
  }

  lemma {:induction false} RelevanceKeyMonotone(ys: seq<Item>, c: nat, b: nat)
    requires c <= b < |ys|
    requires forall p :: 0 <= p < |ys| - 1 ==> !ExtLt(RelevanceKey(ys[p + 1]), RelevanceKey(ys[p]))
    ensures !ExtLt(RelevanceKey(ys[b]), RelevanceKey(ys[c]))
    decreases b - c
  {
    if c < b {
      RelevanceKeyMonotone(ys, c + 1, b);
    }
  }

  // ---------------------------------------------------------------------
  // search()
  // ---------------------------------------------------------------------

  /** `[r for r in results if r.get("in_stock")]`. */
  function InStock(results: seq<Item>): (r: seq<Item>)
    ensures forall i :: 0 <= i < |r| ==> Truthy(Get(r[i], "in_stock"))
    ensures multiset(r) <= multiset(results)
  {
    if results == [] then []
    else
      var rest := InStock(results[1..]);
      assert results == [results[0]] + results[1..];
      if Truthy(Get(results[0], "in_stock")) then [results[0]] + rest else rest
  }

  /** The filter keeps every in-stock item, as often as the input lists it,
      and nothing else. */
  lemma {:induction false} InStockKeeps(results: seq<Item>)
    ensures forall x :: multiset(InStock(results))[x] ==
                          (if Truthy(Get(x, "in_stock")) then multiset(results)[x] else 0)
  {
    if results != [] {
      InStockKeeps(results[1..]);
      assert results == [results[0]] + results[1..];
      assert multiset(results) == multiset{results[0]} + multiset(results[1..]);
    }
  }

  /** The filter keeps the input order: filtering a concatenation filters
      each part. */
  lemma {:induction false} InStockAppend(a: seq<Item>, b: seq<Item>)
    ensures InStock(a + b) == InStock(a) + InStock(b)
  {
    if a != [] {
      InStockAppend(a[1..], b);
      assert (a + b)[1..] == a[1..] + b;
      assert (a + b)[0] == a[0];
    } else {
      assert a + b == b;
    }
  }

  /** A copy of `result` with the price value `p` (when there is one) and
      the relevance `rel`. */
  function EnrichedWith(result: Item, p: Option<real>, rel: real): Item {
    var withPrice := if p.Some? then result["price_value" := VFloat(p.value)] else result;
    withPrice["relevance" := VFloat(rel)]
  }

  /** One pass of the enrichment loop: a copy of the result with its price
      value (only when one can be derived) and its relevance. */
  function Enriched(result: Item, query: string, lib: Library): Item {
    EnrichedWith(result, PriceValue(Get(result, "price")), RelevanceScore(query, Get(result, "title"), lib))
  }

  /** The enrichment only adds `price_value` and `relevance`, and it
      overwrites `price_value` only with a price it derived. */
  lemma EnrichedWithKeys(result: Item, p: Option<real>, rel: real)
    ensures var e := EnrichedWith(result, p, rel);
      && e.Keys == result.Keys + {"relevance"} + (if p.Some? then {"price_value"} else {})
      && (forall k :: k in result && k != "price_value" && k != "relevance" ==> e[k] == result[k])
      && e["relevance"] == VFloat(rel)
      && (p.Some? ==> e["price_value"] == VFloat(p.value))
      && (p.None? && "price_value" in result ==> e["price_value"] == result["price_value"])
  {
  }

  /** Every result enriched, in order. */
  function EnrichedAll(results: seq<Item>, query: string, lib: Library): (r: seq<Item>)
    ensures |r| == |results|
  {
    seq(|results|, i requires 0 <= i < |results| => Enriched(results[i], query, lib))
  }

  /** The enrichment loop of `search()`. */
  method EnrichAll(results: seq<Item>, query: string, lib: Library) returns (enriched: seq<Item>)
    ensures enriched == EnrichedAll(results, query, lib)
  {
    enriched := [];
    var i := 0;
    while i < |results|
      invariant 0 <= i <= |results|
      invariant |enriched| == i
      invariant forall k :: 0 <= k < i ==> enriched[k] == Enriched(results[k], query, lib)
    {
      var priceVal := PriceValue(Get(results[i], "price"));
      var rel := RelevanceScore(query, Get(results[i], "title"), lib);
      var item := EnrichedWith(results[i], priceVal, rel);
      enriched := enriched + [item];
      i := i + 1;
    }
  }

  /** The request arguments `q`, `inStock` and `sort` with their defaults. */
  function ArgOr(args: map<string, string>, name: string, default: string): string {
    if name in args then args[name] else default
  }

  /** The body of `search()`. `searchProducts` is `search_products`, `None`
      where it raises (then the list is empty); `Err` is the `TypeError` of
      the sort, which the handler does not catch. */
  method Search(args: map<string, string>, searchProducts: string -> Option<seq<Item>>, lib: Library)
    returns (r: Result<seq<Item>, string>)
    requires forall q :: searchProducts(q).Some? ==> PriceTyped(searchProducts(q).value)
    ensures r == SearchResult(args, searchProducts, lib)
  {
    var query := ArgOr(args, "q", "");
    var inStockOnly := Lower(ArgOr(args, "inStock", "false")) == "true";
    var sortMode := Lower(ArgOr(args, "sort", "match"));
    var found := searchProducts(query);
    var results := if found.Some? then found.value else [];
    if inStockOnly {
      results := InStock(results);
    }
    assert results == Filtered(args, searchProducts);
    var enriched := EnrichAll(results, query, lib);
    var a := new Item[|enriched|](k requires 0 <= k < |enriched| => enriched[k]);
    assert a[..] == enriched;
    EnrichedTyped(results, query, lib);
    MarkBestPrice(a);
    r := SortResults(a[..], sortMode);
  }

  function Filtered(args: map<string, string>, searchProducts: string -> Option<seq<Item>>): (r: seq<Item>)
    requires forall q :: searchProducts(q).Some? ==> PriceTyped(searchProducts(q).value)
    ensures PriceTyped(r)
  {
    var found := searchProducts(ArgOr(args, "q", ""));
    var results := if found.Some? then found.value else [];
    assert PriceTyped(results);
    InStockTyped(results);
    if Lower(ArgOr(args, "inStock", "false")) == "true" then InStock(results) else results
  }

  /** The list the handler returns: the filtered, enriched, flagged and
      sorted results. */
  function SearchResult(args: map<string, string>, searchProducts: string -> Option<seq<Item>>, lib: Library)
    : Result<seq<Item>, string>
    requires forall q :: searchProducts(q).Some? ==> PriceTyped(searchProducts(q).value)
  {
    var query := ArgOr(args, "q", "");
    var results := Filtered(args, searchProducts);
    EnrichedTyped(results, query, lib);
    SortResults(MarkedBest(EnrichedAll(results, query, lib)), Lower(ArgOr(args, "sort", "match")))
  }

  /** After the enrichment every price is a number or `None`, and the
      flags leave the prices alone. */
  lemma EnrichedTyped(results: seq<Item>, query: string, lib: Library)
    requires PriceTyped(results)
    ensures NumericPrices(EnrichedAll(results, query, lib))
    ensures PriceTyped(MarkedBest(EnrichedAll(results, query, lib)))
  {
    var e := EnrichedAll(results, query, lib);
    forall i | 0 <= i < |e|
      ensures "price_value" in e[i] ==> e[i]["price_value"] == VNone || AsNumber(e[i]["price_value"]).Some?
    {
      EnrichedWithKeys(results[i], PriceValue(Get(results[i], "price")), RelevanceScore(query, Get(results[i], "title"), lib));
    }
    MarkedKeepsPrices(e);
  }

  /** The flags add `best_price` at most: every other key keeps its value. */
  lemma MarkedKeepsPrices(items: seq<Item>)
    ensures |MarkedBest(items)| == |items|
    ensures forall i :: 0 <= i < |items| ==>
      ("price_value" in MarkedBest(items)[i] <==> "price_value" in items[i])
    ensures forall i, k :: 0 <= i < |items| && k in items[i] && k != "best_price" ==>
      k in MarkedBest(items)[i] && MarkedBest(items)[i][k] == items[i][k]
  {
  }

  /** Filtering keeps the items' shape. */
  lemma InStockTyped(results: seq<Item>)
    requires PriceTyped(results)
    ensures PriceTyped(InStock(results))
  {
    var r := InStock(results);
    forall i | 0 <= i < |r|
      ensures "price_value" in r[i] ==> r[i]["price_value"] == VNone || AsNumber(r[i]["price_value"]).Some?
    {
      assert r[i] in multiset(results);
    }
  }

  /** `o` holds every key of `r` other than the ones the handler sets,
      with the same value. */
  predicate KeepsKeys(o: Item, r: Item) {
    forall k :: k in r && k != "price_value" && k != "relevance" && k != "best_price" ==> k in o && o[k] == r[k]
  }

  /** After the enrichment and the flags, the i-th offer is the i-th offer
      found with its other keys kept and the relevance of its title. */
  lemma EnrichedMarked(found: seq<Item>, query: string, lib: Library)
    ensures |MarkedBest(EnrichedAll(found, query, lib))| == |found|
    ensures forall i :: 0 <= i < |found| ==>
      var o := MarkedBest(EnrichedAll(found, query, lib))[i];
      KeepsKeys(o, found[i]) && "relevance" in o
      && o["relevance"] == VFloat(RelevanceScore(query, Get(found[i], "title"), lib))
  {
    var e := EnrichedAll(found, query, lib);
    MarkedKeepsPrices(e);
    forall i | 0 <= i < |found|
      ensures KeepsKeys(e[i], found[i]) && "relevance" in e[i]
      ensures e[i]["relevance"] == VFloat(RelevanceScore(query, Get(found[i], "title"), lib))
    {
      EnrichedWithKeys(found[i], PriceValue(Get(found[i], "price")), RelevanceScore(query, Get(found[i], "title"), lib));
    }
  }

  /** The handler returns the flagged, enriched offers found, reordered. */
  lemma SearchPermutes(args: map<string, string>, searchProducts: string -> Option<seq<Item>>, lib: Library)
    requires forall q :: searchProducts(q).Some? ==> PriceTyped(searchProducts(q).value)
    requires SearchResult(args, searchProducts, lib).Ok?
    ensures multiset(SearchResult(args, searchProducts, lib).value)
      == multiset(MarkedBest(EnrichedAll(Filtered(args, searchProducts), ArgOr(args, "q", ""), lib)))
  {
    var m := MarkedBest(EnrichedAll(Filtered(args, searchProducts), ArgOr(args, "q", ""), lib));
    EnrichedTyped(Filtered(args, searchProducts), ArgOr(args, "q", ""), lib);
    SortPermutes(m, PriceModeKey);
    SortPermutes(m, MatchModeKey);
  }

  /** Reordering the enriched, flagged offers keeps them in stock when
      every offer found was. */
  lemma InStockKept(found: seq<Item>, query: string, lib: Library, out: seq<Item>)
    requires forall i :: 0 <= i < |found| ==> Truthy(Get(found[i], "in_stock"))
    requires multiset(out) == multiset(MarkedBest(EnrichedAll(found, query, lib)))
    ensures forall o :: o in out ==> Truthy(Get(o, "in_stock"))
  {
    var m := MarkedBest(EnrichedAll(found, query, lib));
    EnrichedMarked(found, query, lib);
    forall o | o in out
      ensures Truthy(Get(o, "in_stock"))
    {
      assert o in multiset(m);
      var i :| 0 <= i < |m| && m[i] == o;
      assert Truthy(Get(found[i], "in_stock"));
    }
  }

  /** With `inStock=true` every offer returned is in stock. */
  lemma SearchInStockOnly(args: map<string, string>, searchProducts: string -> Option<seq<Item>>, lib: Library)
    requires forall q :: searchProducts(q).Some? ==> PriceTyped(searchProducts(q).value)
    requires SearchResult(args, searchProducts, lib).Ok?
    requires Lower(ArgOr(args, "inStock", "false")) == "true"
    ensures forall o :: o in SearchResult(args, searchProducts, lib).value ==> Truthy(Get(o, "in_stock"))
  {
    SearchPermutes(args, searchProducts, lib);
    InStockKept(Filtered(args, searchProducts), ArgOr(args, "q", ""), lib, SearchResult(args, searchProducts, lib).value);
  }

  /** Every offer found that the filter lets through (all of them, or with
      `inStock=true` every one in stock) comes back, its own keys kept. */
  lemma SearchKeepsOffers(args: map<string, string>, searchProducts: string -> Option<seq<Item>>, lib: Library, f: Item)
    requires forall q :: searchProducts(q).Some? ==> PriceTyped(searchProducts(q).value)
    requires SearchResult(args, searchProducts, lib).Ok?
    requires searchProducts(ArgOr(args, "q", "")).Some? && f in searchProducts(ArgOr(args, "q", "")).value
    requires Lower(ArgOr(args, "inStock", "false")) == "true" ==> Truthy(Get(f, "in_stock"))
    ensures exists o :: o in SearchResult(args, searchProducts, lib).value && KeepsKeys(o, f)
  {
    var found := searchProducts(ArgOr(args, "q", "")).value;
    var results := Filtered(args, searchProducts);
    assert f in multiset(found);
    InStockKeeps(found);
    assert f in multiset(results);
    var i :| 0 <= i < |results| && results[i] == f;
    var m := MarkedBest(EnrichedAll(results, ArgOr(args, "q", ""), lib));
    EnrichedMarked(results, ArgOr(args, "q", ""), lib);
    SearchPermutes(args, searchProducts, lib);
    assert m[i] in multiset(SearchResult(args, searchProducts, lib).value);
  }
}
